/** Python string primitives the core relies on: `str.isspace`, `str.strip`,
    `str.join` and the code-point order used by `sorted` on strings. */
module Text {

  /** A character Python's `str.isspace()` accepts: the ASCII whitespace
      and separator controls and the Unicode space separators. */
  predicate IsSpace(c: char) {
    var n := c as int;
    n == 0x20 || 0x09 <= n <= 0x0D || 0x1C <= n <= 0x1F || n == 0x85 || n == 0xA0
    || n == 0x1680 || 0x2000 <= n <= 0x200A || n == 0x2028 || n == 0x2029
    || n == 0x202F || n == 0x205F || n == 0x3000
  }

  /** Every character is whitespace (the empty string included). */
  predicate IsBlank(s: string) {
    forall i :: 0 <= i < |s| ==> IsSpace(s[i])
  }

  lemma BlankConcat(a: string, b: string)
    ensures IsBlank(a + b) <==> IsBlank(a) && IsBlank(b)
  {
    if IsBlank(a + b) {
      forall i | 0 <= i < |a| ensures IsSpace(a[i]) { assert a[i] == (a + b)[i]; }
      forall i | 0 <= i < |b| ensures IsSpace(b[i]) { assert b[i] == (a + b)[|a| + i]; }
    }
    if IsBlank(a) && IsBlank(b) {
      forall i | 0 <= i < |a + b| ensures IsSpace((a + b)[i]) {
        if i < |a| { assert (a + b)[i] == a[i]; } else { assert (a + b)[i] == b[i - |a|]; }
      }
    }
  }

  /** `s.lstrip()`. */
  function StripLeading(s: string): string {
    if s != [] && IsSpace(s[0]) then StripLeading(s[1..]) else s
  }

  /** `s.rstrip()`. */
  function StripTrailing(s: string): string {
    if s != [] && IsSpace(s[|s| - 1]) then StripTrailing(s[..|s| - 1]) else s
  }

  /** `lstrip` drops the longest all-whitespace prefix and nothing else. */
  lemma {:induction false} StripLeadingSpec(s: string)
    ensures |StripLeading(s)| <= |s| && StripLeading(s) == s[|s| - |StripLeading(s)|..]
    ensures IsBlank(s[..|s| - |StripLeading(s)|])
    ensures StripLeading(s) != [] ==> !IsSpace(StripLeading(s)[0])
  {
    if s != [] && IsSpace(s[0]) {
      var r := StripLeading(s[1..]);
      StripLeadingSpec(s[1..]);
      assert s[..|s| - |r|] == [s[0]] + s[1..][..|s| - 1 - |r|];
    }
  }

  /** `rstrip` drops the longest all-whitespace suffix and nothing else. */
  lemma {:induction false} StripTrailingSpec(s: string)
    ensures |StripTrailing(s)| <= |s| && StripTrailing(s) == s[..|StripTrailing(s)|]
    ensures IsBlank(s[|StripTrailing(s)|..])
    ensures StripTrailing(s) != [] ==> !IsSpace(StripTrailing(s)[|StripTrailing(s)| - 1])
  {
    if s != [] && IsSpace(s[|s| - 1]) {
      var r := StripTrailing(s[..|s| - 1]);
      StripTrailingSpec(s[..|s| - 1]);
      assert s[|r|..] == s[..|s| - 1][|r|..] + [s[|s| - 1]];
    }
  }

  /** `s.strip()`: never longer than `s`, and neither beginning nor ending
      with whitespace. */
  function Strip(s: string): (r: string)
    ensures |r| <= |s|
    ensures r != [] ==> !IsSpace(r[0]) && !IsSpace(r[|r| - 1])
  {
    var l := StripLeading(s);
    StripLeadingSpec(s);
    StripTrailingSpec(l);
    StripTrailing(l)
  }

  /** Where `Strip(s)` begins inside `s`. */
  function StripOffset(s: string): int {
    |s| - |StripLeading(s)|
  }

  /** `s.strip()` is the infix of `s` left once the leading and trailing
      whitespace is removed, and it neither begins nor ends with whitespace. */
  lemma StripSpec(s: string)
    ensures 0 <= StripOffset(s) && StripOffset(s) + |Strip(s)| <= |s|
    ensures Strip(s) == s[StripOffset(s)..StripOffset(s) + |Strip(s)|]
    ensures IsBlank(s[..StripOffset(s)]) && IsBlank(s[StripOffset(s) + |Strip(s)|..])
    ensures Strip(s) != [] ==> !IsSpace(Strip(s)[0]) && !IsSpace(Strip(s)[|Strip(s)| - 1])
  {
    StripLeadingSpec(s);
    StripTrailingSpec(StripLeading(s));
    assert s[StripOffset(s)..] == StripLeading(s);
  }

  /** `not s.strip()` holds exactly for the blank strings. */
  lemma StripEmptyIffBlank(s: string)
    ensures Strip(s) == [] <==> IsBlank(s)
  {
    StripSpec(s);
    var r := Strip(s);
    var a := StripOffset(s);
    assert s == s[..a] + (r + s[a + |r|..]);
    BlankConcat(r, s[a + |r|..]);
    BlankConcat(s[..a], r + s[a + |r|..]);
  }

  /** Stripping a stripped string changes nothing. */
  lemma StripIdempotent(s: string)
    ensures Strip(Strip(s)) == Strip(s)
  {
    var t := Strip(s);
    StripSpec(s);
    if t != [] {
      assert StripLeading(t) == t;
      assert StripTrailing(t) == t;
    } else {
      assert StripLeading(t) == t;
    }
  }

  /** `sep.join(xs)`. */
  function JoinWith(sep: string, xs: seq<string>): string
    decreases |xs|
  {
    if |xs| == 0 then ""
    else if |xs| == 1 then xs[0]
    else xs[0] + sep + JoinWith(sep, xs[1..])
  }

  /** Python's `<` on `str`: lexicographic order on code points, a proper
      prefix being smaller. (Dafny's own `<` on sequences means "proper prefix".) */
  predicate StrLess(a: string, b: string)
    decreases |a|
  {
    |b| > 0 && (|a| == 0 || a[0] < b[0] || (a[0] == b[0] && StrLess(a[1..], b[1..])))
  }

  lemma {:induction false} StrLessIrreflexive(a: string)
    ensures !StrLess(a, a)
    decreases |a|
  {
    if |a| > 0 { StrLessIrreflexive(a[1..]); }
  }

  lemma {:induction false} StrLessTransitive(a: string, b: string, c: string)
    requires StrLess(a, b) && StrLess(b, c)
    ensures StrLess(a, c)
    decreases |a|
  {
    if |a| > 0 && a[0] == b[0] && b[0] == c[0] {
      StrLessTransitive(a[1..], b[1..], c[1..]);
    }
  }

  lemma {:induction false} StrLessTotal(a: string, b: string)
    ensures a == b || StrLess(a, b) || StrLess(b, a)
    decreases |a|
  {
    if |a| > 0 && |b| > 0 && a[0] == b[0] {
      StrLessTotal(a[1..], b[1..]);
      if a[1..] == b[1..] { assert a == [a[0]] + a[1..] && b == [b[0]] + b[1..]; }
    }
  }

  /** In strictly increasing order, hence without duplicates. */
  predicate StrictlySorted(xs: seq<string>) {
    forall i, j :: 0 <= i < j < |xs| ==> StrLess(xs[i], xs[j])
  }

  /** Two strictly sorted lists holding the same strings are the same list:
      "sorted, deduplicated" determines the output of `sorted(set)`. */
  lemma {:induction false} StrictlySortedUnique(xs: seq<string>, ys: seq<string>)
    requires StrictlySorted(xs) && StrictlySorted(ys)
    requires forall w :: w in xs <==> w in ys
    ensures xs == ys
    decreases |xs|
  {
    assert xs != [] <==> ys != [] by {
      if xs != [] { assert xs[0] in ys; }
      if ys != [] { assert ys[0] in xs; }
    }
    if xs != [] {
      assert xs[0] in ys && ys[0] in xs;
      if xs[0] != ys[0] {
        var i :| 0 <= i < |xs| && xs[i] == ys[0];
        var j :| 0 <= j < |ys| && ys[j] == xs[0];
        assert StrLess(xs[0], ys[0]) && StrLess(ys[0], xs[0]);
        StrLessTransitive(xs[0], ys[0], xs[0]);
        StrLessIrreflexive(xs[0]);
      }
      forall w ensures w in xs[1..] <==> w in ys[1..] {
        if w in xs[1..] {
          var i :| 1 <= i < |xs| && xs[i] == w;
          StrLessIrreflexive(w);
          assert w in ys;
          var j :| 0 <= j < |ys| && ys[j] == w;
          assert j != 0;
          assert ys[1..][j - 1] == w;
        }
        if w in ys[1..] {
          var j :| 1 <= j < |ys| && ys[j] == w;
          StrLessIrreflexive(w);
          assert w in xs;
          var i :| 0 <= i < |xs| && xs[i] == w;
          assert i != 0;
          assert xs[1..][i - 1] == w;
        }
      }
      StrictlySortedUnique(xs[1..], ys[1..]);
    }
  }

  /** Adds `w` to a strictly sorted list at its place (no effect if present). */
  function Insert(xs: seq<string>, w: string): (r: seq<string>)
    requires StrictlySorted(xs)
    ensures StrictlySorted(r)
    ensures forall v :: v in r <==> v in xs || v == w
    decreases |xs|
  {
    if xs == [] then [w]
    else if w == xs[0] then xs
    else if StrLess(w, xs[0]) then
      assert forall j :: 0 <= j < |xs| ==> StrLess(w, xs[j]) by {
        forall j | 0 <= j < |xs| ensures StrLess(w, xs[j]) {
          if j > 0 { StrLessTransitive(w, xs[0], xs[j]); }
        }
      }
      [w] + xs
    else
      StrLessTotal(w, xs[0]);
      var rest := Insert(xs[1..], w);
      assert forall v :: v in rest ==> StrLess(xs[0], v);
      [xs[0]] + rest
  }
}
