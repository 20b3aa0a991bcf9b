/** The paragraph split of the chunker, `re.split(r"\n{2,}", text)`: the text is
    cut at every maximal run of two or more newlines, and the runs are dropped. */
module Paragraphs {
  import opened Text

  /** Two newlines start at position `i`. */
  predicate DoubleNewlineAt(s: string, i: int) {
    0 <= i && i + 1 < |s| && s[i] == '\n' && s[i + 1] == '\n'
  }

  /** No two consecutive newlines anywhere in `s`. */
  predicate NoDoubleNewline(s: string) {
    forall i :: 0 <= i < |s| ==> !DoubleNewlineAt(s, i)
  }

  predicate StartsWithNewline(s: string) { |s| > 0 && s[0] == '\n' }

  predicate EndsWithNewline(s: string) { |s| > 0 && s[|s| - 1] == '\n' }

  /** The leftmost match of the pattern at or after `from`, or `|s|` if none. */
  function FirstDoubleNewline(s: string, from: nat): (i: nat)
    requires from <= |s|
    ensures from <= i <= |s|
    ensures i < |s| ==> DoubleNewlineAt(s, i)
    ensures forall k :: from <= k < i ==> !DoubleNewlineAt(s, k)
    decreases |s| - from
  {
    if from + 1 >= |s| then |s|
    else if s[from] == '\n' && s[from + 1] == '\n' then from
    else FirstDoubleNewline(s, from + 1)
  }

  /** The end of the run of newlines starting at `i` (the greedy `{2,}`). */
  function RunEnd(s: string, i: nat): (j: nat)
    requires i <= |s|
    ensures i <= j <= |s|
    ensures forall k :: i <= k < j ==> s[k] == '\n'
    ensures j < |s| ==> s[j] != '\n'
    decreases |s| - i
  {
    if i < |s| && s[i] == '\n' then RunEnd(s, i + 1) else i
  }

  /** The pieces `re.split(r"\n{2,}", s)` returns: at least one, the last
      possibly empty when `s` ends in a run. */
  function SplitParagraphs(s: string): (ps: seq<string>)
    ensures |ps| >= 1
    decreases |s|
  {
    var i := FirstDoubleNewline(s, 0);
    if i == |s| then [s]
    else
      var j := RunEnd(s, i);
      assert j >= i + 2 by { assert s[i + 1] == '\n'; }
      [s[..i]] + SplitParagraphs(s[j..])
  }

  /** The lengths of the newline runs the split removed, in order. */
  function SeparatorRuns(s: string): seq<nat>
    decreases |s|
  {
    var i := FirstDoubleNewline(s, 0);
    if i == |s| then []
    else
      var j := RunEnd(s, i);
      assert j >= i + 2 by { assert s[i + 1] == '\n'; }
      [j - i] + SeparatorRuns(s[j..])
  }

  /** `n` newline characters. */
  function Newlines(n: nat): (r: string)
    ensures |r| == n && forall k :: 0 <= k < n ==> r[k] == '\n'
  {
    if n == 0 then "" else Newlines(n - 1) + "\n"
  }

  /** Puts the pieces back together with the given runs between them. */
  function Reassemble(ps: seq<string>, runs: seq<nat>): string
    requires |ps| == |runs| + 1
    decreases |runs|
  {
    if runs == [] then ps[0]
    else ps[0] + Newlines(runs[0]) + Reassemble(ps[1..], runs[1..])
  }

  /** The shape every piece list of the split has: no piece holds two
      consecutive newlines, no piece but the last ends with a newline and no
      piece but the first starts with one (the runs removed were maximal). */
  predicate WellSeparated(ps: seq<string>) {
    && (forall k :: 0 <= k < |ps| ==> NoDoubleNewline(ps[k]))
    && (forall k :: 0 <= k < |ps| - 1 ==> !EndsWithNewline(ps[k]))
    && (forall k :: 0 < k < |ps| ==> !StartsWithNewline(ps[k]))
  }

  /** The split removes one run between consecutive pieces, each run of two
      or more newlines. */
  lemma {:induction false} SeparatorRunsShape(s: string)
    ensures |SeparatorRuns(s)| + 1 == |SplitParagraphs(s)|
    ensures forall k :: 0 <= k < |SeparatorRuns(s)| ==> SeparatorRuns(s)[k] >= 2
    decreases |s|
  {
    var i := FirstDoubleNewline(s, 0);
    if i < |s| {
      var j := RunEnd(s, i);
      assert s[i + 1] == '\n';
      SeparatorRunsShape(s[j..]);
    }
  }

  /** The split loses nothing but the runs: reassembling the pieces with the
      removed runs gives back `s`. */
  lemma {:induction false} SplitReassembles(s: string)
    ensures |SeparatorRuns(s)| + 1 == |SplitParagraphs(s)|
    ensures Reassemble(SplitParagraphs(s), SeparatorRuns(s)) == s
    decreases |s|
  {
    SeparatorRunsShape(s);
    var i := FirstDoubleNewline(s, 0);
    if i < |s| {
      var j := RunEnd(s, i);
      assert s[i + 1] == '\n';
      var t := s[j..];
      SplitReassembles(t);
      CutAtRun(s, i, j);
      ReassembleCons(s[..i], SplitParagraphs(t), j - i, SeparatorRuns(t));
    }
  }

  lemma ReassembleCons(p: string, ps: seq<string>, r: nat, runs: seq<nat>)
    requires |ps| == |runs| + 1
    ensures Reassemble([p] + ps, [r] + runs) == p + Newlines(r) + Reassemble(ps, runs)
  {
    assert ([p] + ps)[1..] == ps;
    assert ([r] + runs)[1..] == runs;
  }

  /** Cutting out a run of newlines. */
  lemma CutAtRun(s: string, i: nat, j: nat)
    requires i <= j <= |s|
    requires forall k :: i <= k < j ==> s[k] == '\n'
    ensures s == s[..i] + Newlines(j - i) + s[j..]
  {
    assert s[i..j] == Newlines(j - i);
    assert s == s[..i] + s[i..j] + s[j..];
  }

  /** The split cuts at maximal runs only. */
  lemma {:induction false} SplitWellSeparated(s: string)
    ensures WellSeparated(SplitParagraphs(s))
    decreases |s|
  {
    var i := FirstDoubleNewline(s, 0);
    if i == |s| {
      assert NoDoubleNewline(s);
    } else {
      var j := RunEnd(s, i);
      assert s[i + 1] == '\n';
      var head := s[..i];
      var t := s[j..];
      SplitWellSeparated(t);
      var rest := SplitParagraphs(t);
      assert NoDoubleNewline(head) by {
        forall k | 0 <= k < |head| ensures !DoubleNewlineAt(head, k) {
          assert !DoubleNewlineAt(s, k);
          assert head[k] == s[k] && (k + 1 < |head| ==> head[k + 1] == s[k + 1]);
        }
      }
      assert !EndsWithNewline(head) by {
        if i > 0 {
          assert !DoubleNewlineAt(s, i - 1);
          assert head[i - 1] == s[i - 1];
        }
      }
      assert !StartsWithNewline(rest[0]) by {
        var i' := FirstDoubleNewline(t, 0);
        if i' != |t| { assert rest[0] == t[..i']; }
      }
      var ps := [head] + rest;
      assert ps == SplitParagraphs(s);
      forall k | 0 <= k < |ps| ensures NoDoubleNewline(ps[k]) {
        if k > 0 { assert ps[k] == rest[k - 1]; }
      }
      forall k | 0 <= k < |ps| - 1 ensures !EndsWithNewline(ps[k]) {
        if k > 0 { assert ps[k] == rest[k - 1]; }
      }
      forall k | 0 < k < |ps| ensures !StartsWithNewline(ps[k]) {
        assert ps[k] == rest[k - 1];
      }
    }
  }

  /** Any subsequence obtained by cutting a well-separated list keeps the shape. */
  lemma SliceWellSeparated(ps: seq<string>, a: nat, b: nat)
    requires WellSeparated(ps) && a <= b <= |ps|
    ensures WellSeparated(ps[a..b])
  {
    var q := ps[a..b];
    forall k | 0 <= k < |q| ensures NoDoubleNewline(q[k]) { assert q[k] == ps[a + k]; }
    forall k | 0 <= k < |q| - 1 ensures !EndsWithNewline(q[k]) { assert q[k] == ps[a + k]; }
    forall k | 0 < k < |q| ensures !StartsWithNewline(q[k]) { assert q[k] == ps[a + k]; }
  }

  /** Joining non-empty well-separated paragraphs with `"\n\n"` and splitting
      again gives back the paragraphs. */
  lemma {:induction false} SplitJoin(ps: seq<string>)
    requires |ps| >= 1 && WellSeparated(ps)
    requires forall k :: 0 <= k < |ps| ==> ps[k] != ""
    ensures SplitParagraphs(JoinWith("\n\n", ps)) == ps
    decreases |ps|
  {
    if |ps| == 1 {
      SplitWhole(ps[0]);
    } else {
      var rest := JoinWith("\n\n", ps[1..]);
      SliceWellSeparated(ps, 1, |ps|);
      SplitJoin(ps[1..]);
      JoinStartsWith(ps[1..]);
      SplitAtSeparator(ps[0], rest);
      assert ps == [ps[0]] + ps[1..];
    }
  }

  /** A piece without a double newline is not cut. */
  lemma SplitWhole(p: string)
    requires NoDoubleNewline(p)
    ensures SplitParagraphs(JoinWith("\n\n", [p])) == [p]
  {
    assert JoinWith("\n\n", [p]) == p;
    assert FirstDoubleNewline(p, 0) == |p|;
  }

  /** The first cut of `p + "\n\n" + rest` falls right after `p` when
      neither side brings a newline to the separator. */
  lemma SplitAtSeparator(p: string, rest: string)
    requires NoDoubleNewline(p) && !EndsWithNewline(p)
    requires |rest| > 0 && rest[0] != '\n'
    ensures SplitParagraphs(p + "\n\n" + rest) == [p] + SplitParagraphs(rest)
  {
    var s := p + "\n\n" + rest;
    assert DoubleNewlineAt(s, |p|);
    forall k | 0 <= k < |p| ensures !DoubleNewlineAt(s, k) {
      assert !DoubleNewlineAt(p, k);
      assert s[k] == p[k];
      if k + 1 < |p| { assert s[k + 1] == p[k + 1]; } else { assert p[|p| - 1] != '\n'; }
    }
    var i := FirstDoubleNewline(s, 0);
    assert i == |p|;
    assert s[|p| + 2] == rest[0];
    assert RunEnd(s, |p| + 2) == |p| + 2;
    assert RunEnd(s, i) == |p| + 2;
    assert s[..i] == p;
    assert s[|p| + 2..] == rest;
  }

  /** A join of non-empty pieces begins with the first piece's first character. */
  lemma {:induction false} JoinStartsWith(ps: seq<string>)
    requires |ps| >= 1 && ps[0] != ""
    ensures |JoinWith("\n\n", ps)| > 0 && JoinWith("\n\n", ps)[0] == ps[0][0]
  {
    if |ps| > 1 {
      assert JoinWith("\n\n", ps) == ps[0] + "\n\n" + JoinWith("\n\n", ps[1..]);
    }
  }

  /** Every piece is blank. */
  predicate AllBlank(ps: seq<string>) {
    forall k :: 0 <= k < |ps| ==> IsBlank(ps[k])
  }

  lemma AllBlankCons(p: string, ps: seq<string>)
    ensures AllBlank([p] + ps) <==> IsBlank(p) && AllBlank(ps)
  {
    if IsBlank(p) && AllBlank(ps) {
      forall k | 0 < k < |[p] + ps| ensures IsBlank(([p] + ps)[k]) { assert ([p] + ps)[k] == ps[k - 1]; }
    }
    if AllBlank([p] + ps) {
      assert IsBlank(([p] + ps)[0]);
      forall k | 0 <= k < |ps| ensures IsBlank(ps[k]) { assert ([p] + ps)[k + 1] == ps[k]; }
    }
  }

  /** A text is blank exactly when every piece of its split is: the runs
      removed are newlines, which are whitespace. */
  lemma {:induction false} BlankIffPiecesBlank(s: string)
    ensures IsBlank(s) <==> AllBlank(SplitParagraphs(s))
    decreases |s|
  {
    var i := FirstDoubleNewline(s, 0);
    if i < |s| {
      var j := RunEnd(s, i);
      assert s[i + 1] == '\n';
      var t := s[j..];
      BlankIffPiecesBlank(t);
      assert SplitParagraphs(s) == [s[..i]] + SplitParagraphs(t);
      AllBlankCons(s[..i], SplitParagraphs(t));
      CutAtRun(s, i, j);
      NewlinesBlank(j - i);
      BlankConcat(s[..i], Newlines(j - i));
      BlankConcat(s[..i] + Newlines(j - i), t);
    } else {
      assert SplitParagraphs(s) == [s];
      AllBlankCons(s, []);
    }
  }

  lemma NewlinesBlank(n: nat)
    ensures IsBlank(Newlines(n))
  {
    assert forall k :: 0 <= k < n ==> IsSpace(Newlines(n)[k]);
  }
}
