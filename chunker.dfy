/** `_chunk_text_for_model`: paragraphs that are non-blank after `strip` are
    packed greedily, in order, into chunks under a token budget, and each
    chunk's paragraphs are joined with `"\n\n"`. The tokenizer is the
    function `tokLen`, the length of `tokenizer.encode(p, add_special_tokens=False)`. */
module Chunker {
  import opened Text
  import opened Paragraphs

  /** The paragraphs the chunker keeps, in their order. */
  function NonBlank(ps: seq<string>): seq<string>
    decreases |ps|
  {
    if ps == [] then []
    else
      var rest := NonBlank(ps[1..]);
      if Strip(ps[0]) == "" then rest else [ps[0]] + rest
  }

  /** The sum of the paragraphs' token counts. */
  function TokSum(ps: seq<string>, tokLen: string -> nat): nat
    decreases |ps|
  {
    if ps == [] then 0 else TokSum(ps[..|ps| - 1], tokLen) + tokLen(ps[|ps| - 1])
  }

  /** The groups laid end to end. */
  function Flatten(gs: seq<seq<string>>): seq<string>
    decreases |gs|
  {
    if gs == [] then [] else gs[0] + Flatten(gs[1..])
  }

  /** The chunker's loop over `paras` from a state where the open chunk holds
      `cur` with `curLen` tokens: the paragraph groups it emits, in order. */
  function PackFrom(paras: seq<string>, cur: seq<string>, curLen: nat,
                    tokLen: string -> nat, maxTokens: int): seq<seq<string>>
    decreases |paras|
  {
    if paras == [] then
      if cur == [] then [] else [cur]
    else if Strip(paras[0]) == "" then
      PackFrom(paras[1..], cur, curLen, tokLen, maxTokens)
    else
      var n := tokLen(paras[0]);
      if curLen + n > maxTokens && cur != [] then
        [cur] + PackFrom(paras[1..], [paras[0]], n, tokLen, maxTokens)
      else
        PackFrom(paras[1..], cur + [paras[0]], curLen + n, tokLen, maxTokens)
  }

  /** The paragraph groups of `text`, one per chunk (none when the text has no
      non-blank paragraph). */
  function Groups(text: string, tokLen: string -> nat, maxTokens: int): seq<seq<string>> {
    PackFrom(SplitParagraphs(text), [], 0, tokLen, maxTokens)
  }

  /** Joins each group with the blank-line separator. */
  function JoinEach(gs: seq<seq<string>>): (r: seq<string>)
    ensures |r| == |gs| && forall i :: 0 <= i < |gs| ==> r[i] == JoinWith("\n\n", gs[i])
  {
    seq(|gs|, i requires 0 <= i < |gs| => JoinWith("\n\n", gs[i]))
  }

  /** What `_chunk_text_for_model(text, tokenizer, maxTokens)` returns. */
  function ChunkText(text: string, tokLen: string -> nat, maxTokens: int): (r: seq<string>)
    ensures r != []
  {
    var gs := Groups(text, tokLen, maxTokens);
    if gs == [] then [text] else JoinEach(gs)
  }

  /** A greedy packing of `ps` under the budget, stated without the loop:
      the groups lay out `ps` in order, each group is non-empty and within
      the budget unless it holds a single paragraph, and a group was closed
      only because the next paragraph's tokens would have pushed it over. */
  ghost predicate IsGreedyPacking(gs: seq<seq<string>>, ps: seq<string>,
                                  tokLen: string -> nat, maxTokens: int) {
    && Flatten(gs) == ps
    && WithinBudget(gs, tokLen, maxTokens)
    && ClosedWhenFull(gs, tokLen, maxTokens)
  }

  lemma TokSumSnoc(ps: seq<string>, p: string, tokLen: string -> nat)
    ensures TokSum(ps + [p], tokLen) == TokSum(ps, tokLen) + tokLen(p)
  {
    assert (ps + [p])[..|ps|] == ps;
  }

  lemma {:induction false} TokSumPrefix(ps: seq<string>, k: nat, tokLen: string -> nat)
    requires k <= |ps|
    ensures TokSum(ps[..k], tokLen) <= TokSum(ps, tokLen)
    decreases |ps|
  {
    if k < |ps| {
      TokSumPrefix(ps[..|ps| - 1], k, tokLen);
      assert ps[..|ps| - 1][..k] == ps[..k];
    } else {
      assert ps[..k] == ps;
    }
  }

  lemma FlattenCons(g: seq<string>, gs: seq<seq<string>>)
    ensures Flatten([g] + gs) == g + Flatten(gs)
  {
    assert ([g] + gs)[1..] == gs;
  }

  /** The kept paragraphs are exactly those of `ps` that are non-blank
      after `strip`. */
  lemma {:induction false} NonBlankMembers(ps: seq<string>)
    ensures forall w :: w in NonBlank(ps) <==> w in ps && Strip(w) != ""
    decreases |ps|
  {
    if ps != [] {
      NonBlankMembers(ps[1..]);
      assert ps == [ps[0]] + ps[1..];
      assert forall w :: w in ps <==> w == ps[0] || w in ps[1..];
    }
  }

  /** Coverage and order: the groups of a call lay out the open chunk
      followed by the non-blank paragraphs still to come. */
  lemma {:induction false} PackFromCovers(paras: seq<string>, cur: seq<string>, curLen: nat,
                                          tokLen: string -> nat, maxTokens: int)
    ensures Flatten(PackFrom(paras, cur, curLen, tokLen, maxTokens)) == cur + NonBlank(paras)
    decreases |paras|
  {
    if paras == [] {
      if cur != [] { FlattenCons(cur, []); assert [cur] + [] == [cur]; }
    } else {
      var p := paras[0];
      var n := tokLen(p);
      var tail := NonBlank(paras[1..]);
      if Strip(p) == "" {
        assert PackFrom(paras, cur, curLen, tokLen, maxTokens) == PackFrom(paras[1..], cur, curLen, tokLen, maxTokens);
        assert NonBlank(paras) == tail;
        PackFromCovers(paras[1..], cur, curLen, tokLen, maxTokens);
      } else if curLen + n > maxTokens && cur != [] {
        var rest := PackFrom(paras[1..], [p], n, tokLen, maxTokens);
        assert PackFrom(paras, cur, curLen, tokLen, maxTokens) == [cur] + rest;
        assert NonBlank(paras) == [p] + tail;
        PackFromCovers(paras[1..], [p], n, tokLen, maxTokens);
        FlattenCons(cur, rest);
      } else {
        assert PackFrom(paras, cur, curLen, tokLen, maxTokens) == PackFrom(paras[1..], cur + [p], curLen + n, tokLen, maxTokens);
        assert NonBlank(paras) == [p] + tail;
        PackFromCovers(paras[1..], cur + [p], curLen + n, tokLen, maxTokens);
        SnocAssoc(cur, p, tail);
      }
    }
  }

  lemma SnocAssoc<T>(a: seq<T>, x: T, b: seq<T>)
    ensures (a + [x]) + b == a + ([x] + b)
  {}

  /** Every group is non-empty and, unless it is a single paragraph, within
      the budget. */
  predicate WithinBudget(gs: seq<seq<string>>, tokLen: string -> nat, maxTokens: int) {
    forall i :: 0 <= i < |gs| ==> gs[i] != [] && (|gs[i]| == 1 || TokSum(gs[i], tokLen) <= maxTokens)
  }

  /** Every paragraph of every group is non-blank. */
  predicate GroupsNonBlank(gs: seq<seq<string>>) {
    forall i, k :: 0 <= i < |gs| && 0 <= k < |gs[i]| ==> Strip(gs[i][k]) != ""
  }

  /** Every group but the last was closed because the first paragraph of the
      next would have pushed it over the budget. */
  predicate ClosedWhenFull(gs: seq<seq<string>>, tokLen: string -> nat, maxTokens: int)
    requires forall i :: 0 <= i < |gs| ==> gs[i] != []
  {
    forall i :: 0 <= i < |gs| - 1 ==> TokSum(gs[i], tokLen) + tokLen(gs[i + 1][0]) > maxTokens
  }

  lemma GroupsCons(g: seq<string>, gs: seq<seq<string>>, tokLen: string -> nat, maxTokens: int)
    requires g != [] && (|g| == 1 || TokSum(g, tokLen) <= maxTokens) && WithinBudget(gs, tokLen, maxTokens)
    requires (forall k :: 0 <= k < |g| ==> Strip(g[k]) != "") && GroupsNonBlank(gs)
    ensures WithinBudget([g] + gs, tokLen, maxTokens) && GroupsNonBlank([g] + gs)
  {
    var q := [g] + gs;
    forall i | 0 <= i < |q| ensures q[i] != [] && (|q[i]| == 1 || TokSum(q[i], tokLen) <= maxTokens) {
      if i > 0 { assert q[i] == gs[i - 1]; }
    }
    forall i, k | 0 <= i < |q| && 0 <= k < |q[i]| ensures Strip(q[i][k]) != "" {
      if i > 0 { assert q[i] == gs[i - 1]; }
    }
  }

  lemma ClosedCons(g: seq<string>, gs: seq<seq<string>>, tokLen: string -> nat, maxTokens: int)
    requires g != [] && forall i :: 0 <= i < |gs| ==> gs[i] != []
    requires ClosedWhenFull(gs, tokLen, maxTokens)
    requires gs != [] ==> TokSum(g, tokLen) + tokLen(gs[0][0]) > maxTokens
    ensures forall i :: 0 <= i < |[g] + gs| ==> ([g] + gs)[i] != []
    ensures ClosedWhenFull([g] + gs, tokLen, maxTokens)
  {
    forall i | 0 < i < |[g] + gs| ensures ([g] + gs)[i] == gs[i - 1] { }
  }

  /** The groups of a call are non-empty, and a non-empty open chunk begins
      the first of them. */
  lemma {:induction false} PackFromShape(paras: seq<string>, cur: seq<string>, curLen: nat,
                                         tokLen: string -> nat, maxTokens: int)
    ensures var gs := PackFrom(paras, cur, curLen, tokLen, maxTokens);
      && (forall i :: 0 <= i < |gs| ==> gs[i] != [])
      && (cur != [] ==> gs != [] && gs[0][0] == cur[0])
    decreases |paras|
  {
    if paras == [] {
      assert PackFrom(paras, cur, curLen, tokLen, maxTokens) == if cur == [] then [] else [cur];
    } else {
      var p := paras[0];
      var n := tokLen(p);
      if Strip(p) == "" {
        assert PackFrom(paras, cur, curLen, tokLen, maxTokens) == PackFrom(paras[1..], cur, curLen, tokLen, maxTokens);
        PackFromShape(paras[1..], cur, curLen, tokLen, maxTokens);
      } else if curLen + n > maxTokens && cur != [] {
        var rest := PackFrom(paras[1..], [p], n, tokLen, maxTokens);
        assert PackFrom(paras, cur, curLen, tokLen, maxTokens) == [cur] + rest;
        PackFromShape(paras[1..], [p], n, tokLen, maxTokens);
        NonEmptyCons(cur, rest);
      } else {
        assert PackFrom(paras, cur, curLen, tokLen, maxTokens) == PackFrom(paras[1..], cur + [p], curLen + n, tokLen, maxTokens);
        PackFromShape(paras[1..], cur + [p], curLen + n, tokLen, maxTokens);
        assert cur != [] ==> (cur + [p])[0] == cur[0];
      }
    }
  }

  lemma NonEmptyCons(g: seq<string>, gs: seq<seq<string>>)
    requires g != [] && forall i :: 0 <= i < |gs| ==> gs[i] != []
    ensures forall i :: 0 <= i < |[g] + gs| ==> ([g] + gs)[i] != []
  {
    forall i | 0 < i < |[g] + gs| ensures ([g] + gs)[i] == gs[i - 1] { }
  }

  /** The state of the open chunk between two paragraphs: its token count,
      its budget, and only non-blank paragraphs in it. */
  predicate OpenChunk(cur: seq<string>, curLen: nat, tokLen: string -> nat, maxTokens: int) {
    && curLen == TokSum(cur, tokLen)
    && (|cur| <= 1 || TokSum(cur, tokLen) <= maxTokens)
    && (forall k :: 0 <= k < |cur| ==> Strip(cur[k]) != "")
  }

  lemma OpenChunkSingle(p: string, tokLen: string -> nat, maxTokens: int)
    requires Strip(p) != ""
    ensures OpenChunk([p], tokLen(p), tokLen, maxTokens)
  {
    TokSumSnoc([], p, tokLen);
    assert [] + [p] == [p];
  }

  lemma OpenChunkSnoc(cur: seq<string>, curLen: nat, p: string, tokLen: string -> nat, maxTokens: int)
    requires OpenChunk(cur, curLen, tokLen, maxTokens) && Strip(p) != ""
    requires !(curLen + tokLen(p) > maxTokens && cur != [])
    ensures OpenChunk(cur + [p], curLen + tokLen(p), tokLen, maxTokens)
  {
    var q := cur + [p];
    TokSumSnoc(cur, p, tokLen);
    if cur == [] {
      assert |q| == 1;
    } else {
      assert TokSum(q, tokLen) <= maxTokens;
    }
    forall k | 0 <= k < |q| ensures Strip(q[k]) != "" {
      if k < |cur| { assert q[k] == cur[k]; } else { assert q[k] == p; }
    }
  }

  /** Every group of a call holds only non-blank paragraphs and, unless it is
      a single paragraph, stays within the budget. */
  lemma {:induction false} PackFromGroups(paras: seq<string>, cur: seq<string>, curLen: nat,
                                          tokLen: string -> nat, maxTokens: int)
    requires OpenChunk(cur, curLen, tokLen, maxTokens)
    ensures var gs := PackFrom(paras, cur, curLen, tokLen, maxTokens);
      WithinBudget(gs, tokLen, maxTokens) && GroupsNonBlank(gs)
    decreases |paras|
  {
    if paras == [] {
      if cur != [] { GroupsCons(cur, [], tokLen, maxTokens); assert [cur] + [] == [cur]; }
    } else {
      var p := paras[0];
      var n := tokLen(p);
      if Strip(p) == "" {
        assert PackFrom(paras, cur, curLen, tokLen, maxTokens) == PackFrom(paras[1..], cur, curLen, tokLen, maxTokens);
        PackFromGroups(paras[1..], cur, curLen, tokLen, maxTokens);
      } else if curLen + n > maxTokens && cur != [] {
        var rest := PackFrom(paras[1..], [p], n, tokLen, maxTokens);
        assert PackFrom(paras, cur, curLen, tokLen, maxTokens) == [cur] + rest;
        OpenChunkSingle(p, tokLen, maxTokens);
        PackFromGroups(paras[1..], [p], n, tokLen, maxTokens);
        GroupsCons(cur, rest, tokLen, maxTokens);
      } else {
        assert PackFrom(paras, cur, curLen, tokLen, maxTokens) == PackFrom(paras[1..], cur + [p], curLen + n, tokLen, maxTokens);
        OpenChunkSnoc(cur, curLen, p, tokLen, maxTokens);
        PackFromGroups(paras[1..], cur + [p], curLen + n, tokLen, maxTokens);
      }
    }
  }

  /** The closing rule: a group was closed only because the first paragraph
      of the next one would have pushed its token sum over the budget. */
  lemma {:induction false} PackFromGreedy(paras: seq<string>, cur: seq<string>, curLen: nat,
                                          tokLen: string -> nat, maxTokens: int)
    requires curLen == TokSum(cur, tokLen)
    ensures var gs := PackFrom(paras, cur, curLen, tokLen, maxTokens);
      (forall i :: 0 <= i < |gs| ==> gs[i] != []) && ClosedWhenFull(gs, tokLen, maxTokens)
    decreases |paras|
  {
    PackFromShape(paras, cur, curLen, tokLen, maxTokens);
    if paras == [] {
      if cur != [] { ClosedCons(cur, [], tokLen, maxTokens); assert [cur] + [] == [cur]; }
    } else {
      var p := paras[0];
      var n := tokLen(p);
      if Strip(p) == "" {
        assert PackFrom(paras, cur, curLen, tokLen, maxTokens) == PackFrom(paras[1..], cur, curLen, tokLen, maxTokens);
        PackFromGreedy(paras[1..], cur, curLen, tokLen, maxTokens);
      } else if curLen + n > maxTokens && cur != [] {
        var rest := PackFrom(paras[1..], [p], n, tokLen, maxTokens);
        assert PackFrom(paras, cur, curLen, tokLen, maxTokens) == [cur] + rest;
        assert TokSum([p], tokLen) == n by { TokSumSnoc([], p, tokLen); assert [] + [p] == [p]; }
        PackFromGreedy(paras[1..], [p], n, tokLen, maxTokens);
        PackFromShape(paras[1..], [p], n, tokLen, maxTokens);
        ClosedCons(cur, rest, tokLen, maxTokens);
      } else {
        assert PackFrom(paras, cur, curLen, tokLen, maxTokens) == PackFrom(paras[1..], cur + [p], curLen + n, tokLen, maxTokens);
        TokSumSnoc(cur, p, tokLen);
        PackFromGreedy(paras[1..], cur + [p], curLen + n, tokLen, maxTokens);
      }
    }
  }

  /** Every group has the split's shape. */
  predicate EachWellSeparated(gs: seq<seq<string>>) {
    forall i :: 0 <= i < |gs| ==> WellSeparated(gs[i])
  }

  /** The groups of a call inherit the split's shape from the paragraphs
      they are cut from. */
  lemma {:induction false} PackFromSeparated(paras: seq<string>, cur: seq<string>, curLen: nat,
                                             tokLen: string -> nat, maxTokens: int)
    requires WellSeparated(cur + NonBlank(paras))
    ensures EachWellSeparated(PackFrom(paras, cur, curLen, tokLen, maxTokens))
    decreases |paras|
  {
    if paras == [] {
      assert cur + NonBlank(paras) == cur;
      if cur != [] { SeparatedCons(cur, []); assert [cur] + [] == [cur]; }
    } else {
      var p := paras[0];
      var n := tokLen(p);
      var tail := NonBlank(paras[1..]);
      if Strip(p) == "" {
        assert PackFrom(paras, cur, curLen, tokLen, maxTokens) == PackFrom(paras[1..], cur, curLen, tokLen, maxTokens);
        assert NonBlank(paras) == tail;
        PackFromSeparated(paras[1..], cur, curLen, tokLen, maxTokens);
      } else if curLen + n > maxTokens && cur != [] {
        var rest := PackFrom(paras[1..], [p], n, tokLen, maxTokens);
        assert PackFrom(paras, cur, curLen, tokLen, maxTokens) == [cur] + rest;
        assert NonBlank(paras) == [p] + tail;
        SeparatedSplit(cur, [p] + tail);
        PackFromSeparated(paras[1..], [p], n, tokLen, maxTokens);
        SeparatedCons(cur, rest);
      } else {
        assert PackFrom(paras, cur, curLen, tokLen, maxTokens) == PackFrom(paras[1..], cur + [p], curLen + n, tokLen, maxTokens);
        assert NonBlank(paras) == [p] + tail;
        SnocAssoc(cur, p, tail);
        PackFromSeparated(paras[1..], cur + [p], curLen + n, tokLen, maxTokens);
      }
    }
  }

  /** Both halves of a well-separated list are well separated. */
  lemma SeparatedSplit(a: seq<string>, b: seq<string>)
    requires WellSeparated(a + b)
    ensures WellSeparated(a) && WellSeparated(b)
  {
    SliceWellSeparated(a + b, 0, |a|);
    SliceWellSeparated(a + b, |a|, |a + b|);
    assert (a + b)[0..|a|] == a;
    assert (a + b)[|a|..|a + b|] == b;
  }

  lemma SeparatedCons(g: seq<string>, gs: seq<seq<string>>)
    requires WellSeparated(g) && EachWellSeparated(gs)
    ensures EachWellSeparated([g] + gs)
  {
    forall i | 0 < i < |[g] + gs| ensures ([g] + gs)[i] == gs[i - 1] { }
  }

  /** Filtering keeps the split's shape. */
  lemma {:induction false} NonBlankSeparated(ps: seq<string>)
    requires WellSeparated(ps)
    ensures WellSeparated(NonBlank(ps))
    decreases |ps|
  {
    if ps != [] {
      SliceWellSeparated(ps, 1, |ps|);
      NonBlankSeparated(ps[1..]);
      var rest := NonBlank(ps[1..]);
      if Strip(ps[0]) != "" {
        var q := [ps[0]] + rest;
        assert forall k :: 0 <= k < |rest| ==> !StartsWithNewline(rest[k]) by {
          NonBlankMembers(ps[1..]);
          forall k | 0 <= k < |rest| ensures !StartsWithNewline(rest[k]) {
            assert rest[k] in ps[1..];
            var j :| 0 <= j < |ps[1..]| && ps[1..][j] == rest[k];
            assert ps[j + 1] == rest[k];
          }
        }
        forall k | 0 <= k < |q| ensures NoDoubleNewline(q[k]) {
          if k > 0 { assert q[k] == rest[k - 1]; }
        }
        forall k | 0 <= k < |q| - 1 ensures !EndsWithNewline(q[k]) {
          if k > 0 { assert q[k] == rest[k - 1]; }
        }
        forall k | 0 < k < |q| ensures !StartsWithNewline(q[k]) {
          assert q[k] == rest[k - 1];
        }
      }
    }
  }

  /** Coverage, order, budget and closing rule: the groups of `text` are a
      greedy packing of its non-blank paragraphs, each under the budget
      unless it holds a single paragraph. */
  lemma GroupsArePacking(text: string, tokLen: string -> nat, maxTokens: int)
    ensures IsGreedyPacking(Groups(text, tokLen, maxTokens), NonBlank(SplitParagraphs(text)),
                            tokLen, maxTokens)
  {
    PackFromCovers(SplitParagraphs(text), [], 0, tokLen, maxTokens);
    PackFromGroups(SplitParagraphs(text), [], 0, tokLen, maxTokens);
    PackFromGreedy(SplitParagraphs(text), [], 0, tokLen, maxTokens);
    assert [] + NonBlank(SplitParagraphs(text)) == NonBlank(SplitParagraphs(text));
  }

  lemma {:induction false} FlattenEmpty(gs: seq<seq<string>>)
    requires forall i :: 0 <= i < |gs| ==> gs[i] != []
    ensures Flatten(gs) == [] <==> gs == []
  {
    if gs != [] { assert |Flatten(gs)| >= |gs[0]| > 0; }
  }

  lemma {:induction false} NonBlankEmpty(ps: seq<string>)
    ensures NonBlank(ps) == [] <==> AllBlank(ps)
    decreases |ps|
  {
    if ps != [] {
      NonBlankEmpty(ps[1..]);
      AllBlankCons(ps[0], ps[1..]);
      assert [ps[0]] + ps[1..] == ps;
      StripEmptyIffBlank(ps[0]);
    }
  }

  /** There is always at least one chunk; the text comes back as the single
      chunk exactly when it is blank, and otherwise the chunks are the joined
      groups. */
  lemma ChunkTextShape(text: string, tokLen: string -> nat, maxTokens: int)
    ensures ChunkText(text, tokLen, maxTokens) != []
    ensures Groups(text, tokLen, maxTokens) == [] <==> IsBlank(text)
    ensures IsBlank(text) ==> ChunkText(text, tokLen, maxTokens) == [text]
    ensures !IsBlank(text) ==> ChunkText(text, tokLen, maxTokens) == JoinEach(Groups(text, tokLen, maxTokens))
  {
    var gs := Groups(text, tokLen, maxTokens);
    GroupsArePacking(text, tokLen, maxTokens);
    FlattenEmpty(gs);
    NonBlankEmpty(SplitParagraphs(text));
    BlankIffPiecesBlank(text);
  }

  /** Splitting a chunk again on runs of blank lines gives back exactly the
      paragraphs the chunker put into it. */
  lemma ChunkSplitsBack(text: string, tokLen: string -> nat, maxTokens: int, i: nat)
    requires !IsBlank(text)
    requires i < |Groups(text, tokLen, maxTokens)|
    ensures SplitParagraphs(ChunkText(text, tokLen, maxTokens)[i]) == Groups(text, tokLen, maxTokens)[i]
  {
    var gs := Groups(text, tokLen, maxTokens);
    var ps := SplitParagraphs(text);
    ChunkTextShape(text, tokLen, maxTokens);
    SplitWellSeparated(text);
    NonBlankSeparated(ps);
    assert [] + NonBlank(ps) == NonBlank(ps);
    PackFromSeparated(ps, [], 0, tokLen, maxTokens);
    assert WellSeparated(gs[i]);
    PackFromGroups(ps, [], 0, tokLen, maxTokens);
    assert gs == PackFrom(ps, [], 0, tokLen, maxTokens);
    assert Strip("") == "";
    forall k | 0 <= k < |gs[i]| ensures gs[i][k] != "" {
      assert Strip(gs[i][k]) != "";
    }
    SplitJoin(gs[i]);
  }

  lemma {:induction false} GreedyPackingTail(gs: seq<seq<string>>, ps: seq<string>,
                                             tokLen: string -> nat, maxTokens: int)
    requires gs != [] && IsGreedyPacking(gs, ps, tokLen, maxTokens)
    ensures |gs[0]| <= |ps| && ps[..|gs[0]|] == gs[0]
    ensures IsGreedyPacking(gs[1..], ps[|gs[0]|..], tokLen, maxTokens)
  {
    var t := gs[1..];
    assert ps == gs[0] + Flatten(t);
    forall i | 0 <= i < |t| ensures t[i] != [] && (|t[i]| == 1 || TokSum(t[i], tokLen) <= maxTokens) {
      assert t[i] == gs[i + 1];
    }
    forall i | 0 <= i < |t| - 1 ensures TokSum(t[i], tokLen) + tokLen(t[i + 1][0]) > maxTokens {
      assert t[i] == gs[i + 1] && t[i + 1] == gs[i + 2];
    }
  }

  /** A group of a greedy packing cannot run past where another greedy
      packing of the same paragraphs closed its first group. */
  lemma FirstGroupNotLonger(g1: seq<seq<string>>, g2: seq<seq<string>>, ps: seq<string>,
                            tokLen: string -> nat, maxTokens: int)
    requires g1 != [] && g2 != []
    requires IsGreedyPacking(g1, ps, tokLen, maxTokens) && IsGreedyPacking(g2, ps, tokLen, maxTokens)
    ensures |g2[0]| <= |g1[0]|
  {
    GreedyPackingTail(g1, ps, tokLen, maxTokens);
    GreedyPackingTail(g2, ps, tokLen, maxTokens);
    var a, b := g1[0], g2[0];
    var k := |a|;
    if k < |b| {
      var rest := g1[1..];
      FlattenEmpty(rest);
      assert Flatten(rest) == ps[k..];
      assert rest != [];
      assert g1[1][0] == ps[k];
      assert TokSum(a, tokLen) + tokLen(ps[k]) > maxTokens;
      assert b[..k + 1] == a + [ps[k]];
      TokSumSnoc(a, ps[k], tokLen);
      TokSumPrefix(b, k + 1, tokLen);
      assert false;
    }
  }

  /** The declarative description pins the packing down: two greedy packings
      of the same paragraphs are the same, so `Groups` is the only one. */
  lemma {:induction false} GreedyPackingUnique(g1: seq<seq<string>>, g2: seq<seq<string>>, ps: seq<string>,
                                               tokLen: string -> nat, maxTokens: int)
    requires IsGreedyPacking(g1, ps, tokLen, maxTokens) && IsGreedyPacking(g2, ps, tokLen, maxTokens)
    ensures g1 == g2
    decreases |ps|
  {
    FlattenEmpty(g1);
    FlattenEmpty(g2);
    if ps != [] {
      FirstGroupNotLonger(g1, g2, ps, tokLen, maxTokens);
      FirstGroupNotLonger(g2, g1, ps, tokLen, maxTokens);
      GreedyPackingTail(g1, ps, tokLen, maxTokens);
      GreedyPackingTail(g2, ps, tokLen, maxTokens);
      GreedyPackingUnique(g1[1..], g2[1..], ps[|g1[0]|..], tokLen, maxTokens);
      assert g1 == [g1[0]] + g1[1..] && g2 == [g2[0]] + g2[1..];
    }
  }

  lemma JoinEachSnoc(gs: seq<seq<string>>, g: seq<string>)
    ensures JoinEach(gs + [g]) == JoinEach(gs) + [JoinWith("\n\n", g)]
  {
    assert forall i :: 0 <= i < |gs| ==> (gs + [g])[i] == gs[i];
  }

  /** One turn of the loop at paragraph `i`. */
  lemma PackFromStep(paras: seq<string>, i: nat, cur: seq<string>, curLen: nat,
                     tokLen: string -> nat, maxTokens: int)
    requires i < |paras|
    ensures PackFrom(paras[i..], cur, curLen, tokLen, maxTokens) ==
      if Strip(paras[i]) == "" then PackFrom(paras[i + 1..], cur, curLen, tokLen, maxTokens)
      else if curLen + tokLen(paras[i]) > maxTokens && cur != [] then
        [cur] + PackFrom(paras[i + 1..], [paras[i]], tokLen(paras[i]), tokLen, maxTokens)
      else PackFrom(paras[i + 1..], cur + [paras[i]], curLen + tokLen(paras[i]), tokLen, maxTokens)
  {
    assert paras[i..][0] == paras[i];
    assert paras[i..][1..] == paras[i + 1..];
  }

  /** One turn of the loop at paragraph `i` keeps the groups emitted so far
      followed by the groups still to come equal to `gs`, in each branch. */
  lemma LoopStep(paras: seq<string>, i: nat, done: seq<seq<string>>, cur: seq<string>, curLen: nat,
                 tokLen: string -> nat, maxTokens: int, gs: seq<seq<string>>)
    requires i < |paras|
    requires done + PackFrom(paras[i..], cur, curLen, tokLen, maxTokens) == gs
    ensures var p, n := paras[i], tokLen(paras[i]);
      && (Strip(p) == "" ==> done + PackFrom(paras[i + 1..], cur, curLen, tokLen, maxTokens) == gs)
      && (Strip(p) != "" && curLen + n > maxTokens && cur != [] ==>
            (done + [cur]) + PackFrom(paras[i + 1..], [p], n, tokLen, maxTokens) == gs)
      && (Strip(p) != "" && !(curLen + n > maxTokens && cur != []) ==>
            done + PackFrom(paras[i + 1..], cur + [p], curLen + n, tokLen, maxTokens) == gs)
  {
    PackFromStep(paras, i, cur, curLen, tokLen, maxTokens);
    var rest := PackFrom(paras[i + 1..], [paras[i]], tokLen(paras[i]), tokLen, maxTokens);
    assert done + ([cur] + rest) == (done + [cur]) + rest;
  }

  /** After the last paragraph: flushing the open chunk completes the
      groups of `text`, and the chunk list is empty only when they are. */
  lemma FinalFlush(text: string, tokLen: string -> nat, maxTokens: int,
                   done: seq<seq<string>>, cur: seq<string>, curLen: nat)
    requires done + PackFrom([], cur, curLen, tokLen, maxTokens) == Groups(text, tokLen, maxTokens)
    ensures var c := if cur != [] then JoinEach(done) + [JoinWith("\n\n", cur)] else JoinEach(done);
      ChunkText(text, tokLen, maxTokens) == if c == [] then [text] else c
  {
    if cur != [] {
      JoinEachSnoc(done, cur);
    } else {
      assert done + [] == done;
    }
  }

  /** The chunker's loop, as the source runs it: `chunks`, `cur` and
      `cur_len` are updated paragraph by paragraph. */
  method ChunkTextForModel(text: string, tokLen: string -> nat, maxTokens: int)
    returns (chunks: seq<string>)
    ensures chunks == ChunkText(text, tokLen, maxTokens)
  {
    var paras := SplitParagraphs(text);
    chunks := [];
    var cur: seq<string> := [];
    var curLen: nat := 0;
    ghost var done: seq<seq<string>> := [];
    ghost var gs := PackFrom(paras, [], 0, tokLen, maxTokens);
    assert paras[0..] == paras;
    for i := 0 to |paras|
      invariant chunks == JoinEach(done)
      invariant done + PackFrom(paras[i..], cur, curLen, tokLen, maxTokens) == gs
    {
      var p := paras[i];
      LoopStep(paras, i, done, cur, curLen, tokLen, maxTokens, gs);
      if Strip(p) != "" {
        var tokens := tokLen(p);
        if curLen + tokens > maxTokens && cur != [] {
          JoinEachSnoc(done, cur);
          chunks := chunks + [JoinWith("\n\n", cur)];
          done := done + [cur];
          cur := [p];
          curLen := tokens;
        } else {
          cur := cur + [p];
          curLen := curLen + tokens;
        }
      }
    }
    assert paras[|paras|..] == [];
    FinalFlush(text, tokLen, maxTokens, done, cur, curLen);
    if cur != [] {
      chunks := chunks + [JoinWith("\n\n", cur)];
    }
    if chunks == [] {
      chunks := [text];
    }
  }
}
