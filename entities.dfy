/** `extract_entities`: the NER pipeline's spans grouped into the four labels
    PER, ORG, LOC and MISC, each a sorted list without duplicates. */
module Entities {
  import opened Text
  import opened Models

  /** The keys of the result, and the only groups kept as they are. */
  const Labels: set<string> := {"PER", "ORG", "LOC", "MISC"}

  /** `e.get("entity_group", "MISC")`. */
  function SpanGroup(e: Span): string {
    e.entityGroup.GetOr("MISC")
  }

  /** `e.get("word", "").strip()`. */
  function SpanWord(e: Span): string {
    Strip(e.word.GetOr(""))
  }

  /** Label `k` receives the span: its own group when that is one of the four
      labels, MISC for any other group. */
  predicate InBucket(e: Span, k: string) {
    k in Labels && (SpanGroup(e) == k || (k == "MISC" && SpanGroup(e) !in Labels))
  }

  /** `w` is the non-empty stripped word of some span that label `k` receives. */
  ghost predicate Recognised(spans: seq<Span>, k: string, w: string) {
    exists i :: 0 <= i < |spans| && SpanWord(spans[i]) == w && w != "" && InBucket(spans[i], k)
  }

  /** The one label that receives span `e`: its group when that is one of
      the four labels, MISC otherwise. */
  function BucketOf(e: Span): (k: string)
    ensures forall l :: InBucket(e, l) <==> l == k
  {
    if SpanGroup(e) in Labels then SpanGroup(e) else "MISC"
  }

  lemma RecognisedSnoc(spans: seq<Span>, e: Span, k: string, w: string)
    ensures Recognised(spans + [e], k, w)
      <==> Recognised(spans, k, w) || (SpanWord(e) == w && w != "" && InBucket(e, k))
  {
    var s := spans + [e];
    if Recognised(s, k, w) {
      var i :| 0 <= i < |s| && SpanWord(s[i]) == w && w != "" && InBucket(s[i], k);
      if i < |spans| { assert s[i] == spans[i]; }
    }
    if Recognised(spans, k, w) {
      var i :| 0 <= i < |spans| && SpanWord(spans[i]) == w && w != "" && InBucket(spans[i], k);
      assert s[i] == spans[i];
    }
    if SpanWord(e) == w && w != "" && InBucket(e, k) {
      assert s[|spans|] == e;
    }
  }

  /** `sorted(v)` of a set of strings: its elements in increasing order. */
  method SortedList(v: set<string>) returns (r: seq<string>)
    ensures StrictlySorted(r)
    ensures forall w :: w in r <==> w in v
  {
    r := [];
    var rest := v;
    while rest != {}
      invariant rest <= v
      invariant StrictlySorted(r)
      invariant forall w :: w in r <==> w in v && w !in rest
      decreases |rest|
    {
      var w :| w in rest;
      r := Insert(r, w);
      rest := rest - {w};
    }
  }

  /** The map `grouped` holds exactly the words recognised so far. */
  ghost predicate GroupedUpTo(grouped: map<string, set<string>>, spans: seq<Span>) {
    && grouped.Keys == Labels
    && forall k, w :: k in grouped ==> (w in grouped[k] <==> Recognised(spans, k, w))
  }

  /** One turn of the loop keeps `grouped` in step with the spans seen. */
  lemma GroupedAdd(grouped: map<string, set<string>>, spans: seq<Span>, e: Span)
    requires GroupedUpTo(grouped, spans)
    ensures var g, w := SpanGroup(e), SpanWord(e);
      && (w == "" ==> GroupedUpTo(grouped, spans + [e]))
      && (w != "" && g in grouped ==> GroupedUpTo(grouped[g := grouped[g] + {w}], spans + [e]))
      && (w != "" && g !in grouped ==> GroupedUpTo(grouped["MISC" := grouped["MISC"] + {w}], spans + [e]))
  {
    forall k, v ensures Recognised(spans + [e], k, v)
      <==> Recognised(spans, k, v) || (SpanWord(e) == v && v != "" && InBucket(e, k))
    {
      RecognisedSnoc(spans, e, k, v);
    }
  }

  /** `extract_entities(text, models)`; `nerInputs` lists the texts handed to
      the NER pipeline. */
  method ExtractEntities(text: string, models: NlpModels)
    returns (entities: map<string, seq<string>>, nerInputs: seq<string>)
    ensures entities.Keys == Labels
    ensures forall k :: k in entities ==> StrictlySorted(entities[k])
    ensures IsBlank(text) ==> nerInputs == [] && forall k :: k in entities ==> entities[k] == []
    ensures !IsBlank(text) ==> nerInputs == [Strip(text)]
    ensures !IsBlank(text) ==> forall k, w :: k in entities ==>
      (w in entities[k] <==> Recognised(models.ner(Strip(text)), k, w))
  {
    var t := Strip(text);
    StripEmptyIffBlank(text);
    if t == "" {
      entities := map["PER" := [], "ORG" := [], "LOC" := [], "MISC" := []];
      nerInputs := [];
      return;
    }
    var ents := models.ner(t);
    nerInputs := [t];
    var grouped: map<string, set<string>> := map["PER" := {}, "ORG" := {}, "LOC" := {}, "MISC" := {}];
    for i := 0 to |ents|
      invariant GroupedUpTo(grouped, ents[..i])
    {
      var e := ents[i];
      var grp := e.entityGroup.GetOr("MISC");
      var word := Strip(e.word.GetOr(""));
      assert ents[..i + 1] == ents[..i] + [e];
      GroupedAdd(grouped, ents[..i], e);
      if word != "" {
        if grp in grouped {
          grouped := grouped[grp := grouped[grp] + {word}];
        } else {
          grouped := grouped["MISC" := grouped["MISC"] + {word}];
        }
      }
    }
    assert ents[..|ents|] == ents;
    entities := SortGroups(grouped);
  }

  /** `{k: sorted(v) for k, v in grouped.items()}` over the four labels. */
  method SortGroups(grouped: map<string, set<string>>) returns (entities: map<string, seq<string>>)
    requires grouped.Keys == Labels
    ensures entities.Keys == Labels
    ensures forall k :: k in entities ==> StrictlySorted(entities[k])
    ensures forall k, w :: k in entities ==> (w in entities[k] <==> w in grouped[k])
  {
    var per := SortedList(grouped["PER"]);
    var org := SortedList(grouped["ORG"]);
    var loc := SortedList(grouped["LOC"]);
    var misc := SortedList(grouped["MISC"]);
    entities := map["PER" := per, "ORG" := org, "LOC" := loc, "MISC" := misc];
  }
}
