/** `summarize_long_text`: a direct summary when the stripped text fits the
    chunk budget; otherwise one summary per chunk, joined with spaces, and at
    most one more pass over the joined partial summaries. */
module Summarizer {
  import opened Text
  import opened Chunker
  import opened Models

  /** The summary returned and, in order, every text handed to the
      summarization pipeline on the way. */
  datatype SummaryRun = SummaryRun(summary: string, calls: seq<string>)

  /** The partial summaries, one per chunk, in chunk order. */
  function Partials(chunks: seq<string>, models: NlpModels, minLen: int, maxLen: int): (r: seq<string>)
    ensures |r| == |chunks|
    ensures forall i :: 0 <= i < |chunks| ==> r[i] == models.summarize(chunks[i], minLen, maxLen)
  {
    seq(|chunks|, i requires 0 <= i < |chunks| => models.summarize(chunks[i], minLen, maxLen))
  }

  /** The chunks of the stripped text on the chunked path. */
  function SummaryChunks(text: string, models: NlpModels, chunkTokens: int): seq<string> {
    ChunkText(Strip(text), models.tokLen, chunkTokens)
  }

  /** `" ".join(partials).strip()` on the chunked path. */
  function Combined(text: string, models: NlpModels, minLen: int, maxLen: int, chunkTokens: int): string {
    Strip(JoinWith(" ", Partials(SummaryChunks(text, models, chunkTokens), models, minLen, maxLen)))
  }

  /** `summarize_long_text(text, models, minLen, maxLen, chunkTokens)`. The
      summarizer is called exactly when the stripped text is non-empty, an
      empty stripped text gives `""`, and there is at most one call per chunk
      plus one. */
  function SummarizeLongText(text: string, models: NlpModels, minLen: int, maxLen: int,
                             chunkTokens: int): (run: SummaryRun)
    ensures run.calls == [] <==> Strip(text) == ""
    ensures Strip(text) == "" ==> run.summary == ""
    ensures |run.calls| <= |SummaryChunks(text, models, chunkTokens)| + 1
  {
    var t := Strip(text);
    if t == "" then SummaryRun("", [])
    else if models.tokLen(t) <= chunkTokens then
      SummaryRun(models.summarize(t, minLen, maxLen), [t])
    else
      var chunks := SummaryChunks(text, models, chunkTokens);
      var combined := Combined(text, models, minLen, maxLen, chunkTokens);
      if combined == "" then SummaryRun("", chunks)
      else if models.tokLen(combined) > chunkTokens then
        SummaryRun(models.summarize(combined, minLen, maxLen), chunks + [combined])
      else SummaryRun(combined, chunks)
  }

  lemma StrippedNotBlank(text: string)
    ensures Strip(text) != "" <==> !IsBlank(text)
    ensures Strip(text) != "" ==> !IsBlank(Strip(text))
  {
    StripEmptyIffBlank(text);
    StripSpec(text);
  }

  /** The model is called at all exactly when the text is not blank; a blank
      text gives the empty summary. */
  lemma SummarizeCallsIffNotBlank(text: string, models: NlpModels, minLen: int, maxLen: int,
                                  chunkTokens: int)
    ensures var run := SummarizeLongText(text, models, minLen, maxLen, chunkTokens);
      (run.calls == [] <==> IsBlank(text)) && (IsBlank(text) ==> run.summary == "")
  {
    StrippedNotBlank(text);
    ChunkTextShape(Strip(text), models.tokLen, chunkTokens);
  }

  /** Direct path: a non-blank text whose stripped form fits the budget is
      summarized in exactly one call, and that call's output is returned. */
  lemma SummarizeDirect(text: string, models: NlpModels, minLen: int, maxLen: int, chunkTokens: int)
    requires !IsBlank(text) && models.tokLen(Strip(text)) <= chunkTokens
    ensures var run := SummarizeLongText(text, models, minLen, maxLen, chunkTokens);
      run.calls == [Strip(text)] && run.summary == models.summarize(Strip(text), minLen, maxLen)
  {
    StrippedNotBlank(text);
  }

  /** Chunked path: the first calls are the chunks, in order, and they are the
      joined groups of a greedy packing of the stripped text's non-blank
      paragraphs; exactly one more call follows, on the joined partial
      summaries, precisely when those are non-empty and over the budget. */
  lemma SummarizeChunked(text: string, models: NlpModels, minLen: int, maxLen: int, chunkTokens: int)
    requires !IsBlank(text) && models.tokLen(Strip(text)) > chunkTokens
    ensures var run := SummarizeLongText(text, models, minLen, maxLen, chunkTokens);
      var chunks := SummaryChunks(text, models, chunkTokens);
      var combined := Combined(text, models, minLen, maxLen, chunkTokens);
      var extra := combined != "" && models.tokLen(combined) > chunkTokens;
      && chunks == JoinEach(Groups(Strip(text), models.tokLen, chunkTokens))
      && IsGreedyPacking(Groups(Strip(text), models.tokLen, chunkTokens),
                         NonBlank(Paragraphs.SplitParagraphs(Strip(text))), models.tokLen, chunkTokens)
      && |run.calls| == |chunks| + (if extra then 1 else 0)
      && run.calls[..|chunks|] == chunks
      && (extra ==> run.calls[|chunks|] == combined && run.summary == models.summarize(combined, minLen, maxLen))
      && (!extra ==> run.summary == combined)
  {
    StrippedNotBlank(text);
    ChunkTextShape(Strip(text), models.tokLen, chunkTokens);
    GroupsArePacking(Strip(text), models.tokLen, chunkTokens);
    var run := SummarizeLongText(text, models, minLen, maxLen, chunkTokens);
    var chunks := SummaryChunks(text, models, chunkTokens);
    assert (chunks + [Combined(text, models, minLen, maxLen, chunkTokens)])[..|chunks|] == chunks;
  }

  /** The two-pass ceiling: at most one call per chunk plus one, and what is
      returned is the empty string, the output of the last call, or joined
      partial summaries within the budget. */
  lemma SummarizeBounded(text: string, models: NlpModels, minLen: int, maxLen: int, chunkTokens: int)
    ensures var run := SummarizeLongText(text, models, minLen, maxLen, chunkTokens);
      && |run.calls| <= |SummaryChunks(text, models, chunkTokens)| + 1
      && (|| run.summary == ""
          || (run.calls != [] && run.summary == models.summarize(run.calls[|run.calls| - 1], minLen, maxLen))
          || models.tokLen(run.summary) <= chunkTokens)
  {
    ChunkTextShape(Strip(text), models.tokLen, chunkTokens);
  }

  /** On the chunked path the joined partial summaries are built from exactly
      the texts logged as the first calls, one summary per logged chunk. */
  lemma CombinedFromCalls(text: string, models: NlpModels, minLen: int, maxLen: int, chunkTokens: int)
    requires !IsBlank(text) && models.tokLen(Strip(text)) > chunkTokens
    ensures var run := SummarizeLongText(text, models, minLen, maxLen, chunkTokens);
      var n := |SummaryChunks(text, models, chunkTokens)|;
      && n <= |run.calls|
      && Combined(text, models, minLen, maxLen, chunkTokens)
         == Strip(JoinWith(" ", Partials(run.calls[..n], models, minLen, maxLen)))
  {
    SummarizeChunked(text, models, minLen, maxLen, chunkTokens);
  }
}
