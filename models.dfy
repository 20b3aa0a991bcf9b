/** The three pretrained pipelines the core calls, as opaque functions, and the
    record shape of the NER pipeline's output. */
module Models {

  datatype Option<T> = None | Some(value: T) {
    /** `d.get(key, default)` for a key that may be absent. */
    function GetOr(default: T): T {
      match this
      case Some(v) => v
      case None => default
    }
  }

  /** One span of the NER pipeline's output (simple aggregation), reduced to
      the two keys the core reads; either may be absent. */
  datatype Span = Span(entityGroup: Option<string>, word: Option<string>)

  /** `NLPModels`: the summarization tokenizer (as the token count of
      `encode(s, add_special_tokens=False)`), the summarization pipeline
      (text, `min_length`, `max_length`, with sampling off) giving its
      `summary_text`, and the NER pipeline. */
  datatype NlpModels = NlpModels(
    tokLen: string -> nat,
    summarize: (string, int, int) -> string,
    ner: string -> seq<Span>)
}
