# Legal Document Analyzer core, modelled in Dafny

This project models the text-processing core of the Legal Document Analyzer (`legal_nlp.py`):

- the page loop that turns a PDF into one string per document, with OCR as a fallback for pages that have no embedded text;
- the paragraph chunker that packs paragraphs into chunks under a token budget;
- the two-pass hierarchical summarizer;
- the grouping of named-entity spans into the four labels PER, ORG, LOC and MISC.

The machine-learning models and the OCR engine are function-typed parameters:

- the tokenizer is `tokLen`, the token count of `tokenizer.encode(s, add_special_tokens=False)`;
- the summarizer is `summarize(text, min_len, max_len)`, its `summary_text`;
- the NER pipeline returns a sequence of `Span` records;
- OCR is `ocr(page index, dpi)`.

Python's string primitives are modelled at the character level:

- `str.isspace`, `strip` and `join`;
- `re.split(r"\n{2,}", …)`;
- the code-point order `sorted` uses.

Files and modules:

- `text.dfy` (`Text`): whitespace, `strip`, `join`, and the string order with its order laws.
- `paragraphs.dfy` (`Paragraphs`): the regex split, how its pieces reassemble and the join/split round trip.
- `chunker.dfy` (`Chunker`): `_chunk_text_for_model`.
  - `PackFrom` is the specification function: the loop as a recursion over the remaining paragraphs.
  - `IsGreedyPacking` is an independent declarative description.
  - The method `ChunkTextForModel` keeps the source's loop over `chunks`, `cur` and `cur_len`.
- `models.dfy` (`Models`): the model bundle and the NER span record.
- `summarizer.dfy` (`Summarizer`): `summarize_long_text`.
  - It is a pure function.
  - It returns the summary together with the log of every text handed to the summarizer, so that call counts can be stated.
  - `Partials` is the definition of the list comprehension of partial summaries.
- `entities.dfy` (`Entities`): `extract_entities`.
  - The loop over spans fills a map of sets.
  - A sorting method plays the part of `sorted`.
- `pdftext.dfy` (`PdfText`): the page loop of `extract_text_from_pdf_filelike`.
  - `PageTexts` is the definition of the texts chosen page by page.

The source's default arguments are not fixed in the model; every operation takes them as parameters. The defaults are:

- `max_tokens = 700` for the chunker;
- `min_len = 60`, `max_len = 200` and `chunk_tokens = 700` for the summarizer;
- `enable_ocr = True` and `ocr_dpi = 200` for the page loop.

## Model

| member | source | states |
|---|---|---|
| Text.IsSpace | legal_nlp.py:66 | the characters `str.isspace()` accepts: the ASCII whitespace and separator controls and the Unicode space separators; a definition, used by `Strip` and `IsBlank` |
| Text.Strip | legal_nlp.py:93 | `str.strip()`: never longer than its input, and the result neither begins nor ends with whitespace; `StripSpec` pins it down as the infix between the longest blank prefix and suffix |
| Text.StripEmptyIffBlank | legal_nlp.py:66 | `not s.strip()` holds exactly when every character of `s` is whitespace |
| Text.StripSpec | legal_nlp.py:93 | `strip` removes the longest leading and trailing whitespace and keeps the infix between them unchanged |
| Text.StripIdempotent | legal_nlp.py:93 | stripping an already stripped text changes nothing |
| Text.StrictlySortedUnique | legal_nlp.py:135 | two strictly increasing lists with the same elements are equal, so "sorted, without duplicates" fixes the output of `sorted(set)` |
| Text.Insert | legal_nlp.py:135 | inserting into a strictly sorted list keeps it strictly sorted and adds exactly the new string |
| Paragraphs.SplitParagraphs | legal_nlp.py:63 | `re.split(r"\n{2,}", s)`: the text cut at each maximal run of two or more newlines, always at least one piece; `SeparatorRunsShape`, `SplitReassembles` and `SplitWellSeparated` state what the pieces are |
| Paragraphs.SeparatorRunsShape | legal_nlp.py:63 | the split cuts at runs of at least two newlines, one run between consecutive pieces |
| Paragraphs.SplitReassembles | legal_nlp.py:63 | the pieces of the split, rejoined with the newline runs it removed, give back the text |
| Paragraphs.SplitWellSeparated | legal_nlp.py:63 | no piece contains a double newline, no inner piece ends with a newline and no inner piece starts with one, because the runs removed are maximal |
| Paragraphs.SplitJoin | legal_nlp.py:63-70 | joining non-empty, well-separated paragraphs with a blank line and splitting again gives back the paragraphs |
| Paragraphs.BlankIffPiecesBlank | legal_nlp.py:63-67 | a text is blank exactly when every piece of its split is blank |
| Chunker.PackFrom | legal_nlp.py:65-77 | the loop from a given open chunk, as a recursion: blank paragraphs skipped, the chunk closed when `cur_len + tokens > max_tokens` and it is non-empty, the last chunk flushed; a definition whose properties `PackFromCovers`, `PackFromGroups` and `PackFromGreedy` state |
| Chunker.ChunkText | legal_nlp.py:59-80 | what `_chunk_text_for_model` returns: the groups joined with `"\n\n"`, or `[text]` when there are none; always at least one chunk; `ChunkTextShape` and `ChunkSplitsBack` state the rest |
| Chunker.NonBlankMembers | legal_nlp.py:65-67 | the kept paragraphs are exactly the pieces that are non-blank after `strip` |
| Chunker.PackFromCovers | legal_nlp.py:65-77 | the emitted groups, laid end to end, are the open chunk followed by the remaining non-blank paragraphs in their order |
| Chunker.PackFromGroups | legal_nlp.py:69-75 | every group is non-empty, holds only non-blank paragraphs, and stays within `max_tokens` unless it is a single paragraph |
| Chunker.PackFromGreedy | legal_nlp.py:69-72 | a group is closed only when its token sum plus the next group's first paragraph exceeds `max_tokens` |
| Chunker.GroupsArePacking | legal_nlp.py:63-77 | the groups of a text are a greedy packing of its non-blank paragraphs: coverage, order, each paragraph used once, budget, closing rule |
| Chunker.GreedyPackingUnique | legal_nlp.py:69-75 | there is only one greedy packing of a paragraph list, so the loop's result is the one the declarative description allows |
| Chunker.ChunkTextShape | legal_nlp.py:76-80 | at least one chunk; the result is exactly `[text]` when the text is blank, otherwise the groups joined with `"\n\n"` |
| Chunker.ChunkSplitsBack | legal_nlp.py:63-77 | splitting any chunk on blank lines gives back exactly the paragraphs packed into it |
| Chunker.ChunkTextForModel | legal_nlp.py:59-80 | the loop over the paragraphs, with `chunks`, `cur` and `cur_len` updated in place, returns the chunk list of the specification |
| Summarizer.SummarizeLongText | legal_nlp.py:83-114 | `summarize_long_text` with its four exits. The summarizer is called exactly when the stripped text is non-empty, an empty stripped text gives `""`, and there are at most one call per chunk plus one |
| Summarizer.StrippedNotBlank | legal_nlp.py:93-94 | the stripped text is non-empty exactly when the input is not blank, and then it is not blank either |
| Summarizer.SummarizeCallsIffNotBlank | legal_nlp.py:93-95 | the summarizer is never called exactly when the input is blank, and a blank input yields `""` |
| Summarizer.SummarizeDirect | legal_nlp.py:97-99 | a stripped text within `chunk_tokens` is summarized in exactly one call, on the stripped text, and that call's output is returned |
| Summarizer.SummarizeChunked | legal_nlp.py:101-114 | on the long path, the first calls are the chunks in order, and the chunks are a greedy packing of the paragraphs. One more call follows, on the joined partials, exactly when they are non-empty and over budget; otherwise they are returned |
| Summarizer.CombinedFromCalls | legal_nlp.py:102-107 | on the chunked path, the joined partial summaries are the summaries of exactly the texts logged as the first calls |
| Summarizer.SummarizeBounded | legal_nlp.py:93-114 | at most one call per chunk plus one; the result is `""`, the output of the last call, or a text within the budget |
| Entities.SpanGroup | legal_nlp.py:127 | `e.get("entity_group", "MISC")`: the span's group, MISC when it has none; a definition |
| Entities.SpanWord | legal_nlp.py:128 | `e.get("word", "").strip()`: the span's stripped word, empty when it has none; a definition |
| Entities.InBucket | legal_nlp.py:131-134 | label `k` receives the span: its own group when that is one of the four labels, MISC for any other group; a definition, `BucketOf` shows it picks exactly one label |
| Entities.BucketOf | legal_nlp.py:131-134 | every span is received by exactly one label, its group when that is one of the four labels and MISC otherwise |
| Entities.RecognisedSnoc | legal_nlp.py:126-134 | one more span adds its non-empty stripped word to the label that receives it and to no other |
| Entities.GroupedAdd | legal_nlp.py:127-134 | each branch of the loop body (empty word, known group, unknown group sent to MISC) keeps `grouped` equal to the words recognised so far |
| Entities.SortedList | legal_nlp.py:135 | `sorted(v)`: a strictly increasing list holding exactly the elements of `v` |
| Entities.SortGroups | legal_nlp.py:135 | the result has the four labels as keys, each list sorted and holding exactly that label's set |
| Entities.ExtractEntities | legal_nlp.py:117-135 | keys are exactly PER, ORG, LOC and MISC, every list is strictly sorted, a blank input gives four empty lists without calling NER, and otherwise NER is called once on the stripped text. A word is listed under a label exactly when some span has it as its non-empty stripped word and that label receives the span: its own group, or MISC for any other group |
| PdfText.PageText | legal_nlp.py:24-29 | the text page `i` contributes: its OCR text when OCR is on and its own text is blank, its own text otherwise; a definition, `OcrUsedIffBlank` ties it to the source's `strip()` test |
| PdfText.DocumentText | legal_nlp.py:22-31 | what `extract_text_from_pdf_filelike` returns: every page's chosen text followed by a newline, in page order; a definition whose properties `PageInDocument`, `OcrTextIncluded`, `NoOcrIsJoin` and `OcrIrrelevantWhenNoBlankPage` state |
| PdfText.ExtractTextFromPages | legal_nlp.py:22-31 | the loop appending each page's chosen text and a newline computes the document text |
| PdfText.OcrUsedIffBlank | legal_nlp.py:24-29 | a page's OCR text replaces its own text exactly when OCR is enabled and the page's own text strips to the empty string, the condition `PageText` states as `IsBlank` |
| PdfText.LinesPrefix | legal_nlp.py:30 | the document only grows: each page's contribution extends the text before it |
| PdfText.LineInLines | legal_nlp.py:30 | in the text built from the first `m` pages, the text of page `k < m` sits right after the lines before it, followed by a newline |
| PdfText.PageInDocument | legal_nlp.py:30 | each page's chosen text sits in the document right after the texts of the pages before it, followed by a newline |
| PdfText.OcrTextIncluded | legal_nlp.py:25-30 | with OCR enabled, a blank page's OCR text appears in the document at that page's place |
| PdfText.LinesIsJoin | legal_nlp.py:23-30 | appending each text and a newline gives the texts joined with newlines plus a final newline |
| PdfText.NoOcrIsJoin | legal_nlp.py:22-31 | with OCR disabled, a non-empty document is the pages' texts joined with newlines plus a final newline, whatever OCR would return |
| PdfText.OcrIrrelevantWhenNoBlankPage | legal_nlp.py:25 | when no page is blank, enabling OCR does not change the document |

## Left out

- PyMuPDF parsing and rendering, the Tesseract call and the `TESSERACT_CMD` configuration (legal_nlp.py:13-16, 21, 27-29) are foreign I/O. Pages are given as their embedded texts, and OCR is the function parameter `ocr`.
- `extract_text_from_pdf_path` (legal_nlp.py:34-36) only opens a file, so it is not modelled.
- Building `NLPModels` and the transformers pipelines (legal_nlp.py:39-56) is model loading. The tokenizer, summarizer and NER pipeline are the fields of `Models.NlpModels`.
  - The summarizer's list-of-dicts output is reduced to its `summary_text`.
  - `do_sample=False` is not modelled.
- Summarizer.SummarizeLongText: the budget checks compare whole-text token counts, as the source does. The chunk budget is a statement about sums of per-paragraph counts (`Chunker.WithinBudget`). Nothing is claimed about the token count of a joined chunk string, because the tokenizer is arbitrary.
- Entities.ExtractEntities: a Dafny map has no key order, so the order PER, ORG, LOC, MISC of the returned dict is not captured.
- Entities.SpanGroup: `e.get` is modelled with Option fields, so a key present with the value `None` is not distinguished from a missing key.
- The Python types are not checked: entity groups and words are assumed to be strings.
- `streamlit_app.py`, `analysis_cli.py` and `bert-ocr.py` are user interface and file glue around these routines, so they are not part of this model.
