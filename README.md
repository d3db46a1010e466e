# bookRag core, modelled in Dafny

bookRag is a small Streamlit application for reading Arabic novels with help
from a chat model. An administrator registers authors and uploads a novel as a
PDF. The pages are cleaned and chunked, then stored in a vector store tagged
with author, novel and page. A reader picks an author and a novel and asks a
question. The question is normalised, the five most similar chunks of that
novel are retrieved and formatted as context, and the chat model answers. The
answer and its cited pages are kept in the session's chat history.

This project models the logic the application implements itself:

- `ArabicNormalizer` (`arabic_normalizer.dfy`) models `normalize_arabic`. It
  deletes the diacritics U+0617–U+061A and U+064B–U+0652, then folds إ/أ/آ/ا to
  ا, ة to ه and ى to ي. The three folding substitutions each map one character
  to one character, so they are composed into one per-character map,
  `FoldLetter`, applied in source order.
- `Whitespace` (`whitespace.dfy`) models `clean_arabic_text`, which is
  `" ".join(text.split())`. It includes Python's argument-less `str.split()`,
  with its exact whitespace set.
- `Strings` (`strings.dfy`) holds `str.join` and the decimal rendering of a page
  number, as an f-string prints it.
- `Documents` and `Ingest` (`documents.dfy`, `ingest.dfy`) model the page loop
  of `process_and_save_document`. The loop is a method checked against a
  specification function.
- `RagService` (`rag_service.dfy`) models the retriever's scope filter and its
  `k = 5`, the nested `format_docs`, and `get_rag_response`.
- `AdminPanel` (`admin_panel.dfy`) models the catalog that the admin panel
  updates in place. It is a class holding the author → titles map.
- `ChatPage` (`chat_page.dfy`) models the chat page's session history. It is a
  class holding `messages`, plus the loop that builds `formatted_sources`.

Collaborators that are not part of this model are parameters:

- The PDF's extracted pages are a `seq<Option<string>>`.
- The vector store with its embeddings is `search: string -> Result<seq<Document>>`.
  It lists every stored chunk, most similar to the query first, or fails.
- The chat model is `llm: PromptInputs -> Result<string>`.
- Widget values (text boxes, select boxes, buttons, chat input) are method
  parameters.

The model makes one assumption about the store. `get_rag_response` runs the
retriever twice: once inside the answer chain and once to fetch the sources.
The model takes `search` to answer both calls the same way, because nothing
writes to the store in between.

Two behaviours of the code are easy to miss:

- The prompt's `{question}` receives the **normalised** question.
  `rag_chain.invoke(normalized_question)` passes it through
  `RunnablePassthrough`. It is not the raw user question
  (src/features/chat/rag_service.py:109, 119).
- A page whose extracted text is only whitespace still yields a Document, with
  empty content. The non-empty test is on the raw text, before cleaning
  (src/features/admin/ingest_service.py:39-40). `Ingest.WhitespacePageKept`
  states this.

## Model

| member | source | states |
|---|---|---|
| ArabicNormalizer.FoldLetter | src/features/chat/rag_service.py:23-30 | the folded letter is never one of إ أ آ ة ى; a non-diacritic stays a non-diacritic; a character outside the folded set passes through unchanged; إ, أ and آ become ا, ة becomes ه and ى becomes ي |
| ArabicNormalizer.StripDiacritics | src/features/chat/rag_service.py:20-21 | the output is no longer than the input and holds no code point of U+0617–U+061A or U+064B–U+0652; text without diacritics is returned unchanged |
| ArabicNormalizer.FoldLetters | src/features/chat/rag_service.py:23-30 | one output character per input character, each the fold of the character at the same position |
| ArabicNormalizer.Normalize | src/features/chat/rag_service.py:13-32 | the empty string maps to the empty string; the output never grows and contains no diacritic and none of إ أ آ ة ى |
| ArabicNormalizer.StripDiacriticsConcat | src/features/chat/rag_service.py:21 | deleting diacritics distributes over concatenation, so the kept characters stay in input order |
| ArabicNormalizer.NormalizeConcat | src/features/chat/rag_service.py:20-30 | normalising a concatenation is concatenating the normalised parts, so order is preserved |
| ArabicNormalizer.NormalizeChar | src/features/chat/rag_service.py:20-30 | a diacritic yields nothing; every other character yields exactly one character, its fold |
| ArabicNormalizer.NormalizePassThrough | src/features/chat/rag_service.py:20-30 | text with no diacritic and no foldable letter is returned unchanged |
| ArabicNormalizer.NormalizeIdempotent | src/features/chat/rag_service.py:13-32 | normalising twice equals normalising once |
| Strings.Join | src/features/admin/ingest_service.py:18 | `sep.join` of no parts is "" and of one part is that part |
| Strings.JoinLength | src/features/chat/rag_service.py:100-103 | the joined string's length is the parts' total length plus one separator between each two neighbours |
| Strings.JoinSplitAt | src/features/chat/rag_service.py:100-103 | joining at any cut gives the join of the first parts, one separator, then the join of the rest |
| Strings.Decimal | src/features/chat/rag_service.py:101 | a page number prints as a non-empty string of decimal digits with no leading zero |
| Strings.DecimalValue | src/features/chat/rag_service.py:101 | reading the printed digits back gives the page number |
| Whitespace.SkipSpaces | src/features/admin/ingest_service.py:18 | drops leading whitespace: the result is a suffix of the text and, unless empty, starts with a non-whitespace character |
| Whitespace.NonSpaceSkip | src/features/admin/ingest_service.py:18 | skipping leading whitespace drops no non-whitespace character |
| Whitespace.WordPrefix | src/features/admin/ingest_service.py:18 | the longest whitespace-free prefix; non-empty when the text starts with a non-whitespace character |
| Whitespace.SplitWords | src/features/admin/ingest_service.py:18 | `str.split()` yields only non-empty words without whitespace |
| Whitespace.Clean | src/features/admin/ingest_service.py:15-16 | empty input gives "" |
| Whitespace.NonSpace | src/features/admin/ingest_service.py:18 | removing whitespace leaves no whitespace and never grows the text |
| Whitespace.SplitLeadingSpace | src/features/admin/ingest_service.py:18 | leading whitespace does not change the split |
| Whitespace.SplitWordFirst | src/features/admin/ingest_service.py:18 | a text starting with a whole word splits into that word followed by the split of the rest |
| Whitespace.SplitJoin | src/features/admin/ingest_service.py:18 | splitting words joined by single spaces gives the words back |
| Whitespace.JoinCollapsed | src/features/admin/ingest_service.py:18 | words joined by single spaces have no leading or trailing whitespace, no two spaces in a row, and no whitespace but ' ' |
| Whitespace.CleanCollapsed | src/features/admin/ingest_service.py:18 | the output of `clean_arabic_text` has no leading or trailing whitespace, no double space, and no whitespace character other than ' ' |
| Whitespace.CollapsedIsClean | src/features/admin/ingest_service.py:18 | text that is already collapsed is returned unchanged |
| Whitespace.CleanFixedPoint | src/features/admin/ingest_service.py:15-18 | the clean-up leaves a text unchanged exactly when the text is collapsed |
| Whitespace.CleanIdempotent | src/features/admin/ingest_service.py:18 | cleaning twice equals cleaning once |
| Whitespace.NonSpaceSplit | src/features/admin/ingest_service.py:18 | removing the whitespace of a text gives the concatenation of its words |
| Whitespace.NonSpaceJoin | src/features/admin/ingest_service.py:18 | removing the spaces of words joined by spaces gives their concatenation |
| Whitespace.CleanKeepsNonSpace | src/features/admin/ingest_service.py:18 | the clean-up keeps every non-whitespace character in order: the input without whitespace equals the output without spaces |
| Whitespace.CleanAllSpace | src/features/admin/ingest_service.py:15-18 | text made only of whitespace cleans to "" |
| Ingest.BuildDocuments | src/features/admin/ingest_service.py:35-51 | the loop's document list equals the specification `PageDocuments` of all pages: one cleaned Document per page with non-empty raw text, in page order |
| Ingest.PageDocumentsSound | src/features/admin/ingest_service.py:36-51 | at most one Document per page; each carries a 1-based page number no larger than the page count, comes from a page with non-empty text, holds that text cleaned and the caller's author and novel; page numbers strictly increase |
| Ingest.PageWithTextKept | src/features/admin/ingest_service.py:39-51 | a page with non-empty raw text yields a Document numbered i + 1 |
| Ingest.PageDocumentsComplete | src/features/admin/ingest_service.py:36-51 | page i yields a Document numbered i + 1 exactly when its raw text is non-empty |
| Ingest.WhitespacePageKept | src/features/admin/ingest_service.py:39-40 | a page of only whitespace still yields a Document, and its content is "" |
| RagService.FilterScope | src/features/chat/rag_service.py:58-63 | the `$and` filter keeps only chunks whose author and novel both equal the requested ones, and never grows the list |
| RagService.FilterScopeMembers | src/features/chat/rag_service.py:58-63 | a chunk survives the filter exactly when it is in the store and matches both author and novel |
| RagService.FilterScopeConcat | src/features/chat/rag_service.py:54-65 | filtering distributes over concatenation, so matches keep the similarity order |
| RagService.Retrieve | src/features/chat/rag_service.py:54-65 | at most k = 5 chunks, all in scope and in the store; all matches when there are at most five, otherwise exactly five; always the best-ranked matches, in ranking order |
| RagService.RetrieveEmptyScope | src/features/chat/rag_service.py:54-65 | a scope with no stored chunk retrieves the empty list |
| RagService.Blocks | src/features/chat/rag_service.py:100-103 | one block per retrieved chunk, at the same position, of the form `[الصفحة p]: content` |
| RagService.FormatDocsSmall | src/features/chat/rag_service.py:99-103 | no chunks format to ""; one chunk formats to its block alone |
| RagService.FormatDocsSplit | src/features/chat/rag_service.py:99-103 | the context is the first chunks' blocks, a "\n\n", then the rest's blocks, so blocks appear in retrieval order separated by blank lines |
| RagService.BlockShape | src/features/chat/rag_service.py:101 | each block starts with `[الصفحة `, ends with the chunk's content, and names the page in decimal, or `غير معروف` when the page is missing |
| RagService.RetrieveWith | src/features/chat/rag_service.py:54-65 | one retriever call fails exactly when the store search fails; otherwise it gives the scoped top-5 of the ranking for that query |
| RagService.GetRagResponse | src/features/chat/rag_service.py:35-127 | a successful response has at most five sources, all of the requested author and novel; the sources are the retrieval for the normalised question; the model received those sources formatted as context and the normalised question; the response succeeds exactly when the retriever and the model both succeed |
| RagService.NormalizedQuestionSuffices | src/features/chat/rag_service.py:43-122 | the raw question never reaches retrieval or the model: a question and its normalisation get the same response |
| RagService.EmptyScopeAnswer | src/features/chat/rag_service.py:99-127 | when nothing is in scope, the model is asked with an empty context and the response has no sources rather than an error |
| AdminPanel.WithAuthorEffect | src/features/admin/ui.py:40-47 | a new non-empty author is added with an empty title list and every other entry is unchanged; an empty or existing name leaves the catalog unchanged |
| AdminPanel.WithNovelEffect | src/features/admin/ui.py:66-67 | registering keeps the authors and every other author's list; the author's titles stay in order, the new title is appended last only if absent, and the title is present afterwards |
| AdminPanel.UpdatesKeepDuplicateFree | src/features/admin/ui.py:40-67 | both updates keep every author's title list free of duplicates |
| AdminPanel.WithNovelIdempotent | src/features/admin/ui.py:66-67 | registering the same title twice equals registering it once |
| AdminPanel.Library.constructor | src/features/admin/ui.py:31 | the panel starts from the stored catalog |
| AdminPanel.Library.AddAuthor | src/features/admin/ui.py:38-47 | the catalog becomes `WithAuthor` of the old one; reports "saved" exactly for a new non-empty name and "exists" exactly for a name already present |
| AdminPanel.Library.ProcessAndStore | src/features/admin/ui.py:50-72 | the author must be a catalog key, as the select box guarantees; without a file or a title nothing is ingested and the catalog is unchanged; otherwise the pages' Documents are built and the catalog becomes `WithNovel` of the old one |
| ChatPage.SourceOf | src/features/chat/ui.py:93-98 | the preview is the prefix of the chunk's content of length min(50, its length); the page is the chunk's page number, or "?" when it is missing |
| ChatPage.SourcesOf | src/features/chat/ui.py:90-98 | one display record per retrieved chunk, in order |
| ChatPage.FormatSources | src/features/chat/ui.py:90-98 | the append loop yields exactly `SourcesOf` the chunks, and no preview is longer than 50 characters |
| ChatPage.ExchangeShape | src/features/chat/ui.py:78-119 | one question keeps the old history, then adds the user entry, then the assistant entry (the answer and its formatted sources) only when the service succeeded: two entries on success, one on failure |
| ChatPage.ChatSession.constructor | src/features/chat/ui.py:60 | a new session has no `messages` key |
| ChatPage.ChatSession.ClearHistory | src/features/chat/ui.py:51-52 | the clear action sets the history to empty |
| ChatPage.ChatSession.InitHistory | src/features/chat/ui.py:60-61 | a missing history becomes empty and an existing one is kept |
| ChatPage.ChatSession.Ask | src/features/chat/ui.py:75-119 | the history becomes the old history extended by the exchange for the service's outcome on the submitted text |
| ChatPage.ChatSession.Render | src/features/chat/ui.py:17-119 | an empty library, or an author with no novels, returns early and leaves the history unchanged; the clear button empties the history and ends the run; the page renders exactly when the library is non-empty, the author has novels and clear was not clicked, and then the history is initialised and a non-empty question adds its exchange |

## Left out

- The text splitter (`RecursiveCharacterTextSplitter`, chunk size 1000, overlap 200, separator list). It is a third-party library whose code is not part of this model. So the chunk count returned by `process_and_save_document` is not modelled. `Library.ProcessAndStore` returns the Documents handed to the splitter instead.
- Embedding calls, Chroma's similarity ranking and persistence. They are foreign services and the ranking is floating point. The ranking is the `search` parameter. The two different embedding model identifiers used for ingestion and for queries are therefore not visible in the model.
- The chat model call and the rendering of the prompt template text. The model is the `llm` parameter, which receives the four template inputs.
- PDF text extraction with pdfplumber. Pages arrive as a `seq<Option<string>>`.
- Loading and saving the library JSON file (`load_library`, `save_library`). The `Library` class holds the catalog that would be saved.
- Exceptions raised by the ingestion inside "process and store". They propagate out of the panel before the catalog is touched, and the model does not represent them.
- All Streamlit rendering: titles, tabs, spinners, the display loop over the history, captions and expanders. Also `st.rerun` beyond ending the run, and the two-way page switch in src/main.py.
- The `print` logging of the ingestion.
- Unicode: the model's characters are Unicode scalar values, so they exclude the lone surrogates (U+D800 to U+DFFF) that a Python `str` may hold. No other encoding issue arises in this code.
