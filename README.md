# IntelliQuery text and session rules, verified in Dafny

IntelliQuery is a Streamlit application (`app.py`). Users upload documents, images or audio, and it answers questions about them with retrieval-augmented generation. Most of `app.py` is page layout and calls into external services. This project models the few self-contained rules that sit between those calls. There are five of them:

- **`clean_text`** (module `Cleaning`). This is the sanitiser applied to text before it is embedded. Code points that UTF-8 cannot encode (lone surrogates) become `?`. Every astral code point (U+10000 to U+10FFFF) is deleted. The result is stripped of surrounding whitespace.
- **`get_late_chunked_text`** (module `Chunking`). This is the sliding-window re-chunker. Each retrieved document's cleaned text is cut into windows of `chunk_size` code points. Each window starts `chunk_size - chunk_overlap` after the previous one. All windows go into one list. The method keeps the source's two nested loops. Its contract ties the result to the function `Chunked`. The lemmas then state window positions, lengths, counts, coverage and ordering. The contract also states exactly when the loop never ends.
- **The related-terms normaliser** in `fetch_related_terms` (module `Query`). It splits the generated text on commas, strips each piece, drops blank pieces and joins the rest with `", "`. The lemmas show that it is idempotent, that it returns exactly the terms it was given, and that it keeps their order.
- **The routing rule of `process_input`** (module `Query`). A question with fewer than 15 words is widened with the related terms before retrieval. The term generator, the retriever and the answering chain are function parameters.
- **`handle_submit`** (module `Session`). This is the "Send" button's state transition over the session fields. It is a class `SessionStore` whose method `HandleSubmit` is proved against the pure function `Submit`. The lemmas show that the transition keeps "processing implies a non-blank current question", and that a second press changes nothing.

Module `PyStr` models the Python string built-ins these rules use: `str.isspace`, `strip()`, `split()`, `split(",")` and `", ".join`. Text is a sequence of integers standing for code points. Dafny's `char` cannot hold a lone surrogate, so it is not used. The range 0..0x10FFFF is not enforced, and no rule depends on it. Module `Seqs` holds general facts about sequences that the other modules use. Whitespace is the set of characters for which Python's `str.isspace` is true.

## Model

| member | source | states |
|---|---|---|
| PyStr.IsSpace | app.py:353 | the characters Python's `str.isspace` accepts, used by `strip()` and `split()` (app.py:353, 477, 479, 497, 525); the body is the reference definition |
| PyStr.Strip | app.py:353 | the result has no whitespace at either end and is no longer than the input |
| PyStr.StripLocated | app.py:353 | the stripped text is a contiguous stretch of the input with only whitespace before and after it |
| PyStr.StripOfPadded | app.py:353 | a stripped text surrounded by any whitespace strips back to itself, so `Strip` is fully determined |
| PyStr.StripIdempotent | app.py:353 | stripping twice is the same as stripping once |
| PyStr.StripKeepsCharacters | app.py:353 | every character of the stripped text occurs in the input |
| PyStr.TrimStart | app.py:353 | the result is a suffix of the input, what was removed is all whitespace, and the result does not start with whitespace |
| PyStr.TrimEnd | app.py:353 | the result is a prefix of the input, what was removed is all whitespace, and the result does not end with whitespace |
| PyStr.Words | app.py:497 | every word of a whitespace split is non-empty and holds no whitespace |
| PyStr.TakeWord | app.py:497 | the first word is a whitespace-free prefix that ends at the end of the text or at a whitespace character |
| PyStr.WordsOfSpaced | app.py:497-499 | the words of `a + " " + b` are the words of `a` followed by the words of `b` |
| PyStr.WordsSameStart | app.py:497 | leading whitespace does not change the word list |
| PyStr.SplitOn | app.py:479 | a split on a separator gives at least one piece, and no piece contains the separator |
| PyStr.Join | app.py:479 | `sep.join(parts)`: the parts with the separator between each two neighbours; the body is the reference definition, tied to `SplitOn` by `JoinOfSplit` and `SplitOfJoin` |
| PyStr.JoinOfSplit | app.py:479 | joining the pieces of a split with the same separator gives the text back |
| PyStr.SplitOfJoin | app.py:479 | splitting a join of separator-free pieces gives the pieces back |
| PyStr.SplitOnAround | app.py:479 | splitting `x + sep + y` gives the pieces of `x` followed by the pieces of `y` |
| Cleaning.ReplaceUnencodable | app.py:348 | the length is kept, each surrogate becomes `?`, every other code point is kept in place, and no surrogate remains |
| Cleaning.RemoveAstral | app.py:351 | no astral code point remains, every remaining code point occurs in the input, and the text does not grow |
| Cleaning.RemoveAstralConcat | app.py:351 | deleting astral code points works piecewise over concatenation |
| Cleaning.ReplaceUnencodableConcat | app.py:348 | the surrogate replacement works piecewise over concatenation |
| Cleaning.CleanText | app.py:339-353 | empty input gives empty output, the output holds no surrogate and no astral code point, and it has no whitespace at either end |
| Cleaning.CleanTextOfPlain | app.py:344-353 | on text with no surrogate and no astral code point, cleaning is exactly stripping |
| Cleaning.CleanTextIdempotent | app.py:348-353 | cleaning a cleaned text changes nothing |
| Cleaning.CleanTextDropsAstral | app.py:351-353 | an astral code point anywhere in the input has no effect on the result |
| Cleaning.CleanTextReplacesSurrogate | app.py:348-353 | a lone surrogate anywhere in the input cleans exactly as a `?` in its place would |
| Chunking.Slice | app.py:408 | Python slicing: within bounds it is the ordinary subsequence, with the end clamped to the length |
| Chunking.SliceBound | app.py:408 | how Python resolves a slice bound: a negative bound counts from the end, and bounds are clamped to the length; within range the bound is kept |
| Chunking.Windows | app.py:406-409 | the windows the inner loop emits from a given start: one slice of `chunk_size` code points per start inside the text, each start one stride after the previous; the body is the reference definition, characterised by `WindowAt` and `WindowCount` |
| Chunking.DocChunks | app.py:405-409 | the chunks of one cleaned text: none for the empty text, otherwise the windows from offset 0; the body is the reference definition, characterised by `DocChunkAt`, `DocChunkShape`, `DocChunkCount` and `DocChunksCover` |
| Chunking.Cleaned | app.py:398-404 | the cleaned text of every document, in input order; the body is the reference definition, characterised by `MapAt` and `MapSnoc` |
| Chunking.Chunked | app.py:396-411 | the returned list: the chunks of every cleaned document, document after document; the body is the reference definition, characterised by `ChunkedAppend`, `ChunkedAt` and `ChunkedCount` |
| Chunking.GetLateChunkedText | app.py:392-411 | the loop fails to end exactly when some cleaned document is non-empty and `chunk_size - chunk_overlap <= 0`; otherwise the result is `Chunked` of the cleaned documents |
| Chunking.AppendWindows | app.py:406-409 | the inner loop appends exactly the chunks of one document to the list built so far |
| Chunking.NotTerminating | app.py:406-409 | a non-empty cleaned document with a non-positive stride makes the whole run non-terminating |
| Chunking.ChunkedPush | app.py:398-409 | one more document appends exactly its own chunks to the result |
| Chunking.ChunkedAppend | app.py:396-411 | the chunks of `a + b` are the chunks of `a` followed by those of `b`, with nothing added or reordered |
| Chunking.ChunkedAt | app.py:396-411 | the k-th chunk of document d sits in the result right after all chunks of the documents before d |
| Chunking.ChunkedCount | app.py:396-411 | with a positive stride the result holds exactly the sum, over the documents, of `ceil(len(text) / stride)` chunks |
| Chunking.TerminatesSplit | app.py:398-409 | if the run over `a + b` ends, the runs over `a` and over `b` end |
| Chunking.WindowAt | app.py:406-409 | the k-th window exists exactly when its start `from + k * step` is inside the text, and it is the slice from that start of `size` code points |
| Chunking.WindowCount | app.py:406-409 | starting at `from`, the loop emits `ceil((len(text) - from) / step)` windows |
| Chunking.DocChunkAt | app.py:406-409 | a document has a k-th chunk exactly when `k * (chunk_size - chunk_overlap) < len(text)`, and that chunk is the slice starting at this offset |
| Chunking.DocChunkShape | app.py:406-409 | for a positive `chunk_size`, the k-th chunk starts inside the text, is `text[start : start + chunk_size]`, is `min(chunk_size, len(text) - start)` long, and so is non-empty and at most `chunk_size` long |
| Chunking.DocChunkCount | app.py:405-409 | a document yields `ceil(len(text) / stride)` chunks, and an empty cleaned text yields none |
| Chunking.DocChunksCover | app.py:406-409 | with `0 <= chunk_overlap < chunk_size`, every character index of the cleaned text lies inside some chunk, at the matching position |
| Chunking.DefaultsTerminate | app.py:392 | with the default arguments `chunk_size=1000` and `chunk_overlap=100` the stride is 900, the loop always ends, and the result holds the sum of `ceil(len(text) / 900)` chunks |
| Chunking.OffsetIsProduct | app.py:409 | the start reached after k strides is `k * stride` |
| Chunking.CeilDivIsDivision | app.py:407-409 | counting strides that start below `n` gives `(n + d - 1) / d` |
| Seqs.MapSnoc | app.py:398-400 | cleaning one more document appends its cleaned text to the cleaned list |
| Seqs.MapAt | app.py:398-400 | the cleaned list holds, at position i, the cleaned text of document i |
| Query.StrippedPieces | app.py:479 | no more terms than pieces, and every term is non-empty and has no surrounding whitespace |
| Query.RelatedTerms | app.py:479 | every term is non-empty, stripped and free of commas |
| Query.NormalizeTerms | app.py:479 | the normal form is empty exactly when there are no terms |
| Query.TermsOfJoin | app.py:479 | terms that are non-empty, stripped and free of commas, joined with `", "`, normalise back to exactly those terms in the same order |
| Query.NormalizeRoundTrip | app.py:479 | the terms of the normal form are the terms of the raw text |
| Query.NormalizeIdempotent | app.py:479 | normalising a normal form changes nothing |
| Query.NormalizeEmpty | app.py:479 | the empty text has no terms and normalises to the empty text |
| Query.RelatedTermsAround | app.py:479 | the terms of `x + "," + y` are the terms of `x` followed by the terms of `y`, so the order is kept |
| Query.StrippedPiecesAppend | app.py:479 | stripping and filtering works piecewise over a list of pieces |
| Query.JoinEmpty | app.py:479 | a join of non-empty terms is empty exactly when there are no terms |
| Query.FetchRelatedTerms | app.py:463-489 | a failed generation gives `""`; otherwise the result has the same terms as the stripped generated text, and it is already in normal form |
| Query.CombinedQuery | app.py:499 | with no terms the query is the question; otherwise it is the question, a space, and the terms; either way it starts with the question |
| Query.RetrievalQuery | app.py:497-503 | a question of 15 or more words is searched unchanged; a shorter one is searched as the combined query with its fetched terms; the query always starts with the question |
| Query.RetrievalQueryWords | app.py:497-499 | the words searched are the question's words, followed by the terms' words when the question is short |
| Query.ProcessQuestion | app.py:445-457 | the "no documents" reply comes exactly when no documents were retrieved; otherwise the reply is the chain's answer to the original question |
| Query.ProcessInput | app.py:491-504 | documents are retrieved with the routed query, and the reply is "no documents" exactly when none come back; otherwise it is the chain's answer to the original question |
| Session.Initial | app.py:68-75 | the page starts with processing off, no current question, no content and no image; the input box starts empty because the text widget keyed `user_input` (app.py:846-852) has an empty default |
| Session.HasQuestion | app.py:525 | the input box holds something other than whitespace; the body is the reference definition |
| Session.HasDocuments | app.py:526 | extracted text or an image has been uploaded; the body is the reference definition |
| Session.Consistent | app.py:530-531 | the invariant "while processing, the current question is present and not blank", which `HandleSubmit` requires and keeps; the body is the reference definition |
| Session.Submit | app.py:521-532 | blank input is ignored; non-blank input with no content and no image is refused with an error; otherwise the raw input becomes the current question, processing is set and the input box is emptied; the state is unchanged unless the question is taken |
| Session.SubmitKeepsConsistent | app.py:525-532 | the invariant "processing implies a non-blank current question" is kept by a submit |
| Session.SubmitTwice | app.py:530-532 | right after a question is taken, pressing "Send" again is ignored and changes nothing |
| Session.SessionStore.constructor | app.py:68-75 | a new store holds the initial state and satisfies the invariant |
| Session.SessionStore.HandleSubmit | app.py:521-532 | the new state and the outcome are those of `Submit` on the old state, and the invariant is kept |

## Left out

- Streamlit itself is not modelled: the page layout, widgets, CSS, `st.rerun` and the conversation history. `st.error` becomes the `NoDocumentsError` outcome of `Submit`.
- The session fields `handle_submit` does not touch (audio, video, vector store, history) are not modelled.
- An uploaded image is an opaque value. Only whether there is one matters to `handle_submit`.
- The code that reacts to the `processing` flag after a submit (app.py:806-836) is not modelled.
- FAISS index building, saving, loading and `similarity_search` (app.py:355-373, 413-443) are foreign library calls. `retrieve_documents` is the parameter `retrieve` of `ProcessInput`.
- The Cohere call in `fetch_related_terms` (app.py:467-477) is the parameter `generate`, of type `Text -> Option<Text>`. `None` stands for the exception branch. The prompt wording and its 15-token limit are not modelled.
- The Gemini chain `get_conversational_chain` is the parameter `answer`. The Gemini image call and Whisper transcription are not modelled.
- `RecursiveCharacterTextSplitter` (app.py:292-296, 332-337) is not modelled. It is a library algorithm whose source is not part of this model.
- File extraction (PDF, PPTX, Excel, audio through ffmpeg), file deletion and `clear_old_index` (app.py:98-192) are not modelled. They are I/O over parser libraries.
- The `ChatPDF` export (app.py:538-628) is not modelled. It is drawing with float coordinates and a wall-clock timestamp.
- The document type dispatch in `get_late_chunked_text` (app.py:399-404) is not modelled. A document is its page-content string. The `Document` objects the source builds around each chunk are represented by their text.
- `get_late_chunked_text` is defined in `app.py` but called nowhere in the file. The model covers the function as written.
- `print` and debug logging (app.py:450, 456, 481-484) are not modelled, and neither are their failures. The prints at app.py:481-484 run inside the `try` of `fetch_related_terms`. If one of them raises (for example a `UnicodeEncodeError`), the `except` at app.py:487-489 returns `""`. `generate` returning `None` covers that case as well as a failing generator call.
- Query.ProcessInput: always returns a `Reply`. It does not model an exception that leaves `process_input`. Such an exception can come from the prints at app.py:450 and 456 or from the chain call at app.py:453-454, since all of them are outside any `try`.
- Chunking.GetLateChunkedText: with a stride of zero or less and a non-empty cleaned text, every pass of the source's loop appends a new `Document` (app.py:408) without `start` ever growing, since it stays put for a zero stride and moves down for a negative one (app.py:409), so the process grows until it runs out of memory (a `MemoryError`, or the process is killed). The outcome `Diverges` stands for this hang followed by a crash, with the exact condition under which it happens. The memory exhaustion itself is not modelled.
- Streamlit's rerun of the whole script between the click and the next render is not modelled. `SessionStore` holds only the five session fields `handle_submit` reads or writes.
