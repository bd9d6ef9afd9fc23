# docsage core, modelled in Dafny

docsage is a FastAPI service that answers questions about uploaded PDF and DOCX
documents. An upload is parsed, chunked and cleaned into passages, and each passage is
indexed by a sentence-embedding vector store. A question names some of the stored
documents. The service gathers each document's nearest passages, ranks all of them by
similarity to the question, and keeps the best five. When that evidence is too thin it
refuses with the fixed sentence "Bu dokümanlarda bu bilgi yer almıyor." Otherwise a
language model answers from a grounding prompt, and its output is cut and screened.

This project models the deterministic logic around the embeddings and the language
model. Those two, the file parsers, the chunker and the identifier generator are passed
in as functions. The model covers:

- passage cleaning;
- the two question classifiers;
- prompt assembly and answer post-processing;
- candidate aggregation and ranking;
- the question endpoint;
- the upload endpoint.

Modules:

| file | module | models |
|---|---|---|
| wrappers.dfy | `Wrappers` | `Option` and `Result` (a value or an error message) |
| pystr.dfy | `PyStr` | the Python `str` operations used: `strip`, `lower`, `in`, `split(sep)[-1]`, `join` |
| http.dfy | `Http` | `HTTPException` as a status and a detail; bytes |
| embedding.dfy | `Embedding` | `EmbeddingStore.build_index` and `search` over faiss neighbour labels |
| documents.dfy | `Documents` | `DocumentObject.__init__`: cleaning, the empty-document error, the index |
| classifiers.dfy | `Classifiers` | `is_negative_question`, `extract_question_focus` and their regular expressions |
| generation.dfy | `Generation` | the prompt and the post-processing of `generate_answer_from_contexts` |
| retrieval.dfy | `Retrieval` | `retrieve_globally_relevant_chunks` |
| upload_router.dfy | `UploadRouter` | `upload_document`, `extract_text_from_file`, the document store |
| qa_router.dfy | `QaRouter` | `qa_endpoint` |

Conventions:

- Python's `str.isspace` is modelled by its full list of code points (`PyStr.IsSpace`).
- `str.lower` is modelled for ASCII and Latin-1 capitals.
- The regular-expression class `\w` is modelled for ASCII letters, digits and `_`, and
  for the Latin-1 letters and digits (including ª, ², ³, µ, ¹, º, ¼, ½ and ¾).
- A regular-expression search is modelled as leftmost start, greedy group, with `.` not
  matching a newline.
- Every raise the model keeps is a `Failure` carrying the message Python would carry. The
  raises it drops are listed under "## Left out".
- `extract_question_focus` stops at the first pattern that matches. The model computes
  every pattern's capture and takes the first present one. A search has no effects, so
  the focus is the same.
- The prompt is `Frame` applied to the fixed instructions. Facts about the prompt's layout
  are proved for any instructions (`FramePlacement`, `EchoedFrameYieldsContinuation`).

## Model

| member | source | states |
|---|---|---|
| PyStr.IsSpace | backend/services/qa_service.py:35 | definition: the code points for which `str.isspace()` holds; used by `PyStr.Strip` |
| PyStr.Strip | backend/services/documents.py:7-8 | definition: `str.strip()` is `StripBy` with `IsSpace`; properties in `PyStr.StripBy`, `StripByUnique`, `StripByIdempotent`, `StripByPadding` |
| PyStr.StripBy | backend/services/documents.py:8 | the result is the slice of the input between the leading and trailing runs of dropped characters; its ends are kept characters; it is empty exactly when every character is dropped |
| PyStr.StripByUnique | backend/services/documents.py:8 | any dropped prefix, kept core and dropped suffix strips to exactly that core |
| PyStr.StripByIdempotent | backend/services/documents.py:8 | stripping twice is stripping once |
| PyStr.StripByPadding | backend/services/qa_service.py:35 | whitespace added around a string does not change its strip |
| PyStr.LowerChar | backend/services/qa_service.py:35 | definition: the lower-case form of one ASCII or Latin-1 capital, any other character unchanged |
| PyStr.Lower | backend/services/qa_service.py:35 | definition: `str.lower()` character by character; properties in `PyStr.LowerIsLower`, `PyStr.LowerAppend` and `UploadRouter.ExtractTextIgnoresCase` |
| PyStr.LowerIsLower | backend/services/qa_service.py:59 | a lower-cased string is left unchanged by lower-casing |
| PyStr.LowerAppend | backend/services/qa_service.py:35 | lower-casing distributes over concatenation |
| PyStr.FindFrom | backend/services/qa_service.py:128 | the position found is an occurrence with none before it; there is none exactly when the substring does not occur |
| PyStr.LastPieceStartIsAfterLastSeparator | backend/services/qa_service.py:129 | the last piece starts right after an occurrence of the separator, and no occurrence starts inside it; with no separator it is the whole text |
| PyStr.SplitLast | backend/services/qa_service.py:129 | `s.split(sep)[-1]` is a suffix of `s` holding no separator, follows an occurrence of it, and is `s` itself when there is none |
| PyStr.LastPieceAfterFinalSeparator | backend/services/qa_service.py:129 | for a separator that cannot overlap itself, the last piece of `p + sep + t` is `t` whenever `t` holds no separator |
| PyStr.LastPieceAfter | backend/services/qa_service.py:129 | for a separator that cannot overlap itself, the text after an occurrence that holds no further separator is the last piece |
| PyStr.PieceAfterSeparator | backend/services/qa_service.py:129 | any suffix with the last-piece properties that follows such an occurrence is exactly the text after it |
| PyStr.TwoOccurrences | backend/services/qa_service.py:129 | two occurrences of a separator whose first character does not recur in it are equal or do not overlap |
| PyStr.OccursLater | backend/services/qa_service.py:129 | an occurrence at or after a cut is contained in the text after the cut |
| PyStr.ContainsAt | backend/services/qa_service.py:128 | an occurrence at a position means `sub in s` |
| PyStr.StripKeepsNoSeparator | backend/services/qa_service.py:129 | stripping a piece that holds no separator cannot bring one in |
| PyStr.ContainsChar | backend/routers/documents.py:22-23 | a one-character substring occurs exactly when its character does, so `len(s.split(".")) > 1` is `"." in s` |
| PyStr.NoSeparatorAfterPrefix | backend/services/qa_service.py:104-105 | a prefix none of whose characters starts the separator adds no occurrence of it |
| PyStr.Join | backend/services/qa_service.py:81 | definition: `sep.join(xs)`; its layout inside the prompt is stated by `Generation.FramePlacement` |
| Embedding.BuildIndex | backend/services/embedding_service.py:14-16 | definition: no texts fail with "Index oluşturmak için metin yok.", otherwise the store indexes the texts by position; properties in `Embedding.BuiltIndexLabelsNameTexts` and `Documents.NewDocument` (the index of a document holds exactly its passages) |
| Embedding.BuiltIndexLabelsNameTexts | backend/services/embedding_service.py:14-16 | building over texts succeeds, and searching the built index with one label returns the text at that position, or nothing for a label that names no stored text |
| Embedding.SearchAsWritten | backend/services/embedding_service.py:31-42 | the search as written returns one text per neighbour label, padding labels included |
| Embedding.SearchAsWrittenOverfills | backend/services/embedding_service.py:36-40 | when faiss is asked for more neighbours than texts stored, the search as written returns more texts than the store holds |
| Embedding.SearchAsWrittenRepeatsLastText | backend/services/embedding_service.py:36-40 | a one-passage store searched with k = 3 returns that passage three times, where the corrected search returns it once |
| Embedding.AsWrittenIsSearchOfRelabelled | backend/services/embedding_service.py:36-40 | the search as written equals the corrected search over the labels with each -1 read as the last position, as Python's `texts[-1]` reads it |
| Embedding.Search | backend/services/embedding_service.py:31-42 | every text returned is stored, and the text of every label naming a stored position is returned |
| Embedding.ValidLabels | backend/services/embedding_service.py:37 | the labels kept are exactly the labels naming a stored position |
| Embedding.SearchIsValidLabels | backend/services/embedding_service.py:36-40 | the search returns one text per label that names a stored position |
| Embedding.ValidLabelsDistinct | backend/services/embedding_service.py:33 | faiss's kept labels are pairwise distinct |
| Embedding.SearchWithinStore | backend/services/embedding_service.py:31-42 | the corrected search returns at most k texts and never more than the store holds |
| Documents.Keep | backend/services/documents.py:8 | definition: the filter `c and c.strip() and len(c.strip()) > 20`; properties in `Documents.KeepIsLengthTest` |
| Documents.Cleaned | backend/services/documents.py:6-9 | definition: the cleaning comprehension; properties in `Documents.CleanedIsOrderedSelection`, `CleanedPassagesAreClean`, `CleanedNonEmpty`, `CleanedIdempotent`, `CleanedAppend` |
| Documents.NewDocument | backend/services/documents.py:4-16 | construction fails with "Dokümandan anlamlı metin çıkarılamadı." exactly when no chunk passes the filter; otherwise the document is well formed, holds the cleaned chunks, and its index uses the default model |
| Documents.KeptPositions | backend/services/documents.py:6-9 | the positions of surviving chunks are positions of the input |
| Documents.KeepIsLengthTest | backend/services/documents.py:7 | the filter `c and c.strip() and len(c.strip()) > 20` is the length test alone |
| Documents.CleanedAppend | backend/services/documents.py:6-9 | cleaning works chunk by chunk: the cleaning of a concatenation is the concatenation of the cleanings |
| Documents.CleanedPassagesAreClean | backend/services/documents.py:6-9 | every stored passage equals its own strip and is longer than 20 characters |
| Documents.CleanedNoLonger | backend/services/documents.py:6-9 | there are never more passages than input chunks |
| Documents.CleanedNonEmpty | backend/services/documents.py:6-12 | cleaning yields nothing exactly when no chunk passes the filter |
| Documents.CleanedIsOrderedSelection | backend/services/documents.py:6-9 | the j-th passage is the strip of the j-th surviving chunk; surviving positions increase; a position survives exactly when its chunk passes |
| Documents.CleanedIdempotent | backend/services/documents.py:6-9 | cleaning the stored passages again changes nothing |
| Documents.AllShortChunksFail | backend/services/documents.py:11-12 | chunks of one to three characters cannot make a document |
| Classifiers.Normalise | backend/services/qa_service.py:35 | definition: `question.lower().strip()`; properties in `Classifiers.NormaliseIdempotent` and `NormalisedIsLower` |
| Classifiers.IsWordChar | backend/services/qa_service.py:38-43 | definition: the `\w` class on ASCII and Latin-1 letters and digits and `_` |
| Classifiers.WordBoundary | backend/services/qa_service.py:38-43 | definition: `\b`, exactly one side of the position is a word character; pinned by `Classifiers.RunOnPhraseIsNotNegative` |
| Classifiers.StartsWithPhrase | backend/services/qa_service.py:38-41 | definition: `^phrase\b`; pinned by the examples below |
| Classifiers.IsFormWith | backend/services/qa_service.py:42-43 | definition: `^is .*word\b` with the word carrying its leading space; pinned by the examples below |
| Classifiers.IsNegativeQuestion | backend/services/qa_service.py:27-46 | definition: a non-string is never negative, a string is when its normal form has one of the six shapes; its behaviour is pinned by the six positive and five negative examples below and by `NegativeIgnoresCase`/`NegativeIgnoresPadding` |
| Classifiers.NormaliseIdempotent | backend/services/qa_service.py:35 | the normalised question normalises to itself |
| Classifiers.NegativeIgnoresCase | backend/services/qa_service.py:35-46 | the classification ignores letter case |
| Classifiers.NegativeIgnoresPadding | backend/services/qa_service.py:35-46 | the classification ignores surrounding whitespace |
| Classifiers.DocumentMentionIsNegative | backend/services/qa_service.py:38 | "does the document mention x" is negative |
| Classifiers.ItMentionIsNegative | backend/services/qa_service.py:39 | "does it mention x" is negative |
| Classifiers.ItTalkAboutIsNegative | backend/services/qa_service.py:40 | "does it talk about x" is negative |
| Classifiers.AnyMentionIsNegative | backend/services/qa_service.py:41 | "is there any mention of x" is negative |
| Classifiers.DiscussedIsNegative | backend/services/qa_service.py:42 | "is x discussed" is negative |
| Classifiers.MentionedIsNegative | backend/services/qa_service.py:43 | "is x mentioned" is negative |
| Classifiers.DiscussedForm | backend/services/qa_service.py:42 | "is x discussed" matches `^is .* discussed\b` (the word ends the line, so the boundary holds) |
| Classifiers.MentionedForm | backend/services/qa_service.py:43 | "is x mentioned" matches `^is .* mentioned\b` |
| Classifiers.FormAtEnd | backend/services/qa_service.py:42-43 | a question starting "is ", with no newline up to the word and ending in the word, matches the form pattern |
| Classifiers.UnmentionedIsNotNegative | backend/services/qa_service.py:42-46 | "is it unmentioned?" is not negative: the word of `is .* mentioned` needs the space before it |
| Classifiers.BareDiscussedIsNotNegative | backend/services/qa_service.py:42-46 | "is discussed" is not negative: `.*` may be empty but both spaces are needed |
| Classifiers.GluedMentionedIsNotNegative | backend/services/qa_service.py:42-46 | "is xmentioned" is not negative |
| Classifiers.DocumentationIsNotNegative | backend/services/qa_service.py:37-46 | "does the documentation mention x" is not negative: the phrase breaks after "document" |
| Classifiers.RunOnPhraseIsNotNegative | backend/services/qa_service.py:37-46 | "does it mentions x" is not negative: `\b` fails inside "mentions" |
| Classifiers.NoFormAfter | backend/services/qa_service.py:42-43 | when no character from position 3 on can start the word, `^is .*word` does not match |
| Classifiers.NoFormExcept | backend/services/qa_service.py:42-43 | the same when the only candidate start does not hold the word |
| Classifiers.PhraseMismatch | backend/services/qa_service.py:38-41 | a question that differs from a phrase at some position does not start with it |
| Classifiers.NotNegativeWhen | backend/services/qa_service.py:46 | a question whose normal form has none of the six shapes is not negative |
| Classifiers.LineEnd | backend/services/qa_service.py:62-67 | the end of the line from a position: no newline before it, a newline or the end of text at it |
| Classifiers.LastOccurrenceAbove | backend/services/qa_service.py:66-67 | the last start of the suffix word inside a line, found by greedy backtracking |
| Classifiers.MatchAt | backend/services/qa_service.py:71 | a match at a given start with the greedy, longest group |
| Classifiers.SearchFrom | backend/services/qa_service.py:71 | the leftmost start at which the pattern matches, with its greedy group |
| Classifiers.Capture | backend/services/qa_service.py:71-73 | `re.search(p, q).group(1)` is absent exactly when the pattern matches nowhere |
| Classifiers.CaptureIsLeftmostGreedy | backend/services/qa_service.py:71-73 | a present capture is the group of the leftmost match, taken as long as the rest of the pattern allows |
| Classifiers.Captures | backend/services/qa_service.py:70-71 | there is one capture per pattern (the length only); which capture the focus uses is stated by `Classifiers.CapturesAbsentIff` and `FirstMatchingPatternWins` |
| Classifiers.FirstCapture | backend/services/qa_service.py:70-75 | the first present capture from a position on is absent exactly when every capture from there is absent |
| Classifiers.CapturesAbsentIff | backend/services/qa_service.py:70-75 | every capture is absent exactly when no pattern matches |
| Classifiers.ExtractFocus | backend/services/qa_service.py:48-75 | a non-string gives `None`; a string gives `None` exactly when no pattern matches its normalised form |
| Classifiers.FocusIsTrimmedLower | backend/services/qa_service.py:59-73 | a focus is lower-case and neither starts nor ends with a space, `?` or `.` |
| Classifiers.FirstCaptureOfLowerQuestion | backend/services/qa_service.py:59-73 | the first trimmed capture from a lower-case question is lower-case with trimmed ends |
| Classifiers.NormalisedIsLower | backend/services/qa_service.py:59 | the normalised question is lower-case |
| Classifiers.SliceIsLower | backend/services/qa_service.py:73 | a slice of a lower-case string is lower-case |
| Classifiers.CaptureIsLower | backend/services/qa_service.py:71-73 | the group captured from a lower-case question is lower-case |
| Classifiers.CapturesAreLower | backend/services/qa_service.py:70-73 | every capture from a lower-case question is lower-case |
| Classifiers.TrimmedIsLower | backend/services/qa_service.py:73 | trimming spaces, `?` and `.` keeps a string lower-case |
| Classifiers.FirstCaptureIsTrimmedLower | backend/services/qa_service.py:70-73 | the first present capture, trimmed, is lower-case with trimmed ends when every capture is lower-case |
| Classifiers.FirstMatchingPatternWins | backend/services/qa_service.py:70-73 | the focus is the trimmed group of the first pattern, in list order, that matches |
| Classifiers.FirstCaptureFrom | backend/services/qa_service.py:70-73 | with nothing captured before position k and a capture at k, the first capture is the trimmed capture at k |
| Classifiers.CaptureRestOfLine | backend/services/qa_service.py:62-65 | a `phrase (.+)` pattern matching at the start captures the rest of the first line |
| Classifiers.PhraseThenSpace | backend/services/qa_service.py:38-41 | a phrase ending in a word character and followed by a space starts the text at a word boundary |
| Classifiers.PrefixThenLine | backend/services/qa_service.py:62-65 | a prefix followed by one line occurs at the start, and the rest of the first line is that line |
| Classifiers.DocQuestionNormalises | backend/services/qa_service.py:52-59 | "Does the document mention design patterns?" normalises to its lower-case form |
| Classifiers.DocQuestionIsNegative | backend/services/qa_service.py:35-38 | that question is a negative question |
| Classifiers.DocQuestionFocus | backend/services/qa_service.py:52-54 | its focus is "design patterns" |
| Classifiers.DocTopicTrimmed | backend/services/qa_service.py:73 | trimming "design patterns?" drops the question mark |
| Generation.Frame | backend/services/qa_service.py:81-105 | definition: the prompt f-string around any instructions; properties in `Generation.FramePlacement` and `EchoedFrameYieldsContinuation` |
| Generation.Prompt | backend/services/qa_service.py:83-105 | definition: `Frame` around the fixed instructions; properties in `Generation.EchoedPromptYieldsContinuation` |
| Generation.FramePlacement | backend/services/qa_service.py:81-105 | in the prompt frame, the joined contexts sit right after the instructions, the question after the "Question:" line, and the frame ends with the "Answer:" label and its padding |
| Generation.ExtractAnswer | backend/services/qa_service.py:128-131 | the extracted answer never contains "Answer:", and it is the stripped output when there is no label |
| Generation.ExtractAnswerFollowsLastLabel | backend/services/qa_service.py:128-129 | when there is a label, the answer is the stripped text after an occurrence that no later occurrence follows |
| Generation.EchoedPromptYieldsContinuation | backend/services/qa_service.py:104-105 | if the model echoes the prompt and then continues without a label, the answer is the stripped continuation; nothing of the prompt leaks in |
| Generation.EchoedFrameYieldsContinuation | backend/services/qa_service.py:83-105 | the same for any instructions placed before the contexts: whatever precedes the final label does not reach the answer |
| Generation.ContinuationAfterLastLabel | backend/services/qa_service.py:104-105 | text before a final label and its padding does not reach the answer |
| Generation.PaddingIsBlank | backend/services/qa_service.py:104-105 | the padding after the closing label is whitespace and cannot start the label |
| Generation.MentionsBanned | backend/services/qa_service.py:138-140 | definition: some banned term occurs in the lower-cased answer; used by `Generation.PostProcess` |
| Generation.PostProcess | backend/services/qa_service.py:128-142 | the result is the sentinel or the extracted answer; it is the sentinel when the answer is shorter than 10 or mentions a banned term, and the answer otherwise; a non-sentinel result is at least 10 long, has no label and contains no banned term in any ASCII or Latin-1 letter case |
| Generation.Generate | backend/services/qa_service.py:77-142 | the generator returns the exact sentinel, or a text of at least 10 characters with no "Answer:" and none of Packt, Publishing, Edition, Copyright in any ASCII or Latin-1 letter case |
| Generation.GenerateAfterEcho | backend/services/qa_service.py:123-142 | a model that echoes the prompt yields the stripped continuation or the sentinel, and the sentinel when the continuation strips to fewer than 10 characters |
| Retrieval.Hits | backend/services/qa_service.py:158-160 | definition: the texts the document store returns for the question; properties in `Retrieval.Candidates` and `CandidatesAreChunks` |
| Retrieval.Candidates | backend/services/qa_service.py:154-160 | no documents give no candidates; every candidate is a text of one of the documents |
| Retrieval.CandidatesAppend | backend/services/qa_service.py:156-160 | the candidates are the per-document hits in document order: consecutive document lists give concatenated candidates |
| Retrieval.CandidatesKeepDuplicates | backend/services/qa_service.py:156-160 | a document asked for twice contributes its hits twice |
| Retrieval.CandidatesAreChunks | backend/services/qa_service.py:156-160 | for documents of cleaned passages, every candidate is a passage of one of them |
| Retrieval.Insert | backend/services/qa_service.py:177 | inserting into a ranked list keeps it ranked and adds exactly the new element |
| Retrieval.RankedCons | backend/services/qa_service.py:177 | a head that outranks a ranked list keeps it ranked |
| Retrieval.BelowHead | backend/services/qa_service.py:177 | what is drawn from the tail of a ranked list, together with an element the head outranks, ranks no higher than the head |
| Retrieval.Rank | backend/services/qa_service.py:177 | the ranking is a permutation of the candidates in non-increasing order of score |
| Retrieval.SliceStop | backend/services/qa_service.py:178 | `[:max_chunks]` keeps `min(max_chunks, n)` items when `max_chunks` is non-negative, and drops `-max_chunks` items from the end (all of them if too many) when it is negative |
| Retrieval.Retrieve | backend/services/qa_service.py:144-180 | no candidates give `[]`; the result is a sub-multiset of the candidates, in non-increasing score under the first document's model, of length `min(max_chunks, #candidates)` for `max_chunks >= 0`, and no unselected candidate scores above a selected one |
| Retrieval.TopOfRanking | backend/services/qa_service.py:176-178 | cutting a ranked list leaves it ranked, and what is cut off scores no higher than what is kept |
| Retrieval.CutBelowKept | backend/services/qa_service.py:176-178 | an element after the cut scores no higher than one before it |
| Retrieval.RetrievedAreChunks | backend/services/qa_service.py:154-180 | every retrieved context is a passage of one of the documents asked about |
| UploadRouter.FileName | backend/routers/documents.py:19 | the name is never empty: a missing or empty name becomes "document", any other is kept |
| UploadRouter.Extension | backend/routers/documents.py:22-23 | with no ".", the extension is ""; otherwise it is the lower-cased text after the last "."; it never holds a "." and is lower-case |
| UploadRouter.ExtensionAfterLastDot | backend/routers/documents.py:22-23 | the extension of `stem.ext` is `ext` lower-cased, whatever dots the stem holds |
| UploadRouter.UpperCaseExtensionAccepted | backend/routers/documents.py:22-25 | any name ending in ".PDF", whatever dots come before, has the extension "pdf", which is allowed |
| UploadRouter.LowerPdf | backend/routers/documents.py:23 | "PDF" lower-cases to "pdf" |
| UploadRouter.NoDotRefused | backend/routers/documents.py:23-26 | a name without a dot has the extension "", which is refused |
| UploadRouter.ExtractText | backend/services/document_service.py:5-16 | definition: the lower-cased extension picks a parser, any other fails with "Desteklenmeyen dosya formatı: "; properties in `UploadRouter.ExtractTextIgnoresCase` and `UploadNeverHitsFormatCheck` |
| UploadRouter.ExtractTextIgnoresCase | backend/services/document_service.py:5-16 | the extractor gives the same result for an extension and its lower-cased form |
| UploadRouter.UploadNeverHitsFormatCheck | backend/routers/documents.py:22-31 | an extension the endpoint accepts reaches its parser: the extractor's own format error never fires on the upload path |
| UploadRouter.Process | backend/routers/documents.py:28-37 | on success the raw chunks are the chunker's output on the extracted text and the document is built from them; an extraction error is passed on; chunks that all fail the filter give the empty-document error |
| UploadRouter.Upload | backend/routers/documents.py:14-52 | the upload succeeds exactly when the extension is allowed and processing succeeds; a disallowed extension gives 400 "Sadece PDF ve DOCX dosyaları destekleniyor."; a processing error gives 500 with "Dosya işlenirken hata oluştu: " and its message; a failure leaves the store unchanged; a success stores the document under the fresh id and replies with the id, the name and the raw chunk count |
| UploadRouter.RejectionIgnoresContent | backend/routers/documents.py:25-26 | a disallowed extension is refused before the file is read: the outcome depends on no content, parser, chunker or identifier, and the store is unchanged |
| UploadRouter.UploadAddsOneEntry | backend/routers/documents.py:41-42 | a success under a fresh id adds exactly one entry, holding a well-formed document, and changes no other |
| UploadRouter.UploadKeepsStoreValid | backend/routers/documents.py:28-52 | uploads keep every stored document well formed |
| UploadRouter.NumCharsCountsRawChunks | backend/routers/documents.py:35-47 | the reported `num_chars` counts the raw chunks, never fewer than the stored passages |
| QaRouter.Resolve | backend/routers/qa.py:22-28 | resolution succeeds exactly when every id is stored, and then gives the lookups in request order with duplicates kept; otherwise it fails with 404 "Doküman bulunamadı: " naming the first missing id in request order |
| QaRouter.Contexts | backend/routers/qa.py:32-37 | definition: retrieval with 5 per document and 5 in all; properties in `Retrieval.Retrieve` |
| QaRouter.HasEvidence | backend/routers/qa.py:40 | definition: some context and at least 50 characters of stripped, space-joined context; used by `QaRouter.QaEndpoint` |
| QaRouter.QaEndpoint | backend/routers/qa.py:18-67 | an unknown id fails with its 404; otherwise retrieval runs with k 5 and max 5; thin evidence (no context, or fewer than 50 characters of stripped, space-joined context) gives the sentinel with no contexts; otherwise the contexts are returned unchanged with the generator's answer; at most five contexts; the answer is the sentinel or a screened answer |
| QaRouter.RefusalIgnoresModel | backend/routers/qa.py:40-44 | without evidence, or for an unknown id, the response does not depend on the language model |
| QaRouter.UnknownDocumentFailsFirst | backend/routers/qa.py:22-27 | an unknown id fails the request before any retrieval or generation: the response depends on no oracle |
| QaRouter.SilentModelRefusesWithEvidence | backend/routers/qa.py:53-67 | with evidence, a model that outputs nothing still gives the sentinel, now alongside non-empty contexts |
| QaRouter.EvidenceFromRequestedDocuments | backend/routers/qa.py:32-67 | every context returned is a passage of a document the request named |
| QaRouter.UploadedDocumentResolves | backend/routers/qa.py:22-28 | a document just uploaded resolves under its new id |

## Left out

- Language-model loading and inference, including the tokenizer, the 2048-token
  truncation and the 1024 new tokens, are not modelled. The decoded output is an
  arbitrary function of the prompt.
- Embedding computation and faiss's nearest-neighbour search are not modelled. Faiss is
  a function from the texts, the question and k to neighbour labels. `FaissLabels`
  states what faiss guarantees of them.
- Float cosine similarity is replaced by an integer similarity oracle over the model
  name, the question and the candidate.
- Retrieval.Retrieve: the order among equally scored candidates is not stated, because
  `np.argsort` is not stable.
- Retrieval.Retrieve: a lone candidate is modelled with list semantics. In the code,
  `squeeze()` then makes the similarities a 0-d array.
- Retrieval.Retrieve: the code applies `search` as written to each document, and the model
  writes the corrected search. The faiss labels are unconstrained, so every result the
  search as written can give is also given by the corrected search for some labels
  (`Embedding.AsWrittenIsSearchOfRelabelled`). The
  contracts of `Retrieve` and `QaEndpoint` therefore hold for the code as written too; see
  Findings.
- Retrieval.Retrieve: the embedding model of the first document is only the name
  handed to the similarity oracle.
- Documents.NewDocument: the `build_index` error "Geçerli embedding üretilemedi." for a
  malformed embedding matrix, raised while the document is constructed, is not modelled.
  Errors raised by the embedding model, faiss and the language model are not modelled
  either.
- `split_into_chunks` is not part of this model. It is imported by
  backend/routers/documents.py but not defined in backend/services/documents.py. The
  chunker is a function from text to chunks or an error.
- PDF and DOCX parsing are not modelled. They are functions from bytes to text or an
  error.
- The uuid is not generated. It is the `freshId` parameter, and freshness is assumed
  only by `UploadAddsOneEntry`.
- The asynchronous `file.read()` and its possible failure are not modelled.
- HTTP framing, FastAPI validation and concurrent access to the store are not modelled.
- The front end and the application wiring are not modelled.
- PyStr.Lower: lower-cases only ASCII and Latin-1 capitals. Other Unicode case mappings
  are left out, including those that change length.
- Classifiers.IsNegativeQuestion: the `\w` of a word boundary covers only ASCII
  letters, digits and `_`, and Latin-1 letters and digits. A question whose boundary
  character lies outside Latin-1 may classify differently.
- Classifiers.ExtractFocus: the same `\w` and lower-case limits apply.
- Generation.PostProcess: the banned terms are compared under the Latin-1 lower-casing.
  Python's `str.lower` maps more, for instance the Kelvin sign U+212A to "k", so
  "Pac\u212At" is refused by the code but passes the model's screen. The promise "no
  banned term in any letter case" holds only for ASCII and Latin-1 case.
- The code has none of the following, so neither does the model:
  - keyword or named-entity scoring;
  - a relevance threshold that blends scores;
  - de-duplication of candidates;
  - a sliding-window chunker;
  - a generator that returns early on empty contexts;
  - stripping of leaked labels beyond the last "Answer:".

## Findings

| source | as written | input that shows it | evidently intended | confidence | as-written member | corrected member |
|---|---|---|---|---|---|---|
| backend/services/embedding_service.py:36-40 | keeps each faiss label `idx` with `idx < len(self.texts)`, so faiss's padding label -1 passes and `self.texts[-1]` adds the last passage | a document with one passage searched with `k=3`: faiss returns `[0, -1, -1]` and the search returns that passage three times (five times at the endpoint's `k=5`), so the global ranking sees it repeatedly | keep only labels `0 <= idx < len(self.texts)`, at most one hit per stored passage | not executed | Embedding.SearchAsWrittenRepeatsLastText | Embedding.SearchWithinStore |
