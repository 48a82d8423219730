# CLASH, modelled in Dafny

CLASH is a small web application that compares documents. A user uploads two to five PDF or
text files and asks one question. A language model then extracts each document's answer,
says whether the answers conflict and why, and recommends which one to trust. The results
step shows the answers and can copy or download them as a plain-text report.

This project models the pieces of CLASH that hold sequential logic:

- **The edge function** (`EdgeHandler`, in `edge_handler.dfy`) that answers
  `POST /api/analyze`. It covers:
  - the guards, in their order;
  - the loop that collects the `file_*` form entries;
  - the chunked "binary string" and its base64 encoding (`Base64`, section 4 of RFC 4648);
  - removal of markdown code fences from the reply;
  - the fallback when the reply does not parse;
  - the shaping of the response.
- **The serverless handler** (`ServerlessHandler`) with the same route and different defaults.
- **The upload step** (`Upload`): the type filter, the 5-document cap, the 30 MiB per-file
  limit, the 50 MiB total limit, appending, and removal.
- **The results step** (`Results`): the mapping from the legacy `conflicts` list to answers,
  the `hasConflict` default, and the copy and download texts.
- **The question step** (`Question`): the submit predicate and the suggestion template.
- **The browser client** (`GeminiService`): the data-URL payload, the request body and the
  error message.
- **The application shell** (`AppShell`): a class with the four state fields and one method
  per handler.

The shared records of `types.ts` are the datatypes of `Types`. JavaScript's string built-ins
(`trim`, `split`, `join`, `replace`, `toLowerCase`) are in `Text`.

The following are parameters rather than modelled:

- the model's reply;
- the JSON parser (`parse`);
- the clock (`now`, `date`);
- the random ids (`ids`);
- the `FileReader` result (`read`);
- the outcome of `fetch` (`ServerReply`, `Upstream`, `ModelCall`).

The error paths are modelled as the code takes them:

- The edge function answers 400, 500 and 502 with `{error, ...}` bodies.
- The serverless function answers 405, 400 and 500.
- The browser client throws on every non-ok status; it never substitutes a defaulted result.

## Model

| member | source | states |
|---|---|---|
| Text.TrimStart | functions/api/analyze.ts:171 | the `\s*` after a fence: the result is a suffix of the input, everything dropped is whitespace, and the result does not start with whitespace |
| Text.Trim | functions/api/analyze.ts:171 | `trim`: never longer than the input, empty exactly when the input is all whitespace, otherwise neither end is whitespace |
| Text.TrimPadded | components/QuestionStep.tsx:21 | whitespace on both sides of a string with non-space ends is exactly what `trim` removes |
| Text.Split | services/geminiService.ts:10 | `split(',')`: at least one part, no part holds the separator, and joining the parts with it gives the input back |
| Text.SplitJoin | services/geminiService.ts:10 | splitting a join of separator-free parts gives the parts back |
| Text.ReplaceChar | components/ResultsStep.tsx:58 | `replace(/\//g, '-')`: same length, every occurrence replaced, every other character kept |
| Text.Lower | components/QuestionStep.tsx:64 | `toLowerCase`: same length, each character lower-cased on its own |
| Text.JoinSnoc | components/ResultsStep.tsx:24 | `join(sep)` of a list with one more part is the old join, the separator and that part (the join of one part is the part) |
| Text.NatToStringValue | components/ResultsStep.tsx:40 | the decimal numeral printed for a number reads back as that number |
| Base64.BinaryString | functions/api/analyze.ts:63-65 | the string built by `String.fromCharCode` has one character per byte |
| Base64.BinaryStringCodes | functions/api/analyze.ts:64 | character i of the binary string has code unit `bytes[i]` |
| Base64.EncodeLength | functions/api/analyze.ts:68 | the base64 text has 4*ceil(n/3) characters from the alphabet, with pads only in the last two positions |
| Base64.DecodeEncode | functions/api/analyze.ts:68 | decoding the base64 of any bytes gives those bytes back |
| Base64.EncodeDecode | functions/api/analyze.ts:68 | every text the canonical decoder accepts is the encoding of what it decodes to |
| Base64.DecodeIffEncoding | functions/api/analyze.ts:68 | `Decode(s) == Some(b)` exactly when `s` is the encoding of `b` |
| Base64.BtoaBinaryString | functions/api/analyze.ts:68 | `btoa` never throws on a binary string, and its output is the base64 of the bytes |
| Types.OrElse | functions/api/analyze.ts:193-194 | `s \|\| d`: the value when it is present and non-empty, the default otherwise |
| EdgeHandler.Chunk | functions/api/analyze.ts:60-66 | chunk k holds 1..1024 characters, and exactly 1024 unless it is the last |
| EdgeHandler.ChunkString | functions/api/analyze.ts:61-65 | the inner loop builds the binary string of `bytes[i..end]` |
| EdgeHandler.BinaryChunks | functions/api/analyze.ts:58-67 | the outer loop makes ceil(n/1024) chunks, chunk k is `Chunk(bytes, k)`, and their join is the binary string of the whole buffer |
| EdgeHandler.ChunkSizes | functions/api/analyze.ts:59-67 | every chunk but the last is full, the last holds 1..1024 characters, and an empty buffer gives no chunks |
| EdgeHandler.EncodeFile | functions/api/analyze.ts:55-68 | the encoded data is the base64 of the file's bytes and decodes back to them |
| EdgeHandler.FileIndices | functions/api/analyze.ts:40-41 | the selected entries are exactly those with a `file_` key and a file value, each once, in form order |
| EdgeHandler.CollectFiles | functions/api/analyze.ts:36-89 | `fileParts` and `fileNames` grow together: same length, one entry per selected file, in form order, with the type defaulted to `application/pdf` |
| EdgeHandler.FormGet | functions/api/analyze.ts:26 | `formData.get` is None exactly when no entry has the key, and otherwise the value of the first entry with the key |
| EdgeHandler.QuestionOf | functions/api/analyze.ts:26-27 | the question is falsy exactly when the field is missing or the empty text, and a text field gives its text |
| EdgeHandler.PromptParts | functions/api/analyze.ts:100-128 | the prompt opens with the instructions and the question, holds the file names joined by ", ", and ends with the task |
| EdgeHandler.RemoveJsonFences | functions/api/analyze.ts:171 | the first replacement never lengthens the text |
| EdgeHandler.RemoveFences | functions/api/analyze.ts:171 | the second replacement never lengthens the text |
| EdgeHandler.CleanReply | functions/api/analyze.ts:171 | the cleaned reply is never longer than the reply |
| EdgeHandler.RemoveFencesNoFence | functions/api/analyze.ts:171 | after the second replacement no three backticks remain in a row |
| EdgeHandler.CleanReplyNoFence | functions/api/analyze.ts:171 | the cleaned reply holds no code-fence marker |
| EdgeHandler.CleanReplyTrimmed | functions/api/analyze.ts:171 | the cleaned reply neither starts nor ends with whitespace |
| EdgeHandler.RemoveJsonFencesPlain | functions/api/analyze.ts:171 | text without backticks passes the first replacement unchanged |
| EdgeHandler.RemoveFencesPlain | functions/api/analyze.ts:171 | text without backticks passes the second replacement unchanged |
| EdgeHandler.OpeningFenceRemoved | functions/api/analyze.ts:171 | the opening "```json" is deleted together with the whitespace after it |
| EdgeHandler.ClosingFenceRemoved | functions/api/analyze.ts:171 | the closing "```" is deleted |
| EdgeHandler.FencedReply | functions/api/analyze.ts:171 | a JSON body wrapped in a ```json fence comes out exactly as the body |
| EdgeHandler.ParseOrFallback | functions/api/analyze.ts:174-184 | a parse failure gives no conflicts, the text as explanation and "Could not parse structured response"; otherwise the parsed record |
| EdgeHandler.UpstreamResponse | functions/api/analyze.ts:158-196 | a failed model call gives 502 with the upstream status and at most 500 characters of its body; a successful one gives 200 echoing the question with the clock's timestamp, and the conflicts, explanation and recommendation of the parsed (or fallback) record, each defaulted to [] or "" |
| EdgeHandler.UnparsableReply | functions/api/analyze.ts:171-196 | an unparsable reply still gives 200, with no conflicts, the cleaned reply as explanation and the fixed recommendation |
| EdgeHandler.OnRequestPost | functions/api/analyze.ts:16-152 | guards in order: missing key 500, missing question 400, no files 400, and no model call on those paths; otherwise one part per selected file in form order, then the prompt naming the files in that order |
| ServerlessHandler.Prompt | api/analyze.ts:59-72 | the prompt is the fixed instructions with the question quoted inside: it starts with the opening text and the question and ends with the closing text |
| ServerlessHandler.FileParts | api/analyze.ts:23-28 | one part per file, same order, with `data` and `mimeType` copied |
| ServerlessHandler.Handler | api/analyze.ts:4-98 | non-POST gives 405 first; a missing or non-array `files` or a falsy question gives 400 (an empty array passes); a missing key gives 500 after that; the model is called exactly when all three pass; a 200 echoes the question |
| ServerlessHandler.ReplyFailures | api/analyze.ts:87-104 | a throw, an empty text or a parse failure gives 500 with the fixed error and the reason in `details` |
| ServerlessHandler.ReplySuccess | api/analyze.ts:90-98 | a parsed reply gives 200 with the conflicts or [], and the explanation and recommendation or their non-empty defaults |
| Upload.ValidFiles | components/UploadStep.tsx:25 | exactly the files typed `application/pdf` or `text/plain` are kept, and nothing is dropped exactly when all are of those types |
| Upload.ValidFilesAppend | components/UploadStep.tsx:25 | filtering a list is filtering its parts and concatenating, so the kept files stay in order with their multiplicity |
| Upload.Oversized | components/UploadStep.tsx:41 | exactly the files above 30 MiB |
| Upload.OversizedFirst | components/UploadStep.tsx:41-43 | the file the message names is the first oversized one in the batch |
| Upload.MessageIdentifies | components/UploadStep.tsx:28-48 | two refusals print the same message only if they are the same refusal, or both total-size refusals with the same rounded total |
| Upload.Refusal | components/UploadStep.tsx:31-50 | no refusal exactly when the count, every accepted file's size and the total are within limits; a size refusal names an accepted oversized file |
| Upload.ProcessFiles | components/UploadStep.tsx:23-58 | the call always settles; a change keeps the old list as its prefix and adds one entry per accepted file, and happens exactly when nothing is refused |
| Upload.Uploaded | components/UploadStep.tsx:52-55 | one new entry per accepted file, in order, with the drawn id |
| Upload.TotalSizeAppend | components/UploadStep.tsx:38 | the total of two lists is the sum of their totals |
| Upload.Tenths | components/UploadStep.tsx:48 | the total printed in the message is the number of MiB rounded to the nearest tenth |
| Upload.MegabytesValue | components/UploadStep.tsx:48 | the printed total is digits, a point and one digit, and it reads back as the rounded tenths |
| Upload.AcceptIff | components/UploadStep.tsx:23-58 | the list changes exactly when the count, each accepted file's size and the total are within limits; the new list is the old one followed by the accepted files in order; the type message remains exactly when a file was dropped; "Maximum 5 documents." wins over everything |
| Upload.RejectsOversized | components/UploadStep.tsx:41-45 | a batch holding an accepted file over 30 MiB is refused, naming the first such file (30 MiB exactly passes) |
| Upload.RejectsTotal | components/UploadStep.tsx:38-50 | a batch whose combined size is above 50 MiB is refused with the total (50 MiB exactly passes) |
| Upload.ProcessKeepsLimits | components/UploadStep.tsx:31-57 | from a list within the limits, an accepted batch leaves a list within the limits, so starting from empty the list never passes five files |
| Upload.RemoveFile | components/UploadStep.tsx:68-70 | exactly the entries with the id are dropped, and a list without the id is unchanged |
| Upload.RemoveFileAppend | components/UploadStep.tsx:69 | removal distributes over concatenation, so the kept entries stay in order with their multiplicity |
| Upload.RemoveTotal | components/UploadStep.tsx:68-70 | removal never increases the total size |
| Upload.RemoveKeepsLimits | components/UploadStep.tsx:68-70 | removal keeps a list within the limits |
| Upload.DemoFiles | components/UploadStep.tsx:72-82 | the demo holds two text files of accepted type |
| Upload.ShownControls | components/UploadStep.tsx:112-171 | "Continue" shows exactly with two or more files, the demo link exactly with none, the add-another tile exactly with one to four; the first two never together |
| Upload.DemoLoads | components/UploadStep.tsx:72-83 | loading the demo on the empty list leaves exactly its two files and no message, and "Continue" is then shown |
| Upload.ProcessFilesAsWritten | components/UploadStep.tsx:38-41 | as written, the call throws exactly when the count check passes and some file was accepted, and otherwise never changes the list |
| Upload.AsWrittenNeverUploads | components/UploadStep.tsx:38-57 | as written no call adds a file, and the demo throws; the corrected version adds the demo's files |
| Results.Answers | components/ResultsStep.tsx:14-19 | `answers` when present; otherwise one answer per legacy conflict, in order, with the context as quote and no page; none when both lists are missing |
| Results.HasConflict | components/ResultsStep.tsx:21 | the explicit field when defined, `false` included; otherwise more than one answer |
| Results.CopyLines | components/ResultsStep.tsx:24 | one "value ← source" line per answer, in order |
| Results.CopyTextJoin | components/ResultsStep.tsx:24 | the copy text is the question line, the answer lines (an empty line when there are none), the verdict, the explanation and "→ recommendation", joined by newlines with blank lines between the blocks |
| Results.CopyTextLines | components/ResultsStep.tsx:24 | for single-line fields, splitting the copy text at newlines gives exactly those lines in that order, with no answers too |
| Results.QuoteText | components/ResultsStep.tsx:41 | a missing or empty quote prints "No quote available", and any other quote prints itself |
| Results.PageSuffix | components/ResultsStep.tsx:40 | empty exactly when the page is missing or 0; otherwise " (page " and digits that read back as the page, then ")" |
| Results.DownloadText | components/ResultsStep.tsx:30-52 | `trim` of the template removes only the leading line break and the trailing whitespace: the report starts with the header and verdict and is their join with the reasons, trailing whitespace dropped |
| Results.Entries | components/ResultsStep.tsx:40-41 | one report entry per answer, in order |
| Results.LegacyEntries | components/ResultsStep.tsx:14-41 | a legacy entry prints no page and quotes the context, or "No quote available" when it is empty |
| Results.DownloadConsistent | components/ResultsStep.tsx:31-52 | without a conflict the report is exactly the header and "✓ VALUES CONSISTENT": no "WHY THEY DIFFER" and no recommendation |
| Results.DownloadIgnoresReasons | components/ResultsStep.tsx:43-52 | without a conflict the report does not depend on the explanation or the recommendation |
| Results.DownloadConflict | components/ResultsStep.tsx:31-52 | with a conflict, for every explanation and recommendation, the report is the header, the warning and the reasons section, only the recommendation's trailing whitespace trimmed (none when it ends in a non-space character) |
| Results.DownloadMentions | components/ResultsStep.tsx:45-51 | with a conflict the report contains the explanation and ends with "→ " and the trimmed recommendation, and with the recommendation itself when that ends in a non-space character |
| Results.DownloadFileName | components/ResultsStep.tsx:58 | the file name is "clash-analysis-", the date with every "/" turned into "-", then ".txt": prefix and suffix fixed, same length as the date plus 19 |
| Results.ShownPanels | components/ResultsStep.tsx:113-145 | the explanation panel shows exactly when the explanation is non-empty (titled "Why They Differ" exactly on a conflict); the recommendation panel exactly on a conflict with a non-empty recommendation |
| Question.Submit | components/QuestionStep.tsx:19-24 | `onAnalyze` is called exactly when the trimmed question is longer than 3, with the untrimmed question; blank or short input never submits |
| Question.VisibleIffSubmits | components/QuestionStep.tsx:73 | the submit button is visible exactly when submitting calls `onAnalyze` |
| Question.SubmitPadded | components/QuestionStep.tsx:21-22 | padding decides nothing: a padded question submits exactly when the bare one does, and is passed with its padding |
| Question.Suggestion | components/QuestionStep.tsx:64 | the template "What is the " + lower-cased label + "?" |
| Question.SuggestionSubmits | components/QuestionStep.tsx:64 | every suggested question satisfies the submit predicate and shows the button |
| GeminiService.DataPayload | services/geminiService.ts:10 | undefined exactly when the data URL holds no comma; otherwise the comma-free text after the first comma, up to the next comma or the end |
| GeminiService.DataUrlPayload | services/geminiService.ts:8-10 | for "data:<mime>;base64,<payload>" with no comma in type or payload, the result is exactly the payload |
| GeminiService.Payloads | services/geminiService.ts:11-14 | one payload per uploaded file, in list order, with the file's type unchanged |
| GeminiService.Analyze | services/geminiService.ts:45-55 | success exactly when the server answered ok; a refusal surfaces the server's non-empty `error` or "Failed to analyze documents"; an exception keeps its message; the caller never sees an empty message |
| GeminiService.RequestReachesModel | services/geminiService.ts:26-43 | with a question and a key, the serverless handler passes the request and the model receives each file's payload and type in list order |
| GeminiService.EmptyQuestionRefused | services/geminiService.ts:45-47 | an empty question is refused with 400 and the caller sees "Missing files or question" |
| AppShell.App.constructor | App.tsx:10-13 | the app starts in UPLOADING with no files, an empty question and no result |
| AppShell.App.CurrentView | App.tsx:56-81 | each state renders its step; the results step only with a result |
| AppShell.App.ValidNeverBlank | App.tsx:75 | under the invariant (LANDING never entered, RESULTS always holds a result) some step is always rendered |
| AppShell.App.Continue | App.tsx:60 | continue moves to QUESTION, keeping the files, the question and the result |
| AppShell.App.Back | App.tsx:67 | back moves to UPLOADING, keeping the files |
| AppShell.App.AddFiles | App.tsx:59 | the files become the list the upload step hands on, or stay as they were when it refuses; the limits hold afterwards |
| AppShell.App.RemoveFile | App.tsx:59 | the files lose exactly the entries with the id |
| AppShell.App.StartAnalysis | App.tsx:15-17 | analyze stores the question and moves to PROCESSING |
| AppShell.App.AnalysisSettled | App.tsx:19-26 | success stores the result and moves to RESULTS; failure alerts and returns to QUESTION, keeping the files, the question and the previous result |
| AppShell.App.Reset | App.tsx:29-34 | reset clears files, question and result and returns to UPLOADING |
| AppShell.App.AnalyzeAnother | App.tsx:36-40 | analyze-another clears question and result, keeps the files, and goes to QUESTION |
| AppShell.AnswerSession | App.tsx:10-22 | a session of upload, continue and a successful analysis ends on the results step showing that answer, holding the question and the accepted files |

## Left out

- The outbound model calls, the debug-log `fetch`es, `formData()`, `arrayBuffer()`, `FileReader`, the clipboard, `alert` and the `Blob` download. These are I/O. Their results are parameters, and `AnalysisSettled` returns the alert text instead of showing it.
- The edge function's catch-all 500 (functions/api/analyze.ts:198-206) is left out, with the exceptions that reach it. Besides failures of the I/O above, one comes from the reply itself: a reply that parses to `null` makes `parsed.conflicts?.length` (line 187), and then `parsed.conflicts` (line 192), throw a TypeError, which that catch answers with 500, `{error, stack}`. `EdgeHandler.UpstreamResponse` covers only replies that parse to an object or do not parse. The serverless handler's equivalent (`data.conflicts` on `null`, api/analyze.ts:94) is covered: `parse` may return `Failure` with the TypeError's message.
- The base64 failure branch (functions/api/analyze.ts:69-74) cannot be taken, because `btoa` never throws on a binary string (`Base64.BtoaBinaryString`).
- How the reply text is found in the model's JSON (functions/api/analyze.ts:168) is left out. `Upstream.replyText` is that text.
- The JSON grammar of `JSON.parse` and `JSON.stringify` is not modelled. The parser is the parameter `parse`. `data as AnalysisResult` in the client is not validated, so `Answered` carries the decoded result.
- The response schema, the temperature setting and the CORS headers of `onRequestOptions` are constants with no logic. They are left out.
- `Date.now()` and `toLocaleDateString()` are the parameters `now` and `date`.
- `Math.random` ids are the parameter `ids`. Freshness is not assumed: `RemoveFile` drops every entry that carries the id.
- The KB size shown per file (components/UploadStep.tsx:125) is left out. It is display-only floating point.
- Upload.Tenths: `toFixed(1)` on the float `total / 1024 / 1024` is computed as integer round-half-up of `total * 10 / 1048576`. This is exact: that quotient is a binary fraction the double holds exactly, and `toFixed` rounds an exact tie up, as the integer rounding does. Only sizes beyond 2^53 bytes, where the double loses precision, would differ.
- Strings are sequences of Unicode characters, not UTF-16 code units. `trim().length > 3` therefore counts characters outside the Basic Multilingual Plane once, not twice.
- Text.Lower: it lower-cases ASCII letters only. JavaScript's `toLowerCase` also maps other scripts.
- Values of the wrong JSON type are not modelled: a question that is not a string, or a page that is not an integer. In the edge function a file in the `question` form field is rendered into the prompt as "[object File]" (`EdgeHandler.QuestionOf`), but is echoed in the response as `JSON.stringify` renders a `File`, `{}`; the model echoes "[object File]" there. The serverless handler's `question` is an optional string, and a page is an optional integer in which 0 is falsy.
- The `async` scheduling is left out. `handleAnalyze` is split at its await into `StartAnalysis` and `AnalysisSettled`. `Promise.all` keeps list order, which is all that `Payloads` states.
- A rejected `FileReader` (services/geminiService.ts:16) rejects `Promise.all`. That happens outside the `try`, so the caller sees the reader's own error. This path is left out.
- The drag state, the processing animation, the button styles and the JSX layout are presentation only.

## Findings

| source | as written | input that shows it | evidently intended | confidence | as-written member | corrected member |
|---|---|---|---|---|---|---|
| components/UploadStep.tsx:38-41 | the total and the oversized filter read `f.file.size` on the new entries, but those are plain `File` objects with no `file` property, so the sum throws a TypeError | the demo batch (two text files) on an empty list: the count check passes and the first accepted file makes `f.file.size` throw, so nothing is added | read each new file's own `size`, then append the accepted files | not executed | Upload.ProcessFilesAsWritten, Upload.AsWrittenNeverUploads | Upload.ProcessFiles, Upload.AcceptIff |
