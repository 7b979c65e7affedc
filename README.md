# Question-paper store: verified model of its upload, delete, analysis and selection rules

The service stores university question papers as PDF files in an upload
folder and keeps one row per paper (subject, branch, regulation, file name)
in a `papers` table. Its browser script lists the papers, lets the user
search them, select several and ask a language model to compare them.

This Dafny project models the rules inside that service:

- **File names** (`file_names.dfy`, module `FileNames`): which client file
  names are accepted (`allowed_file`), how `os.path.splitext` divides a name,
  and the loop that renames an upload that would clash with a stored file to
  `base_1.ext`, `base_2.ext`, ... The loop is proved to end, and the name it
  picks is proved to be the least free one and never a stored file.
- **Upload and delete** (`papers.dfy`, module `Papers`): the ordered
  validation ladder of `upload_paper`, the save-then-insert sequence with the
  removal of the saved file when the insert fails, and `delete_paper_file`
  (row first, then the file if present, success either way). The upload
  folder is a set of names and the table a sequence of rows, both fields of
  the class `PaperStore`, which the two handlers update. Both handlers keep
  the invariant "every row names a stored file".
- **Multi-file analysis** (`analysis.dfy`, module `Analysis`): the two request
  checks, reading the requested files in request order up to the first
  missing or unreadable one, and the assembly of `combined_text` from
  START/END-delimited blocks and of the prompt that embeds the user's
  instruction.
- **Browser state** (`client.dfy`, module `Client`): `selectedFiles` as kept
  by the checkbox handler (class `PageState`), the selected-count label and
  the analyze button, the search filter, and the option list built by
  `populateSelect`.
- Shared helpers: `strings.dfy` (ASCII lower-casing, substring search,
  decimal numerals, last occurrence of a character), `seqs.dfy`
  (order-preserving filter, duplicate-freedom, sublists), `api.dfy` (rows and
  JSON responses), `wrappers.dfy` (Option and Result).

Calls into code outside the model are parameters of the operations that make
them: werkzeug's `secure_filename` is an arbitrary `string -> string`
function, PyPDF2 text extraction an arbitrary `string -> Option<string>`
(None when reading or parsing raises), the language-model call an arbitrary
`string -> string`, and the success of each database statement a `bool`.
`os.path.exists` is membership in the set of stored names, with one case
taken from the code: an empty sanitized name joins to the upload folder
itself, which exists. So an upload whose sanitized name is empty is renamed to `_i` for the least free i, like any other clashing name. On
delete it reaches `os.remove` on a directory, which raises, so the response
is the internal-error one after the rows are gone. On analysis, opening the
folder fails, giving a 500 response.

## Model

| member | source | states |
|---|---|---|
| `FileNames.AllowedFileIff` | pdfstorage/main.py:47-49 | A name is accepted iff it is at least four characters long, its fourth-last character is a dot and its last three characters, lower-cased, are "pdf"; that is, the text after the last dot, lower-cased, is "pdf" |
| `FileNames.AcceptedExamples` | pdfstorage/main.py:47-49 | "a.PDF" and "x.exe.pdf" are accepted |
| `FileNames.RejectedExamples` | pdfstorage/main.py:47-49 | "a.pdf.exe" and "pdf" are rejected |
| `FileNames.SplitExt` | pdfstorage/main.py:220 | splitext divides the name into base and extension that concatenate back to it. The extension is empty or runs from the last dot, with a non-dot character before that dot; it is non-empty whenever some dot has a non-dot character before it |
| `FileNames.CandidateInjective` | pdfstorage/main.py:222-224 | Different counters give different alternative names `base_i.ext`, so each loop turn tries a name not tried before |
| `FileNames.ResolveName` | pdfstorage/main.py:216-225 | The rename loop ends. The chosen name is the sanitized name when that is free, and otherwise `base_i.ext` for the least i >= 1 that is free; the chosen name is never stored already |
| `FileNames.FreeNameIsFree` | pdfstorage/main.py:219-227 | The name an upload is saved under is not in the upload folder, so saving never overwrites a stored file |
| `FileNames.FreeNameUnique` | pdfstorage/main.py:219-225 | For a given folder and name there is exactly one name the rename rule can choose |
| `Papers.FirstFailing` | pdfstorage/main.py:200-215 | Returns the first check of the list that the request fails, every earlier check passing, and nothing exactly when every listed check passes |
| `Papers.UploadRejectionIsFirstFailing` | pdfstorage/main.py:200-239 | The upload ladder reports, with status 400, the first failed check in the order file part, file name, subject/branch/regulation, file type, and lets the request through iff all four pass |
| `Papers.WithoutFileSpec` | pdfstorage/database.py:111-114 | Deleting rows by file name removes every row with that name, keeps every other row as many times as it occurred and keeps the survivors in order; with no such row the table is unchanged |
| `Papers.PaperStore.Upload` | pdfstorage/main.py:199-239 | A rejected request changes neither folder nor table. An accepted one saves under the chosen free name and, when the insert succeeds, adds the row and answers 201 with that name. When the insert fails the saved file is removed, so folder and table equal their prior values, and the answer is 500. Every row names a stored file, before and after |
| `Papers.PaperStore.Delete` | pdfstorage/main.py:113-135 | An empty name gets 400 and changes nothing. A failing delete statement gets 500 and changes nothing. Otherwise all rows with the sanitized name are removed, then that file, and the answer is success whether or not the file existed. Every row names a stored file, before and after |
| `Analysis.AnalyzeRejection` | pdfstorage/main.py:142-150 | A request passes iff "filenames" is a list of at least two names and the prompt is non-empty; a bad file list is reported before a missing prompt, both with status 400 |
| `Analysis.Collect` | pdfstorage/main.py:154-170 | Reading the requested files yields one document per name in request order when all can be read; otherwise it yields the error of the first name that is missing (404) or unreadable (500), all earlier names being readable |
| `Analysis.CollectFailureExtends` | pdfstorage/main.py:154-158 | Once a prefix of the request's names fails, the whole request fails with that same response: later files are never consulted |
| `Analysis.BlockInOrder` | pdfstorage/main.py:152-167 | In combined_text, document k's START/END block comes right after the blocks of documents 0..k-1 and right before the later ones |
| `Analysis.CombinedTextSnoc` | pdfstorage/main.py:167 | Reading one more file appends exactly its block to combined_text |
| `Analysis.FinalPrompt` | pdfstorage/main.py:172-179 | The prompt starts with the fixed introduction and the instruction lead, holds the user's instruction at that fixed offset, and ends with combined_text |
| `Analysis.AnalyzeMultiple` | pdfstorage/main.py:140-187 | A request failing the two checks gets that check's 400 response before any file is looked at. Otherwise the first missing or unreadable file's error is returned; if there is none, the model's answer to the prompt built from all blocks in request order is returned |
| `Strings.ContainsIffOccurs` | pdfstorage/static/script.js:237-239 | `includes` holds iff the term occurs as a contiguous block at some position |
| `Client.CheckedSpec` | pdfstorage/static/script.js:140-143 | After a check the list is duplicate-free and holds the name exactly once. The old entries remain as a prefix in their order, and the list grows by one exactly when the name was new, which is then the last entry |
| `Client.UncheckedSpec` | pdfstorage/static/script.js:144-146 | After an uncheck the name occurs nowhere and every other name keeps its count. The remaining entries keep their relative order, and a duplicate-free list stays duplicate-free |
| `Client.ButtonMatchesServerRule` | pdfstorage/static/script.js:153-157 | The button is enabled iff two or more files are selected, which is exactly when the server's file-list check passes; with a non-empty instruction the request then passes the server's two request checks |
| `Client.PageState.UpdateAnalyzeButtonState` | pdfstorage/static/script.js:150-158 | The label shows the selection's length and the button is disabled iff fewer than two files are selected |
| `Client.PageState.HandleFileSelection` | pdfstorage/static/script.js:138-148 | The selection becomes the checked or unchecked list. It stays duplicate-free, holds a checked name once and an unchecked name not at all, and the label and the button are in step with it afterwards |
| `Client.SearchSpec` | pdfstorage/static/script.js:234-240 | The search shows exactly the papers whose lower-cased subject, branch or regulation contains the lower-cased term, as a sublist of allPapers in original order, each matching paper as often as it occurs. An empty term shows every paper, and the term's case does not matter |
| `Client.PageState.OnSearchInput` | pdfstorage/static/script.js:234-241 | The handler shows exactly the papers of allPapers that match the lower-cased term, as a sublist in their original order, and every paper for an empty term |
| `Client.PageState.PapersFetched` | pdfstorage/static/script.js:53 | A successful fetch replaces allPapers with the fetched rows |
| `Client.PopulateSelect` | pdfstorage/static/script.js:37-45 | The drop-down holds the placeholder option followed by one option per given value, in order, with value and text equal to that value |

## Left out

- `get_summary_from_gemini` (pdfstorage/main.py:52-77) is an HTTP call; the model takes its result as an arbitrary function of the prompt.
- Analysis.AnalyzeMultiple: the 500 response for an exception that escapes the model call (pdfstorage/main.py:185-187) is not modelled. The helper turns request and parsing errors into text, so this branch is reached only by malformed replies, such as a JSON reply that is not an object.
- Analysis.ReadDocument: the 500 message ends with the exception's text in the source; the model keeps only the fixed part "Failed to read or parse <name>".
- PDF text extraction with PyPDF2, including the page loop, is an arbitrary function of the stored name.
- The single-file analysis route `analyze_pdf` (pdfstorage/main.py:87-110), `get_papers`, the static drop-down endpoints and their lists, and the routes that serve static pages and stored files are Flask glue around foreign libraries.
- Papers.PaperStore.Upload: the `url` member of the success response, which comes from Flask's `url_for`, is not modelled.
- werkzeug's `secure_filename` is an arbitrary function; its source is not part of this model.
- FileNames.SplitExt: models `os.path.splitext` only for names without directory separators, which `secure_filename` never produces.
- Lower-casing covers ASCII letters only; Python's `str.lower` and JavaScript's `toLowerCase` also map other Unicode letters.
- A `file.save` that raises (pdfstorage/main.py:227) is not modelled, and neither is an `os.remove` that raises during the upload rollback or during delete for a regular file.
- The database layer (pdfstorage/database.py connection handling, the id and upload_date columns, the listing order) and pdfstorage/init_db.py are not part of this model; only the effect of the insert and delete statements on the rows is.
- A request body that is not JSON, a prompt that is not a string, and list entries that are not strings are not modelled.
- Handlers run one at a time; two uploads racing between the existence test and the save are not modelled.
- DOM rendering (`displayPapers`), `fetch`, `confirm`, the message box timer, the modal, date formatting and the client's delete handler are UI and asynchronous I/O.
- The selected-count label and the analyze button take their first values from the page markup, which is not part of this model. They agree with the selection after its first change.
