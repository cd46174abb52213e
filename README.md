# PDF ingestion and question answering, modelled in Dafny

The repository has two programs that share a Chroma vector collection:

- `ingest_pdf.py` reads a PDF and normalises the whitespace of each page. It then cuts the text into overlapping token windows (`token_chunks`) and adds one vector record per window to the collection. Each record gets the id `<basename>_chunk_<i>` and the metadata `{source_pdf, ts}`.
- `app.py` is a Flask application with accounts (`/register`, `/login`), a question endpoint and a listing. The question endpoint is `/ask`. It sends the prompt to a completion service, adds the exchange to the vector collection, and appends a row to the query log. The listing is `/dashboard`: the latest 50 log rows, newest first, each with its user's name.

The Dafny project models both programs:

- `wrappers.dfy` holds `Option` and `Result`.
- `strings.dfy` holds the Python string operations the code relies on. These are `str.isspace`, `str.strip()`, `str.split()`, `" ".join` and `str(n)`, each with its properties. The properties include the split/join round trips and the injectivity of decimal strings.
- `vector_records.dfy` holds the record a collection stores: a document and a metadata map.
- `chunking.dfy` holds `token_chunks`. It is a method with the code's loop, proved equal to a window function built on Python's `range`. The lemmas give:
  - the window count and the window bounds;
  - coverage and the overlap of consecutive windows;
  - what happens for a zero or a negative step.

  The file also holds a corrected chunker; see Findings.
- `ingest_pdf.dfy` holds `pdf_to_text`, POSIX `os.path.basename`, and the id and metadata lists of the `col.add` batch. It also holds the ingestion run that composes them.
- `app.dfy` holds the account rules, the `/ask` steps and the `/dashboard` query. The state is a class `Server`. Its fields are the user table, the query-log table and the vector collection (id to record). Its methods are the handlers that change them.

Services the code calls become parameters of the model:

- the tokenizer's `encode` and `decode`;
- what `extract_text()` returned per page;
- the completion's outcome;
- the error `collection.add` or `db.session.commit()` raised, if any;
- the password hash and the check of a password against it;
- the clock.

Behaviour of the code that the model keeps, though one might expect otherwise:

- Records are written with `collection.add`, not an upsert. The model does not say what a duplicate id does; it says only that the id is present afterwards and that no other record changes.
- A failed log commit after a successful `collection.add` returns 500 with the error message. The answer is not returned, and the vector record is not rolled back (`App.Server.Exchange`).
- Text shorter than `max_tokens` gives one chunk only when it is also no longer than `max_tokens - overlap` (`Chunking.OneWindow`). See Findings.
- Runs with different `max_tokens` do not get disjoint ids: a run with fewer chunks reuses the first ids of a run with more (`IngestPdf.ChunkIdsPrefix`).
- The document text is single-spaced when every page has a word (`IngestPdf.PdfTextSingleSpaced`). A page without text between two pages leaves two spaces (`IngestPdf.EmptyPageDoubleSpace`). One at the start or the end leaves a leading or a trailing space (`IngestPdf.EmptyFirstPageSpace`, `IngestPdf.EmptyLastPageSpace`).

## Model

| member | source | states |
|---|---|---|
| Strings.Strip | app.py:113 | `s.strip()` is the slice of `s` between its leading and trailing whitespace; it starts and ends with a non-whitespace character and is empty exactly when `s` is all whitespace |
| Strings.SplitKeepsCharacters | ingest_pdf.py:38 | the words of `s.split()` put back together are exactly the non-whitespace characters of `s`, in order |
| Strings.SplitAroundSpace | ingest_pdf.py:38 | splitting `a + " " + b` gives the words of `a` followed by the words of `b` |
| Strings.SplitJoin | ingest_pdf.py:38 | splitting `" ".join(ps)` gives the words of every part of `ps`, in order |
| Strings.SplitJoinWords | ingest_pdf.py:38 | joining words with single spaces and splitting again gives back the same words |
| Strings.JoinSingleSpaced | ingest_pdf.py:38 | `" ".join` of non-empty single-spaced strings is single-spaced, and non-empty when there is a part |
| Strings.JoinSplitSingleSpaced | ingest_pdf.py:38 | a single-spaced string is `" ".join` of its own words |
| Strings.Decimal | ingest_pdf.py:66 | `str(n)` is a non-empty string of decimal digits with no leading zero |
| Strings.DecimalRoundTrip | ingest_pdf.py:66 | reading the digits of `str(n)` back gives `n` |
| Strings.DecimalInjective | ingest_pdf.py:66 | `str(m) == str(n)` exactly when `m == n` |
| Chunking.TokenChunks | ingest_pdf.py:40-44 | step 0 gives `Err(ZeroStep)` (`range` raises), a negative step gives no chunks, and a positive step gives the decoded windows `ids[i : i + max_tokens]` for `i` in `range(0, len(ids), step)` |
| Chunking.RangeSteps | ingest_pdf.py:43 | `range(start, stop, step)` is empty exactly when `start >= stop`, starts at `start`, goes up by `step`, stays below `stop`, and its last value is within one step of `stop` |
| Chunking.RangeAt | ingest_pdf.py:43 | value `k` of `range(start, stop, step)` is `start + k * step` |
| Chunking.RangeLength | ingest_pdf.py:43 | `range(start, stop, step)` has ⌈(stop - start) / step⌉ values |
| Chunking.WindowCount | ingest_pdf.py:41-43 | there are exactly ⌈n / step⌉ windows for `n` tokens, so none for no tokens |
| Chunking.WindowAt | ingest_pdf.py:43-44 | window `k` starts at `k * step < n` and is `ids[k*step .. min(k*step + max_tokens, n))`; when `max_tokens > 0` it is never empty and never longer than `max_tokens` |
| Chunking.WindowStartsIncrease | ingest_pdf.py:42-43 | window start offsets strictly increase |
| Chunking.WindowsCover | ingest_pdf.py:42-44 | when `overlap >= 0`, token `j` is item `j % step` of window `j / step`, so every token lies in a window |
| Chunking.WindowsOverlap | ingest_pdf.py:42-44 | when window `k` is full, its last `overlap` tokens are the first `overlap` tokens of window `k + 1` |
| Chunking.WindowsAfterEndRepeat | ingest_pdf.py:43-44 | once window `k` reaches the last token, window `k + 1` is the tail of window `k` after `step` tokens, so it repeats tokens already chunked |
| Chunking.OneWindow | ingest_pdf.py:43-44 | there is exactly one window exactly when `0 < n <= max_tokens - overlap`, and that window is the whole token list |
| Chunking.ShortInputTwoWindows | ingest_pdf.py:43-44 | 380 tokens with `max_tokens = 400` and `overlap = 50` give the two windows `ids` and `ids[350..]` |
| Chunking.ThousandTokensThreeWindows | ingest_pdf.py:43-44 | 1000 tokens with `max_tokens = 400` and `overlap = 50` give windows `[0, 400)`, `[350, 750)` and `[700, 1000)` |
| Chunking.TokenChunksToEnd | ingest_pdf.py:40-44 | the corrected chunker rejects a configuration that is not `0 <= overlap < max_tokens`, and otherwise stops after the first window that reaches the last token |
| Chunking.WindowsToEndPrefix | ingest_pdf.py:43-44 | the corrected windows are the first windows of the code's windows |
| Chunking.WindowToEndAt | ingest_pdf.py:43-44 | corrected window `k` starts at `k * step` and is `ids[k*step .. min(k*step + max_tokens, n))` |
| Chunking.WindowsToEndSmall | ingest_pdf.py:43-44 | the corrected chunker gives no window exactly for no tokens, and the single window `ids` when `0 < n <= max_tokens` |
| Chunking.WindowsToEndLengths | ingest_pdf.py:43-44 | every corrected window but the last is exactly `max_tokens` long, and the last one ends at the last token |
| Chunking.WindowsToEndOverlap | ingest_pdf.py:42-44 | consecutive corrected windows share exactly `overlap` tokens |
| Chunking.WindowsToEndCover | ingest_pdf.py:42-44 | every token lies in a corrected window: window `j / step`, or the last window when there are fewer |
| IngestPdf.NormalizePage | ingest_pdf.py:37-38 | a normalised page is single-spaced, has no leading or trailing whitespace and keeps the page's words; a page without text becomes `""` |
| IngestPdf.NormalizeIdempotent | ingest_pdf.py:38 | normalising a normalised page changes nothing |
| IngestPdf.NormalizeFixedPoint | ingest_pdf.py:38 | normalisation leaves a string unchanged exactly when it is single-spaced |
| IngestPdf.NormalizedPagesAt | ingest_pdf.py:37-38 | there is one normalised text per page, and entry `k` is page `k` normalised |
| IngestPdf.SplitEachNormalized | ingest_pdf.py:37-38 | the normalised pages have the same words as the raw pages, page by page |
| IngestPdf.PdfToText | ingest_pdf.py:35-38 | the words of the document text are the words of all pages, in page order |
| IngestPdf.PdfTextSingleSpaced | ingest_pdf.py:38 | when every page has a word, the document text is single-spaced |
| IngestPdf.EmptyPageDoubleSpace | ingest_pdf.py:37-38 | a page without text between two one-word pages leaves two spaces in the document text, which is then not single-spaced |
| IngestPdf.EmptyOnlyPage | ingest_pdf.py:37-38 | a document whose only page has no text gives the empty text |
| IngestPdf.EmptyFirstPageSpace | ingest_pdf.py:37-38 | a page without text before a one-word page leaves a leading space |
| IngestPdf.EmptyLastPageSpace | ingest_pdf.py:37-38 | a page without text after a one-word page leaves a trailing space |
| IngestPdf.NormalizeWord | ingest_pdf.py:38 | a single word is already normalised |
| IngestPdf.Basename | ingest_pdf.py:66 | the basename holds no '/', is a suffix of the path, and is preceded by '/' when shorter than the path |
| IngestPdf.ChunkIdInjective | ingest_pdf.py:66 | two chunk ids are equal exactly when their basenames and chunk numbers are |
| IngestPdf.ChunkIdsDistinct | ingest_pdf.py:66 | the ids of one run are pairwise distinct |
| IngestPdf.ChunkIdsOfDifferentPdfs | ingest_pdf.py:66 | PDFs with different basenames never share a chunk id |
| IngestPdf.ChunkIdsPrefix | ingest_pdf.py:66 | a run with `m <= n` chunks uses exactly the first `m` ids of a run with `n` chunks |
| IngestPdf.BatchWellFormed | ingest_pdf.py:66-72 | the batch has as many ids and metadata maps as chunks, its ids are distinct, and every map names the PDF |
| IngestPdf.Ingest | ingest_pdf.py:47-72 | the run fails before writing when the step is 0, gives an empty batch for a negative step, and otherwise gives the batch for the decoded windows of the normalised text |
| App.NextId | app.py:54 | a new integer primary key is larger than every key in the table, and is 1 or one more than an existing key |
| App.FindFirst | app.py:81-83 | `filter_by(column=value).first()` finds a row of the table holding `value`, and finds none exactly when no row holds it |
| App.UserById | app.py:164-165 | the join finds a user with the log row's user id exactly when the table has one |
| App.CheckRegistration | app.py:79-84 | registration is refused for differing passwords first, then for a taken username, then for a taken email, and accepted exactly when none applies |
| App.RegisterKeepsUsersValid | app.py:55-57 | inserting the new user keeps keys ascending and usernames and emails unique |
| App.Login | app.py:93-96 | login succeeds exactly when a user with that username exists and the password check accepts its stored hash, and then returns that user |
| App.UniqueUsername | app.py:55 | with unique usernames, a user is the only row carrying its username |
| App.ExchangeIdInjective | app.py:132 | two ids `f"{user_id}-{millis}"` are equal exactly when user and millisecond are |
| App.ExchangeDocument | app.py:134 | the stored document is the prompt, the two characters `"\n\n"`, then the answer |
| App.ExchangeDocumentParts | app.py:134 | given the prompt's length, two stored documents are equal exactly when their prompts and their answers are |
| App.AppendLogKeepsValid | app.py:144-147 | appending a log row with the next key and an existing user keeps log keys ascending and every row pointing at a user |
| App.AddUserKeepsReferences | app.py:61 | adding a user keeps every log row's user |
| App.LatestRows | app.py:164-166 | the listing holds at most `limit` rows and no more rows than the log |
| App.LatestRowsSound | app.py:164-165 | every listed row is a log row, shown with the name of the user it belongs to |
| App.LatestRowsBelow | app.py:166 | listed rows never carry a larger key than the log holds |
| App.LatestRowsDescending | app.py:166 | the listing is in strictly descending key order |
| App.LatestRowsComplete | app.py:166 | no joinable row with a larger key than the last listed row is left out, and every joinable row is listed when fewer than `limit` are |
| App.LatestRowsCount | app.py:165-166 | when every log row has its user, the listing has `limit` rows, or all rows when there are fewer |
| App.Server.constructor | app.py:171-172 | the tables and the collection start empty and valid |
| App.Server.Register | app.py:71-88 | a rejected or failed registration leaves every table as it was; a successful one appends exactly the new user with the next key and keeps the tables valid |
| App.Server.Ask | app.py:110-159 | an empty stripped prompt gives 400 "No prompt" and a failed completion gives 500 with its message, both with nothing written; otherwise the exchange steps run with the stripped prompt and answer |
| App.Server.Exchange | app.py:131-149 | a failed add gives 500 with nothing written; a failed commit gives 500 with the vector record kept and the log unchanged; success adds the record id, changes no other record, appends exactly the one log row and answers 200 with the answer |
| App.Server.Dashboard | app.py:161-167 | the listing has `min(len(log), 50)` rows in strictly descending key order |

## Left out

- HTTP and Flask: routing, templates, `flash`, redirects, `login_required`, the Flask-Login session and `load_user`. The handlers return an outcome or a status code with a body.
- The completion service (`client.responses.create`, the model name, the client construction) and the embedding function. The completion is a parameter: an answer or a raised message.
- Chroma's storage, embeddings, similarity search and `col.count()`. The collection is a map from id to document and metadata.
- App.Server.Exchange: the contract does not say which record a duplicate id keeps, because `collection.add` leaves that to the library.
- pdfplumber text extraction and tiktoken. The pages are what `extract_text()` returned; `encode` and `decode` are uninterpreted functions, and tokens are integers.
- Password hashing: `generate_password_hash` gives a parameter, and `check_password_hash` is a parameter function.
- The clock: `utcnow()` readings, the millisecond id part and ISO timestamps are parameters. Nothing is said about two requests in the same millisecond.
- SQLAlchemy and SQLite internals beyond the key rule, the uniqueness constraints and the foreign key. The length limits of `String(80)` and `String(120)` are not modelled.
- App.Server.Register: a commit that raises is modelled as a failed registration that stores nothing. The code does not catch it, so Flask would answer with an error page.
- argparse, `print`, `.env` loading and `db.create_all()` beyond the empty start state.
- The duplicate log-write block after the `return` in `/ask` (app.py:151-155). It cannot run.
- The `hasattr(response, "output_text")` fallback to `choices[0].message.content`. The answer is the `output_text` the service gave.
- A JSON `prompt` that is not a string, or a body that is not JSON. Both raise outside the `try`; the model's prompt is a string or absent.
- IngestPdf.Basename: only POSIX paths, split on '/'.
- IngestPdf.Ingest: the write to the collection itself is not modelled. The run ends with the batch passed to `col.add`.

## Findings

| source | as written | input that shows it | evidently intended | confidence | as-written member | corrected member |
|---|---|---|---|---|---|---|
| ingest_pdf.py:43-44 | one window per start `i < len(ids)`, even after a window has reached the last token | 380 tokens with `max_tokens = 400`, `overlap = 50`: two chunks, `[0, 380)` and `[350, 380)`; the second repeats tokens already chunked, and the first is short without being last | stop after the first window that reaches the last token: one chunk for `0 < n <= max_tokens`, and only the last chunk may be short | medium, not executed | Chunking.ShortInputTwoWindows | Chunking.TokenChunksToEnd |
