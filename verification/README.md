# document_translator in Dafny

A model of the core of a command-line document translator that sends text to
Google Gemini. The model covers four things:

- **The `GeminiClient`.** Construction checks `GOOGLE_API_KEY` and resolves
  the model name through the `flash`/`pro` preset map, passing any other name
  through unchanged. `translate_text` returns blank text untouched, builds
  the fixed prompt, and strips the reply. It runs under the tenacity retry
  policy: only `ResourceExhausted` and `ServiceUnavailable` are retried, with
  exponential waits between 4 and 60 seconds and at most 20 attempts.
- **The DOCX handler's `process`.** It derives the `_translated.docx` output
  path and walks the body paragraphs, then every table, row, cell and
  paragraph. Each non-blank paragraph is replaced by a single run holding its
  translation. The walk stops at the first exception, and the document is
  saved once at the end.
- **The `translate` command.** Where the key comes from (argument, then
  environment, then prompt), the order of the checks (key, file, client,
  extension), routing by lower-cased extension, and the exit status.
- **Support modules.** Python's `str.isspace` / `str.strip` / `str.lower` on
  the characters involved, and `posixpath.splitext`.

The model is a set of pure functions over immutable values. Everything the
program reads from outside is a parameter:

- the environment variable and the prompt's answer
- whether the file exists
- what the SDK constructor raises
- `generate_content`, as a function of model, prompt and attempt number
- the parsed document, and what `doc.save` raises

Files:

- `base.dfy`: `Option`, `Result`, and the exception classes the code tells apart.
- `strings.dfy`: whitespace, `strip`, blank test, ASCII `lower`.
- `paths.dfy`: `splitext`, and the directory part of a path.
- `retry.dfy`: the tenacity policy, with the wait schedule and its bounds.
- `gemini.dfy`: the client.
- `docx.dfy`: the DOCX handler. It gives a reference definition of what the
  handler owes (`Requests`, `TranslatedDocument`) and proves the loop-shaped
  walk (`Rewrite*`) against it.
- `cli.dfy`: the `translate` command. Its `.docx` route runs the DOCX handler
  model on top of the client model.

Three behaviours of the code that are easy to misread:

- The wait after failed attempt *k* is tenacity's `2 * 2^(k-1)` clamped to
  [4, 60], so the waits are 4, 4, 8, 16, 32 and then 60.
- When the 20 attempts run out, the caller receives tenacity's `RetryError`,
  not the last transient error, because the decorator does not set `reraise`.
- The DOCX output name always ends in `_translated.docx`, whatever the case
  of the input's extension, so `A.DOCX` becomes `A_translated.docx`.

## Model

| member | source | states |
|---|---|---|
| Strings.Strip | src/services/gemini.py:58 | the result is the input minus a whitespace prefix and a whitespace suffix (Python's `isspace` set); it neither starts nor ends with whitespace; it is empty exactly when the input is all whitespace |
| Strings.StripIdempotent | src/services/gemini.py:58 | stripping a stripped reply changes nothing |
| Strings.IsBlank | src/services/gemini.py:45 | `not text or not text.strip()` holds exactly when every character of the text is whitespace |
| Strings.Lower | src/services/gemini.py:26 | `str.lower` on ASCII letters; see `Strings.LowerMatches` for what comparing its result with a lower-case word accepts |
| Strings.LowerMatches | src/services/gemini.py:26 | for a lower-case target word, `s.lower() == w` exactly when `s` is `w` with some letters in upper case |
| Paths.LastIndex | src/handlers/docx.py:18 | the `rfind` inside `splitext`: the index of the last occurrence of the character, or -1 when there is none |
| Paths.SplitExt | src/handlers/docx.py:18 | root and extension concatenate back to the path |
| Paths.SplitExtSpec | src/main.py:56 | the extension is non-empty exactly when the path has a split point: its last dot, with no separator after it, and a non-dot character earlier in the last component; otherwise the extension is empty |
| Paths.HasNonDotIff | src/main.py:56 | the scan over the last component finds a non-dot character exactly when one exists before the last dot |
| Paths.SplitExtOf | src/handlers/docx.py:18 | a name whose last component is not all dots, followed by `.word`, splits exactly before that dot |
| Paths.Directory | src/handlers/docx.py:18 | the part of a path up to and including its last `/`; see `Paths.DirectoryAppend` |
| Paths.DirectoryAppend | src/handlers/docx.py:18 | appending text without `/` keeps the directory part |
| Retry.Wait | src/services/gemini.py:31 | every wait lies between 4 and 60 seconds |
| Retry.WaitGrows | src/services/gemini.py:31 | a later attempt never waits less than an earlier one |
| Retry.WaitSchedule | src/services/gemini.py:31 | the waits after attempts 1 and 2 are 4; after attempts 3 to 5 they are 8, 16, 32; from attempt 6 on they are 60 |
| Retry.Sleeps | src/services/gemini.py:29-33 | a call that settles on attempt n has slept n - 1 times |
| Retry.SleepsAreWaits | src/services/gemini.py:31-32 | the i-th sleep is the wait after attempt i + 1, and it lies in [4, 60] |
| Retry.TotalSleeps | src/services/gemini.py:31-32 | total sleep is 0 for one attempt, 2^n for n = 2..6, and 64 + 60(n - 6) from then on |
| Retry.SleepBound | src/services/gemini.py:29-33 | however the call ends, tenacity sleeps at most 904 seconds, and exactly 904 when all 20 attempts run |
| Retry.CallSleepBound | src/services/gemini.py:29-33 | whatever the attempts do, the decorated call sleeps at most 904 seconds before it ends |
| Retry.Run | src/services/gemini.py:29-33 | from attempt k on, the policy stops within 20 attempts; every attempt before the last raised a retried exception; the last one accounts for the outcome |
| Retry.IsTransient | src/services/gemini.py:30 | only ResourceExhausted and ServiceUnavailable are retried; see `Retry.Run` and `Retry.OtherErrorsNotRetried` |
| Retry.Retry | src/services/gemini.py:29-33 | the outcome takes 1 to 20 attempts, all but the last transient, and the last explains it (a return, a non-transient exception, or the 20th transient one) |
| Retry.RetryUnique | src/services/gemini.py:29-33 | an outcome satisfies that description exactly when it is the policy's outcome (both directions) |
| Retry.Surface | src/services/gemini.py:29-33 | what the caller of the decorated function sees: the value, the re-raised exception, or RetryError; see `Gemini.TranslateText` |
| Retry.SucceedsOnLastAttempt | src/services/gemini.py:32 | 19 transient failures and then a success return that success on attempt 20 |
| Retry.GivesUpAfterBudget | src/services/gemini.py:32 | 20 transient failures end the call by giving up after the 20th attempt, on that attempt's error |
| Retry.OtherErrorsNotRetried | src/services/gemini.py:30 | a non-transient exception on the first attempt is re-raised after that single attempt |
| Gemini.ResolveModel | src/services/gemini.py:21-26 | a name lowering to `flash` or `pro` maps to `gemini-2.0-flash` or `gemini-2.5-pro`; any other name is used exactly as given |
| Gemini.FlashInAnyCase | src/services/gemini.py:26 | a name selects the flash preset exactly when it is `flash` in some mix of letter cases |
| Gemini.ProInAnyCase | src/services/gemini.py:26 | a name selects the pro preset exactly when it is `pro` in some mix of letter cases |
| Gemini.LiteralModelPassesThrough | src/services/gemini.py:26 | `Gemini-1.5-Pro` passes through with its capitals; `FLASH` selects `gemini-2.0-flash` |
| Gemini.NewClient | src/services/gemini.py:14-27 | a missing or empty key raises ValueError; construction succeeds exactly when the key is non-empty and the SDK does not raise; the client then holds that key and the resolved model; with a key present, an SDK failure is raised as that same exception |
| Gemini.Prompt | src/services/gemini.py:48-54 | the prompt is exactly the fixed template: the opening sentence naming the target language, then the three fixed instruction sentences, then `Text: ` and the text |
| Gemini.PromptRoundTrip | src/services/gemini.py:48-54 | the text can be read back out of the prompt |
| Gemini.PromptInjective | src/services/gemini.py:48-54 | different texts give different prompts for the same language |
| Gemini.Attempt | src/services/gemini.py:45-62 | one run of the undecorated body; see `Gemini.TranslateReplies`, which ties each attempt to the provider's reply to the one prompt |
| Gemini.Translate | src/services/gemini.py:29-62 | blank text returns unchanged on the first attempt; in every case the outcome is one the retry policy's description admits for the attempts of the undecorated body (unique by `Retry.RetryUnique`) |
| Gemini.TranslateReplies | src/services/gemini.py:56-62 | for non-blank text: every attempt before the last got a transient error; a return is the last reply stripped; a re-raise is the last attempt's non-transient error; giving up happens after 20 transient errors |
| Gemini.TranslateText | src/services/gemini.py:29-62 | blank text comes back unchanged; a translated answer is already stripped; a returned outcome reaches the caller as its value, a non-transient exception reaches it unchanged, and running out of attempts raises RetryError |
| Gemini.TranslateTextReplies | src/services/gemini.py:56-62 | for non-blank text, a result is the stripped reply of the attempt that settled the call, and any exception other than RetryError is the model's own non-transient one |
| Docx.Text | src/handlers/docx.py:24 | `para.text`, the concatenation of the runs' texts; see `Docx.Retext` and `Docx.TranslatedShape` |
| Docx.Requests | src/handlers/docx.py:23-53 | the reference list of calls the handler owes: one per non-blank paragraph, in order; see `Docx.RequestsAreNonBlank`, `Docx.RequestsAppend`, `Docx.OneRequestPerParagraph` |
| Docx.VisitOrder | src/handlers/docx.py:23-48 | the body paragraphs, then every table's rows, cells and paragraphs in order; see `Docx.BodyBeforeTables` and `Docx.TableVisitOrder` |
| Docx.TranslatedDocument | src/handlers/docx.py:23-53 | the reference result: every non-blank paragraph replaced in place by its translation; see `Docx.TranslatedShape` |
| Docx.Retext | src/handlers/docx.py:39-41 | the paragraph keeps its style and its text becomes exactly the translation, in one run |
| Docx.RequestsAreNonBlank | src/handlers/docx.py:24 | every request carries the handler's language and a non-blank text: blank paragraphs are never sent |
| Docx.RequestsAppend | src/handlers/docx.py:23-53 | the requests for two paragraph lists in sequence are the requests for each, in sequence |
| Docx.OneRequestPerParagraph | src/handlers/docx.py:24 | there is exactly one request per non-blank paragraph |
| Docx.DoneIffAllAnswered | src/handlers/docx.py:55 | a walk that stops at the first failure completes exactly when every request it owes is answered |
| Docx.TranslatedShape | src/handlers/docx.py:23-41 | the paragraph count is kept; blank paragraphs are untouched; each answered paragraph keeps its style and becomes one run with its translation |
| Docx.RewriteParagraph | src/handlers/docx.py:24-41 | one paragraph requests its text only if it is non-blank; when answered, it becomes its translation |
| Docx.RewriteParagraphs | src/handlers/docx.py:23-41 | the body loop; see `Docx.RewriteParagraphsSpec` |
| Docx.RewriteParagraphsSpec | src/handlers/docx.py:23-41 | the body loop makes the requests for the non-blank paragraphs in order, stops at the first exception, and when it completes yields every paragraph replaced in place |
| Docx.RewriteCell | src/handlers/docx.py:48-53 | the loop over one cell's paragraphs; see `Docx.RewriteCellSpec` |
| Docx.RewriteCellSpec | src/handlers/docx.py:48-53 | the same, for the paragraphs of one cell |
| Docx.RewriteCells | src/handlers/docx.py:46-53 | the loop over a row's cells; see `Docx.RewriteCellsSpec` |
| Docx.RewriteCellsSpec | src/handlers/docx.py:46-53 | the same, for the cells of a row, left to right |
| Docx.RewriteRow | src/handlers/docx.py:46-53 | one row; see `Docx.RewriteRowSpec` |
| Docx.RewriteRowSpec | src/handlers/docx.py:46-53 | the same, for one row |
| Docx.RewriteRows | src/handlers/docx.py:45-53 | the loop over a table's rows; see `Docx.RewriteRowsSpec` |
| Docx.RewriteRowsSpec | src/handlers/docx.py:45-53 | the same, for the rows of a table, top to bottom |
| Docx.RewriteTable | src/handlers/docx.py:45-53 | one table; see `Docx.RewriteTableSpec` |
| Docx.RewriteTableSpec | src/handlers/docx.py:45-53 | the same, for one table |
| Docx.RewriteTables | src/handlers/docx.py:44-53 | the loop over the tables; see `Docx.RewriteTablesSpec` |
| Docx.RewriteTablesSpec | src/handlers/docx.py:44-53 | the same, for all tables in order |
| Docx.RewriteDocument | src/handlers/docx.py:22-53 | the whole walk, stopping at the first exception; see `Docx.RewriteDocumentSpec` and `Docx.BodyBeforeTables` |
| Docx.RewriteDocumentSpec | src/handlers/docx.py:22-53 | the two loops request the non-blank paragraphs in visit order (body, then tables), stop at the first exception, and on completion yield the document with every paragraph replaced in place |
| Docx.BodyBeforeTables | src/handlers/docx.py:23-53 | in a completed walk, all body requests come before any table request |
| Docx.TableVisitOrder | src/handlers/docx.py:44-48 | a 2 x 2 table is visited (0,0), (0,1), (1,0), (1,1) |
| Docx.OutputPath | src/handlers/docx.py:18 | `f"{splitext(input_path)[0]}_translated.docx"`; see `Docx.OutputExtension`, `Docx.OutputIsNotInput`, `Docx.OutputInSameDirectory` |
| Docx.OutputExtension | src/handlers/docx.py:18 | the output's extension is `.docx` whatever the input's was, and its root is the input's root plus `_translated` |
| Docx.SuffixedSplit | src/handlers/docx.py:18 | any root followed by `_translated.docx` splits into the root plus `_translated` and `.docx` |
| Docx.OutputIsNotInput | src/handlers/docx.py:18 | the output path is never the input path, so the original is not overwritten |
| Docx.OutputInSameDirectory | src/handlers/docx.py:18 | the output lands in the input's directory |
| Docx.Process | src/handlers/docx.py:13-56 | `DocxHandler.process`; see `Docx.ProcessSpec` and `Docx.ProcessOutcome` |
| Docx.Save | src/handlers/docx.py:55-56 | `doc.save(output_path)` then `return output_path`, reached only by a completed walk; see `Docx.SaveSpec` and `Docx.ProcessOutcome` |
| Docx.ProcessSpec | src/handlers/docx.py:20-56 | for a loaded document, the save is reached exactly when every request is answered; the saved document is the translated one; otherwise the requests made are a prefix cut at the first exception, which is what `process` raises |
| Docx.SaveSpec | src/handlers/docx.py:55-56 | saving a walk that stops at the first failure gives the outcome ProcessSpec describes |
| Docx.ProcessOutcome | src/handlers/docx.py:18-56 | a document that fails to load is neither translated nor saved; the output path is returned exactly when the document was saved without error; a failing save makes `process` raise that save's exception |
| Cli.Defaults | src/main.py:17-20 | with only the file given, the flash preset resolves to `gemini-2.0-flash`, the target is Traditional Chinese, and no key is passed |
| Cli.ResolveKey | src/main.py:27-30 | the prompt is shown exactly when neither the argument nor the environment gives a non-empty key, and then its answer is the key |
| Cli.KeyPrecedence | src/main.py:27-34 | the key is the first non-empty one of the argument, the environment and the prompt's answer; it is empty exactly when all three are |
| Cli.Route | src/main.py:61-75 | a chosen handler's extension is exactly the lower-cased extension |
| Cli.RouteExtension | src/main.py:61-72 | each handler is reached by its own extension |
| Cli.Ext | src/main.py:56 | `os.path.splitext(filename)[1].lower()`; see `Cli.RoutesInAnyCase`, `Cli.UpperCaseDocxRoutes`, `Cli.HiddenDocxUnsupported` |
| Cli.RoutesInAnyCase | src/main.py:56-72 | a file goes to a handler exactly when its extension is that handler's extension in some mix of letter cases |
| Cli.Command | src/main.py:26-83 | the `translate` command; see `Cli.ExitZeroIff` and the check-order lemmas below |
| Cli.Proceed | src/main.py:38-53 | the file check, then the client; see `Cli.FileCheckedBeforeClient` and `Cli.ClientFromExportedKey` |
| Cli.Dispatch | src/main.py:55-83 | the routing, then the handler; see `Cli.HandlerOnlyForSupported` and `Cli.ClientBeforeExtension` |
| Cli.Handle | src/main.py:59-72 | `handler.process(filename)` for the chosen handler; see `Cli.WordHandle` and `Cli.WordTranslatesWithClient` |
| Cli.ExitCode | src/main.py:34-83 | `typer.Exit(code=1)` on every error path; see `Cli.ExitZeroIff` |
| Cli.ExitZeroIff | src/main.py:26-83 | the command exits 0 exactly when a key was found, the file exists, the client was built, the extension is supported and the handler returned |
| Cli.MissingKeyStopsFirst | src/main.py:32-34 | without a key the command stops first: the environment is untouched and no client or handler runs |
| Cli.KeyExported | src/main.py:27-36 | after the key check, GOOGLE_API_KEY holds the first non-empty key; the prompt was shown only when neither argument nor environment had one |
| Cli.FileCheckedBeforeClient | src/main.py:39-50 | a missing file is reported before the client is built |
| Cli.ClientFromExportedKey | src/main.py:36-53 | the client is built from the exported key and the resolved model, so it fails only with the SDK's own exception, never the missing-key ValueError |
| Cli.HandlerOnlyForSupported | src/main.py:56-75 | a handler runs exactly when the client was built and the extension is supported; an unsupported extension runs none and exits with 1 |
| Cli.ClientBeforeExtension | src/main.py:48-56 | building the client fails whatever the extension, once a key is found and the file exists; an unsupported extension is reported only after a client exists |
| Cli.WordHandle | src/main.py:65-68 | the DOCX route returns only after the document loaded and was saved, and returns the `_translated.docx` path |
| Cli.WordOutput | src/main.py:65-68 | a completed DOCX run reports a `.docx` output in the input's directory, after a successful load and save |
| Cli.WordTranslatesWithClient | src/main.py:65-68 | a `.docx` file is handled by `DocxHandler(client, target_lang)` on the client the command built: exactly the Word route records a DOCX run; the command reports what that run returned or raised; for a loaded document the run requests the non-blank paragraphs in visit order in the target language through the client's `translate_text`, and saves the reference translation exactly when every request is answered |
| Cli.UpperCaseDocxRoutes | src/main.py:56 | `Report.DOCX` is routed to the DOCX handler |
| Cli.HiddenDocxUnsupported | src/main.py:56 | a file named just `.docx` has no extension, so no handler takes it |

## Left out

- Network, SDK and file I/O: `genai.configure`, `genai.GenerativeModel`,
  `generate_content`, `docx.Document(path)`, `doc.save` and
  `os.path.exists` are parameters of the model. Their results are inputs.
- Sleeping: the retry waits are computed values. Nothing sleeps, and no
  clock is modelled.
- Run formatting: a paragraph is its style plus its run texts. The bold and
  italic run properties that `clear()` discards are not modelled beyond
  the replacement by one run.
- Merged table cells: python-docx repeats a merged cell object in every grid
  position it spans, so such a cell is visited, and translated, more than
  once. The model treats every grid position as its own cell.
- Nested tables inside cells: the handler does not descend into them, and
  the model has none.
- `src/handlers/markdown.py` and `src/handlers/pdf.py` are not part of this
  model. Their `process` is the `others` parameter of the command.
- Console output, the status spinner, `load_dotenv`, and the Typer/Rich
  plumbing are left out. So are the messages: the unsupported-extension
  `typer.Exit` is raised inside the `try` and caught by `except Exception`,
  which prints a second message but leaves the exit code at 1.
- Strings.LowerMatches: only ASCII letters are lowered. For the words the code
  compares with (`flash`, `pro`, `.md`, `.docx`, `.pdf`) this agrees with
  Python's full Unicode `lower()`. The only non-ASCII characters whose
  lower case is ASCII are U+0130 and U+212A (KELVIN SIGN), which lower to
  `i̇` and `k`, and neither letter occurs in those words.
- Windows paths: `splitext` is modelled as `posixpath`, with `/` as the
  only separator.
- Exception subclassing: the retry test `retry_if_exception_type` is
  modelled as a test on the two exception classes, without their
  subclasses.
- Docx.ProcessSpec: the translator is a function of text and language. Two
  paragraphs with the same text are assumed to get the same answer, and the
  retry state of one paragraph is not carried into the next.
- Gemini.NewClient: only the presence of a non-empty key is checked. An
  invalid key fails later, inside the SDK, which is not modelled.
