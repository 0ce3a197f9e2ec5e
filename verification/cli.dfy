/** The `translate` command: where the API key comes from, the checks made
    before any translation and in which order, the routing by extension, and
    the exit status. */
module Cli {
  import opened Base
  import opened Strings
  import Paths
  import Gemini
  import Docx

  /** The three handlers the command routes to. */
  datatype Format = Markdown | Word | Pdf

  /** The command line: the file, `--target-lang`, `--model`, `--api-key`. */
  datatype Args = Args(filename: string, targetLang: string, model: string, apiKey: Option<string>)

  /** The command line when only the file is given. */
  function DefaultArgs(filename: string): Args {
    Args(filename, Gemini.DefaultTargetLang, Gemini.DefaultModel, None)
  }

  /** By default the text goes to Traditional Chinese through the flash
      model, and the key is looked up rather than given. */
  lemma Defaults(filename: string)
    ensures Gemini.ResolveModel(DefaultArgs(filename).model) == "gemini-2.0-flash"
    ensures DefaultArgs(filename).targetLang == "Traditional Chinese"
    ensures !Truthy(DefaultArgs(filename).apiKey)
  {
    Gemini.FlashInAnyCase("flash");
  }

  /** Everything the command reads from outside its arguments. */
  datatype World = World(
    env: Option<string>,          // GOOGLE_API_KEY before the command runs
    answer: string,               // what the password prompt returns
    fileExists: bool,             // os.path.exists(filename)
    sdkFailure: Option<Error>,    // what importing or building the client raises
    provider: Gemini.Provider,    // generate_content
    document: Result<Docx.Document>,  // docx.Document(filename)
    saveFailure: Option<Error>,   // what doc.save raises
    others: (Format, Gemini.Client, string, string) -> Result<string>)
                                  // MarkdownHandler / PdfHandler (client, lang).process(filename)

  /** Python truthiness of an optional string. */
  predicate Truthy(s: Option<string>) {
    s.Some? && s.value != ""
  }

  /** The key the command settles on, and whether it had to prompt. */
  datatype KeyChoice = KeyChoice(key: string, prompted: bool)

  /** `key = api_key or os.getenv(...)`, then the prompt when that is falsy. */
  function ResolveKey(apiKey: Option<string>, env: Option<string>, answer: string): (c: KeyChoice)
    ensures c.prompted <==> !Truthy(apiKey) && !Truthy(env)
    ensures c.prompted ==> c.key == answer
  {
    if Truthy(apiKey) then KeyChoice(apiKey.value, false)
    else if Truthy(env) then KeyChoice(env.value, false)
    else KeyChoice(answer, true)
  }

  /** The first candidate that is present and non-empty. */
  function FirstNonEmpty(candidates: seq<Option<string>>): Option<string> {
    if candidates == [] then None
    else if Truthy(candidates[0]) then candidates[0]
    else FirstNonEmpty(candidates[1..])
  }

  /** The key is the first non-empty one of the argument, the environment and
      the prompt's answer; it is empty exactly when all three are. */
  lemma KeyPrecedence(apiKey: Option<string>, env: Option<string>, answer: string)
    ensures var c := ResolveKey(apiKey, env, answer);
            var first := FirstNonEmpty([apiKey, env, Some(answer)]);
            (c.key != "" <==> first.Some?) && (first.Some? ==> first.value == c.key)
  {
    var cs := [apiKey, env, Some(answer)];
    assert cs[1..] == [env, Some(answer)];
    assert cs[1..][1..] == [Some(answer)];
    assert cs[1..][1..][1..] == [];
    assert FirstNonEmpty([Some(answer)]) == if answer != "" then Some(answer) else None;
    if !Truthy(apiKey) {
      assert FirstNonEmpty(cs) == FirstNonEmpty([env, Some(answer)]);
    }
  }

  /** The extension each handler is chosen for. */
  function Extension(f: Format): string {
    match f
    case Markdown => ".md"
    case Word => ".docx"
    case Pdf => ".pdf"
  }

  /** The `if ext == ... elif ...` chain on the lower-cased extension. */
  function Route(ext: string): (f: Option<Format>)
    ensures f.Some? ==> Extension(f.value) == ext
  {
    if ext == ".md" then Some(Markdown)
    else if ext == ".docx" then Some(Word)
    else if ext == ".pdf" then Some(Pdf)
    else None
  }

  /** Every handler is reached by its own extension. */
  lemma RouteExtension(f: Format)
    ensures Route(Extension(f)) == Some(f)
  {
  }

  /** `os.path.splitext(filename)[1].lower()`. */
  function Ext(filename: string): string {
    Lower(Paths.SplitExt(filename).1)
  }

  /** A file goes to a handler exactly when its extension is that handler's
      in any mix of cases. */
  lemma RoutesInAnyCase(filename: string, f: Format)
    ensures Route(Ext(filename)) == Some(f) <==> SameIgnoringCase(Paths.SplitExt(filename).1, Extension(f))
  {
    var ext := Paths.SplitExt(filename).1;
    var w := Extension(f);
    assert forall i :: 0 <= i < |w| ==> !('A' <= w[i] <= 'Z');
    LowerMatches(ext, w);
    if Route(Ext(filename)) == Some(f) {
      assert Lower(ext) == w;
    } else if Lower(ext) == w {
      RouteExtension(f);
    }
  }

  /** The translator the Word handler is built on: `client.translate_text`. */
  function ClientTranslator(client: Gemini.Client, provider: Gemini.Provider): Docx.Translator {
    (text: string, lang: string) => Gemini.TranslateText(client, text, lang, provider)
  }

  /** `DocxHandler(client, target_lang).process(filename)`. */
  function DocxRun(client: Gemini.Client, args: Args, w: World): Docx.Processed {
    Docx.Process(args.filename, args.targetLang, w.document, ClientTranslator(client, w.provider), w.saveFailure)
  }

  /** `handler.process(filename)` for the chosen handler. */
  function Handle(f: Format, client: Gemini.Client, args: Args, w: World): Result<string> {
    match f
    case Word => DocxRun(client, args, w).result
    case _ => w.others(f, client, args.targetLang, args.filename)
  }

  /** Where the command stopped. */
  datatype Stage =
    | MissingKey                                   // no key from anywhere
    | FileNotFound                                 // the path does not exist
    | ClientFailed(error: Error)                   // building the client raised
    | Unsupported(ext: string)                     // no handler for the extension
    | HandlerFailed(format: Format, error: Error)  // the handler raised
    | Completed(format: Format, output: string)    // the handler returned its output path

  /** What one run of the command did: whether it prompted for the key, the
      GOOGLE_API_KEY it leaves behind, the client it built, the handler it
      ran, what the DOCX handler did when that was the one, and where it
      stopped. */
  datatype Invocation = Invocation(prompted: bool, environment: Option<string>,
                                   client: Option<Gemini.Client>, handler: Option<Format>,
                                   docx: Option<Docx.Processed>, stage: Stage)

  /** `translate(filename, target_lang, model, api_key)`. */
  function Command(args: Args, w: World): Invocation {
    var choice := ResolveKey(args.apiKey, w.env, w.answer);
    if choice.key == "" then Invocation(choice.prompted, w.env, None, None, None, MissingKey)
    else
      var run := Proceed(args, w, choice.key);
      Invocation(choice.prompted, Some(choice.key), run.client, run.handler, run.docx, run.stage)
  }

  /** What happens after `os.environ["GOOGLE_API_KEY"] = key`. */
  datatype Progress = Progress(client: Option<Gemini.Client>, handler: Option<Format>,
                                docx: Option<Docx.Processed>, stage: Stage)

  /** The file check, then the client. */
  function Proceed(args: Args, w: World, key: string): Progress {
    if !w.fileExists then Progress(None, None, None, FileNotFound)
    else
      match Gemini.NewClient(Some(key), args.model, w.sdkFailure)
      case Raised(e) => Progress(None, None, None, ClientFailed(e))
      case Ok(client) => Dispatch(args, w, client)
  }

  /** The routing by extension, then the handler. */
  function Dispatch(args: Args, w: World, client: Gemini.Client): Progress {
    var route := Route(Ext(args.filename));
    Progress(Some(client), route,
             if route == Some(Word) then Some(DocxRun(client, args, w)) else None,
             if route.None? then Unsupported(Ext(args.filename))
             else Finished(route.value, Handle(route.value, client, args, w)))
  }

  function Finished(f: Format, out: Result<string>): Stage {
    match out
    case Ok(output) => Completed(f, output)
    case Raised(e) => HandlerFailed(f, e)
  }

  /** `typer.Exit(code=1)` on every error path, 0 otherwise. */
  function ExitCode(s: Stage): nat {
    if s.Completed? then 0 else 1
  }

  /** The command succeeds exactly when a key was found, the file exists, the
      client was built, the extension is supported and the handler returned. */
  lemma ExitZeroIff(args: Args, w: World)
    ensures var r := Command(args, w);
            var key := ResolveKey(args.apiKey, w.env, w.answer).key;
            ExitCode(r.stage) == 0 <==>
              && key != ""
              && w.fileExists
              && w.sdkFailure.None?
              && Route(Ext(args.filename)).Some?
              && Handle(Route(Ext(args.filename)).value, Gemini.Client(key, Gemini.ResolveModel(args.model)), args, w).Ok?
  {
  }

  /** Without a key the command stops before anything else: the file is not
      checked, the environment is left alone and no client is built. */
  lemma MissingKeyStopsFirst(args: Args, w: World)
    ensures var r := Command(args, w);
            r.stage == MissingKey <==> ResolveKey(args.apiKey, w.env, w.answer).key == ""
    ensures var r := Command(args, w);
            r.stage == MissingKey ==> r.environment == w.env && r.client.None? && r.handler.None?
  {
  }

  /** Once a key is found it is exported, it is never empty, and the prompt
      was shown only when neither the argument nor the environment had one. */
  lemma KeyExported(args: Args, w: World)
    ensures var r := Command(args, w);
            r.stage != MissingKey ==>
              && r.environment.Some? && r.environment.value != ""
              && FirstNonEmpty([args.apiKey, w.env, Some(w.answer)]) == r.environment
    ensures Command(args, w).prompted <==> !Truthy(args.apiKey) && !Truthy(w.env)
  {
    KeyPrecedence(args.apiKey, w.env, w.answer);
  }

  /** A missing file is reported before the client is built. */
  lemma FileCheckedBeforeClient(args: Args, w: World)
    ensures var r := Command(args, w);
            r.stage == FileNotFound <==> ResolveKey(args.apiKey, w.env, w.answer).key != "" && !w.fileExists
    ensures var r := Command(args, w);
            r.stage == FileNotFound ==> r.client.None? && r.handler.None?
  {
  }

  /** The client is built with the exported key and the resolved model, and
      since the exported key is never empty, building it fails only with the
      SDK's own exception, never the constructor's missing-key ValueError. */
  lemma ClientFromExportedKey(args: Args, w: World)
    ensures var r := Command(args, w);
            r.client.Some? ==>
              r.environment.Some? && r.client.value == Gemini.Client(r.environment.value, Gemini.ResolveModel(args.model))
    ensures var r := Command(args, w);
            r.stage.ClientFailed? ==> w.sdkFailure == Some(r.stage.error)
  {
  }

  /** A handler runs exactly when the client was built and the extension is
      supported; an unsupported extension runs none and exits with 1. */
  lemma HandlerOnlyForSupported(args: Args, w: World)
    ensures var r := Command(args, w);
            r.handler.Some? <==> r.client.Some? && Route(Ext(args.filename)).Some?
    ensures var r := Command(args, w);
            r.handler.Some? ==> Route(Ext(args.filename)) == r.handler
    ensures var r := Command(args, w);
            r.stage.Unsupported? ==> r.handler.None? && ExitCode(r.stage) == 1 && r.stage.ext == Ext(args.filename)
  {
  }

  /** The client is built before the extension is looked at: building it
      fails whatever the extension, and an unsupported extension is only
      reported once a client exists. */
  lemma ClientBeforeExtension(args: Args, w: World)
    ensures var r := Command(args, w);
            r.stage.ClientFailed? <==>
              ResolveKey(args.apiKey, w.env, w.answer).key != "" && w.fileExists && w.sdkFailure.Some?
    ensures var r := Command(args, w);
            r.stage.Unsupported? ==> r.client.Some?
  {
  }

  /** The Word handler returns only after the document loaded and was
      saved, and what it returns is the `_translated.docx` path. */
  lemma WordHandle(client: Gemini.Client, args: Args, w: World)
    ensures var out := Handle(Word, client, args, w);
            out.Ok? ==> out.value == Docx.OutputPath(args.filename) && w.document.Ok? && w.saveFailure.None?
  {
    var tr := ClientTranslator(client, w.provider);
    Docx.ProcessOutcome(args.filename, args.targetLang, w.document, tr, w.saveFailure);
    if w.document.Ok? {
      Docx.ProcessSpec(args.filename, args.targetLang, w.document.value, tr, w.saveFailure);
    }
  }

  /** A completed Word translation reports the `_translated.docx` path next to
      the input, after the document loaded and was saved. */
  lemma WordOutput(args: Args, w: World)
    ensures var r := Command(args, w);
            r.stage.Completed? && r.stage.format == Word ==>
              && r.stage.output == Docx.OutputPath(args.filename)
              && Paths.SplitExt(r.stage.output).1 == ".docx"
              && Paths.Directory(r.stage.output) == Paths.Directory(args.filename)
              && w.document.Ok? && w.saveFailure.None?
  {
    Docx.OutputExtension(args.filename);
    Docx.OutputInSameDirectory(args.filename);
    var r := Command(args, w);
    if r.stage.Completed? && r.stage.format == Word {
      assert r.client.Some? && r.stage.output == Handle(Word, r.client.value, args, w).value;
      WordHandle(r.client.value, args, w);
    }
  }

  /** A `.docx` file is handled by `DocxHandler(client, target_lang)` built
      on the client the command made: its requests are the document's
      non-blank paragraphs in visit order, each sent to the client's
      `translate_text` in the target language, and the command reports what
      that handler returned or raised. */
  lemma WordTranslatesWithClient(args: Args, w: World)
    ensures var r := Command(args, w);
            r.docx.Some? <==> r.handler == Some(Word)
    ensures var r := Command(args, w);
            r.docx.Some? ==>
              && (r.stage.Completed? <==> r.docx.value.result.Ok?)
              && (r.stage.Completed? ==> r.stage.output == r.docx.value.result.value)
              && (r.stage.HandlerFailed? ==> r.docx.value.result == Raised(r.stage.error))
    ensures var r := Command(args, w);
            r.docx.Some? && w.document.Ok? ==>
              && r.client.Some?
              && var tr := ClientTranslator(r.client.value, w.provider);
                 Docx.Handled(r.docx.value, Docx.Requests(Docx.VisitOrder(w.document.value), args.targetLang),
                              Docx.TranslatedDocument(w.document.value, args.targetLang, tr), tr)
  {
    var r := Command(args, w);
    if r.docx.Some? && w.document.Ok? {
      var tr := ClientTranslator(r.client.value, w.provider);
      Docx.ProcessSpec(args.filename, args.targetLang, w.document.value, tr, w.saveFailure);
    }
  }

  /** `Report.DOCX` goes to the Word handler. */
  lemma UpperCaseDocxRoutes()
    ensures Route(Ext("Report.DOCX")) == Some(Word)
  {
    ReportDocxSplits();
    LowerDocx();
  }

  lemma ReportDocxSplits()
    ensures Paths.SplitExt("Report.DOCX").1 == ".DOCX"
  {
    assert forall j :: 0 <= j < |"DOCX"| ==> "DOCX"[j] != '.' && "DOCX"[j] != '/';
    Paths.NamedBaseAppend([], "Report");
    assert [] + "Report" == "Report";
    Paths.SplitExtOf("Report", "DOCX");
    assert "Report" + "." + "DOCX" == "Report.DOCX";
  }

  lemma LowerDocx()
    ensures Lower(".DOCX") == ".docx"
  {
  }

  /** A file named just `.docx` has no extension, so it is not supported. */
  lemma HiddenDocxUnsupported()
    ensures Route(Ext(".docx")).None?
  {
    var p := ".docx";
    Paths.SplitExtSpec(p);
    forall k | Paths.SplitsAt(p, k)
      ensures false
    {
    }
    assert Paths.SplitExt(p).1 == [];
  }
}
