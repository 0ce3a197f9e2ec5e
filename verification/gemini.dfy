/** `GeminiClient`: construction (key check and model-name resolution) and
    `translate_text` (blank guard, prompt, trimming, retry). The remote model
    is an oracle: `generate_content` is a parameter of the operations. */
module Gemini {
  import opened Base
  import opened Strings
  import Retry

  const DefaultModel := "flash"
  const DefaultTargetLang := "Traditional Chinese"

  /** `self.model_map`: the two presets and the model identifiers they name. */
  const ModelMap: map<string, string> := map["flash" := "gemini-2.0-flash", "pro" := "gemini-2.5-pro"]

  /** `self.model_map.get(model_name.lower(), model_name)`: a preset matches
      in any letter case; any other name passes through exactly as given. */
  function ResolveModel(name: string): (id: string)
    ensures Lower(name) == "flash" ==> id == "gemini-2.0-flash"
    ensures Lower(name) == "pro" ==> id == "gemini-2.5-pro"
    ensures Lower(name) != "flash" && Lower(name) != "pro" ==> id == name
  {
    var key := Lower(name);
    if key in ModelMap then ModelMap[key] else name
  }

  /** The spellings `Lower` maps to "flash" are its case variants. */
  lemma FlashInAnyCase(name: string)
    ensures Lower(name) == "flash" <==> SameIgnoringCase(name, "flash")
  {
    LowerMatches(name, "flash");
  }

  lemma ProInAnyCase(name: string)
    ensures Lower(name) == "pro" <==> SameIgnoringCase(name, "pro")
  {
    LowerMatches(name, "pro");
  }

  /** A full model identifier is used verbatim, capitals included. */
  lemma LiteralModelPassesThrough()
    ensures ResolveModel("Gemini-1.5-Pro") == "Gemini-1.5-Pro"
    ensures ResolveModel("FLASH") == "gemini-2.0-flash"
  {
    FlashInAnyCase("FLASH");
  }

  datatype Client = Client(apiKey: string, model: string)

  /** `GeminiClient(model_name)` reading `GOOGLE_API_KEY` from `envKey`. A
      missing or empty key raises ValueError before the SDK is touched;
      `sdkFailure` is what `genai.configure` or `GenerativeModel` raise, if
      anything. */
  function NewClient(envKey: Option<string>, modelName: string, sdkFailure: Option<Error>): (r: Result<Client>)
    ensures (envKey.None? || envKey.value == "") ==> r == Raised(ValueError)
    ensures r.Ok? <==> envKey.Some? && envKey.value != "" && sdkFailure.None?
    ensures r.Ok? ==> r.value == Client(envKey.value, ResolveModel(modelName))
    ensures r.Raised? && r.error != ValueError ==> sdkFailure == Some(r.error)
    ensures envKey.Some? && envKey.value != "" && sdkFailure.Some? ==> r == Raised(sdkFailure.value)
  {
    if envKey.None? || envKey.value == "" then Raised(ValueError)
    else if sdkFailure.Some? then Raised(sdkFailure.value)
    else Ok(Client(envKey.value, ResolveModel(modelName)))
  }

  const PromptHead := "Translate the following text into "
  const Instructions := "Maintain the original tone and style. " + "Do not add any explanations or extra text. " + "Just provide the translation.\n\n"

  /** The prompt sent for `text`: the target language closes the first
      sentence and the text follows the final `Text: ` label. */
  function Prompt(text: string, lang: string): (p: string)
    ensures |p| == |PromptHead| + |lang| + 2 + |Instructions| + 6 + |text|
    ensures p[..|PromptHead| + |lang| + 2] == PromptHead + lang + ". "
    ensures p[|p| - |text| - 6..] == "Text: " + text
    ensures p[|PromptHead| + |lang| + 2..|p| - |text| - 6] == Instructions
  {
    var p := PromptHead + lang + ". " + Instructions + "Text: " + text;
    assert p[..|PromptHead| + |lang| + 2] == PromptHead + lang + ". ";
    assert p[|PromptHead| + |lang| + 2..|p| - |text| - 6] == Instructions;
    assert p[|p| - |text| - 6..] == "Text: " + text;
    p
  }

  /** The text a prompt for `lang` carries. */
  function PromptedText(p: string, lang: string): string
    requires |PromptHead| + |lang| + 2 + |Instructions| + 6 <= |p|
  {
    p[|PromptHead| + |lang| + 2 + |Instructions| + 6..]
  }

  lemma PromptRoundTrip(text: string, lang: string)
    ensures PromptedText(Prompt(text, lang), lang) == text
  {
    assert Prompt(text, lang) == (PromptHead + lang + ". " + Instructions + "Text: ") + text;
  }

  /** Different texts give different prompts. */
  lemma PromptInjective(t1: string, t2: string, lang: string)
    requires Prompt(t1, lang) == Prompt(t2, lang)
    ensures t1 == t2
  {
    PromptRoundTrip(t1, lang);
    PromptRoundTrip(t2, lang);
  }

  /** `generate_content`: (model identifier, prompt, attempt number) to the
      response text or the exception it raises. */
  type Provider = (string, string, nat) -> Result<string>

  /** One run of the undecorated `translate_text` body on attempt `k`. */
  function Attempt(client: Client, text: string, lang: string, provider: Provider, k: nat): Result<string> {
    if IsBlank(text) then Ok(text)
    else
      match provider(client.model, Prompt(text, lang), k)
      case Ok(response) => Ok(Strip(response))
      case Raised(e) => Raised(e)
  }

  /** The attempts tenacity makes, as a function of the attempt number. */
  function Attempts(client: Client, text: string, lang: string, provider: Provider): nat -> Result<string> {
    (k: nat) => Attempt(client, text, lang, provider, k)
  }

  /** How the decorated call ends. */
  function Translate(client: Client, text: string, lang: string, provider: Provider): (r: Retry.Outcome<string>)
    // blank text comes back unchanged on the first attempt
    ensures IsBlank(text) ==> r == Retry.Returned(text, 1)
    ensures Retry.Explains(Attempts(client, text, lang, provider), r)
  {
    Retry.Retry(Attempts(client, text, lang, provider))
  }

  /** The outcome in terms of the model's replies: every attempt before the
      last hit a transient error; a success is the last reply stripped; any
      other exception is raised from the attempt that hit it; giving up
      happens only after twenty transient errors. */
  lemma TranslateReplies(client: Client, text: string, lang: string, provider: Provider)
    requires !IsBlank(text)
    ensures var o := Translate(client, text, lang, provider);
            forall j :: 1 <= j < o.attempts ==> Retry.Transient(provider(client.model, Prompt(text, lang), j))
    ensures var o := Translate(client, text, lang, provider);
            o.Returned? ==> provider(client.model, Prompt(text, lang), o.attempts).Ok?
                            && o.value == Strip(provider(client.model, Prompt(text, lang), o.attempts).value)
    ensures var o := Translate(client, text, lang, provider);
            o.Reraised? ==> provider(client.model, Prompt(text, lang), o.attempts) == Raised(o.error)
                            && !Retry.IsTransient(o.error)
    ensures var o := Translate(client, text, lang, provider);
            o.GaveUp? ==> o.attempts == Retry.MaxAttempts && Retry.IsTransient(o.last)
                          && provider(client.model, Prompt(text, lang), o.attempts) == Raised(o.last)
  {
    var o := Translate(client, text, lang, provider);
    var attempt := Attempts(client, text, lang, provider);
    var p := Prompt(text, lang);
    assert Retry.Explains(attempt, o);
    forall j | 1 <= j < o.attempts
      ensures Retry.Transient(provider(client.model, p, j))
    {
      assert Retry.Transient(attempt(j));
      assert attempt(j) == Attempt(client, text, lang, provider, j);
    }
    assert attempt(o.attempts) == Attempt(client, text, lang, provider, o.attempts);
  }

  /** What the handler receives from `client.translate_text(text, lang)`:
      blank text itself, otherwise the last reply stripped, the non-transient
      exception as raised, or RetryError once the attempts run out. */
  function TranslateText(client: Client, text: string, lang: string, provider: Provider): (r: Result<string>)
    ensures IsBlank(text) ==> r == Ok(text)
    ensures r.Ok? && !IsBlank(text) ==> Strip(r.value) == r.value
    ensures var o := Translate(client, text, lang, provider);
            && (o.Returned? ==> r == Ok(o.value))
            && (o.Reraised? ==> r == Raised(o.error))
            && (o.GaveUp? ==> r == Raised(RetryError))
  {
    var o := Translate(client, text, lang, provider);
    if o.Returned? && !IsBlank(text) then
      StripIdempotent(provider(client.model, Prompt(text, lang), o.attempts).value);
      Retry.Surface(o)
    else
      Retry.Surface(o)
  }

  /** The handler's view in terms of the model's replies: for non-blank
      text a result is the stripped reply of the attempt that returned, and
      an exception other than RetryError is the one the model raised, never
      a retried one. */
  lemma TranslateTextReplies(client: Client, text: string, lang: string, provider: Provider)
    requires !IsBlank(text)
    ensures var r := TranslateText(client, text, lang, provider);
            var n := Translate(client, text, lang, provider).attempts;
            var reply := provider(client.model, Prompt(text, lang), n);
            && (r.Ok? ==> reply.Ok? && r.value == Strip(reply.value))
            && (r.Raised? && r.error != RetryError ==> reply == r && !Retry.IsTransient(r.error))
  {
    TranslateReplies(client, text, lang, provider);
  }
}
