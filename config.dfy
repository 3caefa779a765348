/** Browser configuration (browser.js): the headless mode and the ChatGPT URL, each taken
    from the environment, else from `config.json`, else from a default.

    `new URL(...)` is the parameter `parseUrl` (None where the constructor throws) and
    `JSON.parse` the parameter `parseJson`; the contents of `config.json` are given, None
    when the file does not exist. Warnings written to the console are not modelled. */
module Config {
  import opened Wrappers
  import opened JsText
  import opened JsValues

  const DefaultChatgptUrl: string := "https://chatgpt.com/"

  /** The values Puppeteer's `headless` option is given: `true`, `false` or `"new"`. */
  datatype Headless = HeadlessFlag(on: bool) | HeadlessNew

  const DefaultHeadless: Headless := HeadlessNew

  // ---------------------------------------------------------------------------------
  // resolveHeadless

  /** The accepted spellings, after `trim().toLowerCase()`. */
  const TrueWords: seq<string> := ["true", "1", "yes", "on"]
  const FalseWords: seq<string> := ["false", "0", "no", "off"]

  function Normalized(s: string): string {
    ToLower(Trim(s))
  }

  /** The mode a normalized spelling names, if any. */
  function Keyword(normalized: string): (r: Option<Headless>)
    ensures r == Some(HeadlessNew) <==> normalized == "new"
    ensures r == Some(HeadlessFlag(true)) <==> normalized in TrueWords
    ensures r == Some(HeadlessFlag(false)) <==> normalized in FalseWords
  {
    if normalized == "new" then Some(HeadlessNew)
    else if normalized in TrueWords then Some(HeadlessFlag(true))
    else if normalized in FalseWords then Some(HeadlessFlag(false))
    else None
  }

  /** `resolveHeadless`: a boolean is taken as it is, a string by its normalized spelling;
      None (the JavaScript `null`) for anything else. */
  function ResolveHeadless(value: JsValue): (r: Option<Headless>)
    ensures value.JBool? ==> r == Some(HeadlessFlag(value.b))
    ensures value.JString? ==> r == Keyword(Normalized(value.s))
    ensures !value.JBool? && !value.JString? ==> r == None
  {
    match value
    case JBool(b) => Some(HeadlessFlag(b))
    case JString(s) => Keyword(Normalized(s))
    case _ => None
  }

  /** The spelling `HeadlessText(h)` of each mode. */
  function HeadlessText(h: Headless): string {
    match h
    case HeadlessNew => "new"
    case HeadlessFlag(true) => "true"
    case HeadlessFlag(false) => "false"
  }

  /** A spelling already in normal form is looked up as it is. */
  lemma ResolveOfNormalized(w: string)
    requires IsTrimmed(w) && ToLower(w) == w
    ensures ResolveHeadless(JString(w)) == Keyword(w)
  {
    TrimOfTrimmed(w);
  }

  lemma ResolveNew()
    ensures ResolveHeadless(JString("new")) == Some(HeadlessNew)
  {
    ResolveOfNormalized("new");
  }

  lemma ResolveTrue()
    ensures ResolveHeadless(JString("true")) == Some(HeadlessFlag(true))
  {
    ResolveOfNormalized("true");
  }

  lemma ResolveFalse()
    ensures ResolveHeadless(JString("false")) == Some(HeadlessFlag(false))
  {
    ResolveOfNormalized("false");
  }

  /** Every mode written as its own name is read back as that mode. */
  lemma HeadlessTextRoundTrip(h: Headless)
    ensures ResolveHeadless(JString(HeadlessText(h))) == Some(h)
  {
    match h
    case HeadlessNew => ResolveNew();
    case HeadlessFlag(true) => ResolveTrue();
    case HeadlessFlag(false) => ResolveFalse();
  }

  /** Spellings that differ only in the case of ASCII letters resolve alike. */
  lemma HeadlessIgnoresCase(s: string, t: string)
    requires ToLower(s) == ToLower(t)
    ensures ResolveHeadless(JString(s)) == ResolveHeadless(JString(t))
  {
    TrimOfLower(s);
    TrimOfLower(t);
  }

  /** Whitespace around a spelling does not matter. */
  lemma HeadlessIgnoresPadding(pre: string, s: string, post: string)
    requires AllSpace(pre) && AllSpace(post)
    ensures ResolveHeadless(JString(pre + s + post)) == ResolveHeadless(JString(s))
  {
    TrimIgnoresPadding(pre, s, post);
  }

  // ---------------------------------------------------------------------------------
  // validateChatgptUrl

  /** What the core reads of a parsed URL: its `protocol` and its `toString()`. */
  datatype ParsedUrl = ParsedUrl(protocol: string, href: string)

  /** `validateChatgptUrl`: the serialized URL when `candidate` is a non-blank string that
      parses, after trimming, as an https URL; None otherwise. */
  function ValidateChatgptUrl(candidate: JsValue, parseUrl: string -> Option<ParsedUrl>): (r: Option<string>)
    ensures r.Some? <==>
      && candidate.JString? && Trim(candidate.s) != []
      && parseUrl(Trim(candidate.s)).Some? && parseUrl(Trim(candidate.s)).value.protocol == "https:"
    ensures r.Some? ==> r.value == parseUrl(Trim(candidate.s)).value.href
  {
    if !candidate.JString? || Trim(candidate.s) == [] then None
    else
      match parseUrl(Trim(candidate.s))
      case None => None
      case Some(url) => if url.protocol != "https:" then None else Some(url.href)
  }

  /** Whitespace around a URL does not matter. */
  lemma UrlIgnoresPadding(pre: string, s: string, post: string, parseUrl: string -> Option<ParsedUrl>)
    requires AllSpace(pre) && AllSpace(post)
    ensures ValidateChatgptUrl(JString(pre + s + post), parseUrl) == ValidateChatgptUrl(JString(s), parseUrl)
  {
    TrimIgnoresPadding(pre, s, post);
  }

  // ---------------------------------------------------------------------------------
  // loadConfig

  /** `a || b` where `a` is a string or `null`: an empty string counts as missing too. */
  function OrUrl(a: Option<string>, b: string): (r: string)
    ensures a.Some? && a.value != [] ==> r == a.value
    ensures a.None? || a.value == [] ==> r == b
  {
    if a.Some? && a.value != [] then a.value else b
  }

  /** JavaScript truthiness of a `resolveHeadless` result. */
  predicate Truthy(h: Option<Headless>) {
    h.Some? && h.value != HeadlessFlag(false)
  }

  /** `envHeadless || fileHeadless || DEFAULT_HEADLESS`, as written: a resolved `false` is
      falsy and so is passed over. */
  function HeadlessChainAsWritten(envHeadless: Option<Headless>, fileHeadless: Option<Headless>): (h: Headless)
    ensures Truthy(envHeadless) ==> h == envHeadless.value
    ensures !Truthy(envHeadless) && Truthy(fileHeadless) ==> h == fileHeadless.value
    ensures !Truthy(envHeadless) && !Truthy(fileHeadless) ==> h == DefaultHeadless
  {
    if Truthy(envHeadless) then envHeadless.value
    else if Truthy(fileHeadless) then fileHeadless.value
    else DefaultHeadless
  }

  /** As written, the browser is never started with a visible window. */
  lemma AsWrittenNeverHeaded(envHeadless: Option<Headless>, fileHeadless: Option<Headless>)
    ensures HeadlessChainAsWritten(envHeadless, fileHeadless) != HeadlessFlag(false)
  {
  }

  /** As written, `HEADLESS=false` in the environment counts as if it were unset: the
      file's setting decides when it is truthy, and otherwise the "new" headless mode. */
  lemma EnvironmentFalseIsIgnored(fileHeadless: Option<Headless>)
    ensures HeadlessChainAsWritten(ResolveHeadless(JString("false")), fileHeadless)
         == HeadlessChainAsWritten(None, fileHeadless)
    ensures HeadlessChainAsWritten(ResolveHeadless(JString("false")), None) == HeadlessNew
  {
    ResolveFalse();
  }

  /** `envHeadless ?? fileHeadless ?? DEFAULT_HEADLESS`: the first source that resolves
      decides, `false` included. */
  function HeadlessChain(envHeadless: Option<Headless>, fileHeadless: Option<Headless>): (h: Headless)
    ensures envHeadless.Some? ==> h == envHeadless.value
    ensures envHeadless.None? && fileHeadless.Some? ==> h == fileHeadless.value
    ensures envHeadless.None? && fileHeadless.None? ==> h == DefaultHeadless
  {
    if envHeadless.Some? then envHeadless.value
    else if fileHeadless.Some? then fileHeadless.value
    else DefaultHeadless
  }

  /** The two chains differ only where a source resolved to `false`. */
  lemma ChainsAgreeWithoutFalse(envHeadless: Option<Headless>, fileHeadless: Option<Headless>)
    requires envHeadless != Some(HeadlessFlag(false)) && fileHeadless != Some(HeadlessFlag(false))
    ensures HeadlessChainAsWritten(envHeadless, fileHeadless) == HeadlessChain(envHeadless, fileHeadless)
  {
  }

  datatype BrowserConfig = BrowserConfig(chatgptUrl: string, headless: Headless)

  /** `loadConfig` fails only where reading a property of `fileConfig` throws. */
  datatype ConfigError = ConfigIsNull

  /** `process.env[name]`: the variable's text, `undefined` when it is not set. */
  function EnvValue(env: map<string, string>, name: string): (v: JsValue)
    ensures v.JString? <==> name in env
    ensures v.JString? ==> v.s == env[name]
    ensures !v.JString? ==> v.JUndefined?
  {
    if name in env then JString(env[name]) else JUndefined
  }

  /** The value `fileConfig` holds: `{}` when the file is missing or does not parse. */
  function FileConfig(configFile: Option<string>, parseJson: string -> Option<JsValue>): (v: JsValue)
    ensures configFile.None? ==> v == JObject(map[])
    ensures configFile.Some? && parseJson(configFile.value).None? ==> v == JObject(map[])
    ensures configFile.Some? && parseJson(configFile.value).Some? ==> v == parseJson(configFile.value).value
  {
    match configFile
    case None => JObject(map[])
    case Some(text) =>
      match parseJson(text)
      case None => JObject(map[])
      case Some(parsed) => parsed
  }

  /** Whether a `validateChatgptUrl` result is truthy. */
  predicate UrlGiven(url: Option<string>) {
    url.Some? && url.value != []
  }

  /** `envUrl || validateChatgptUrl(fileConfig.chatgpt_url) || DEFAULT_CHATGPT_URL`: the
      file's property is read only when the environment gives no URL. None where that read
      throws. */
  function UrlSetting(envUrl: Option<string>, fileConfig: JsValue, parseUrl: string -> Option<ParsedUrl>)
    : (r: Option<string>)
    ensures r.None? <==> !UrlGiven(envUrl) && Member(fileConfig, "chatgpt_url").None?
    ensures UrlGiven(envUrl) ==> r == Some(envUrl.value)
  {
    if UrlGiven(envUrl) then Some(envUrl.value)
    else
      match Member(fileConfig, "chatgpt_url")
      case None => None
      case Some(fileUrl) => Some(OrUrl(ValidateChatgptUrl(fileUrl, parseUrl), DefaultChatgptUrl))
  }

  /** `HeadlessChain(envHeadless, resolveHeadless(fileConfig.headless))`: the file's property
      is read only when the environment's setting does not resolve. None where that read
      throws. */
  function HeadlessSetting(envHeadless: Option<Headless>, fileConfig: JsValue): (r: Option<Headless>)
    ensures r.None? <==> envHeadless.None? && Member(fileConfig, "headless").None?
    ensures envHeadless.Some? ==> r == envHeadless
  {
    if envHeadless.Some? then Some(HeadlessChain(envHeadless, None))
    else
      match Member(fileConfig, "headless")
      case None => None
      case Some(fileHeadless) => Some(HeadlessChain(None, ResolveHeadless(fileHeadless)))
  }

  /** `loadConfig`, with the headless sources combined by `HeadlessChain`. It fails exactly
      when `config.json` holds `null` and one of the two settings has to be read from it. */
  function LoadConfig(env: map<string, string>, configFile: Option<string>,
                      parseJson: string -> Option<JsValue>, parseUrl: string -> Option<ParsedUrl>)
    : (r: Result<BrowserConfig, ConfigError>)
    ensures var fileConfig := FileConfig(configFile, parseJson);
      r.Err? <==>
        && (fileConfig.JNull? || fileConfig.JUndefined?)
        && (!UrlGiven(ValidateChatgptUrl(EnvValue(env, "CHATGPT_URL"), parseUrl))
            || ResolveHeadless(Nullish(EnvValue(env, "HEADLESS_MODE"), EnvValue(env, "HEADLESS"))).None?)
  {
    var envUrl := ValidateChatgptUrl(EnvValue(env, "CHATGPT_URL"), parseUrl);
    var envHeadless := ResolveHeadless(Nullish(EnvValue(env, "HEADLESS_MODE"), EnvValue(env, "HEADLESS")));
    var fileConfig := FileConfig(configFile, parseJson);
    match UrlSetting(envUrl, fileConfig, parseUrl)
    case None => Err(ConfigIsNull)
    case Some(chatgptUrl) =>
      match HeadlessSetting(envHeadless, fileConfig)
      case None => Err(ConfigIsNull)
      case Some(headless) => Ok(BrowserConfig(chatgptUrl, headless))
  }

  /** The environment alone decides when it gives both settings: `config.json` is then not
      read, even when it holds `null`. */
  lemma EnvironmentSuffices(env: map<string, string>, configFile: Option<string>,
                            parseJson: string -> Option<JsValue>, parseUrl: string -> Option<ParsedUrl>)
    requires UrlGiven(ValidateChatgptUrl(EnvValue(env, "CHATGPT_URL"), parseUrl))
    requires ResolveHeadless(Nullish(EnvValue(env, "HEADLESS_MODE"), EnvValue(env, "HEADLESS"))).Some?
    ensures LoadConfig(env, configFile, parseJson, parseUrl)
         == Ok(BrowserConfig(ValidateChatgptUrl(EnvValue(env, "CHATGPT_URL"), parseUrl).value,
                             ResolveHeadless(Nullish(EnvValue(env, "HEADLESS_MODE"), EnvValue(env, "HEADLESS"))).value))
  {
  }

  /** The URL is the environment's when it is a valid https URL, else the file's when that
      is, else the default. */
  lemma UrlPrecedence(env: map<string, string>, configFile: Option<string>,
                      parseJson: string -> Option<JsValue>, parseUrl: string -> Option<ParsedUrl>)
    requires LoadConfig(env, configFile, parseJson, parseUrl).Ok?
    ensures var url := LoadConfig(env, configFile, parseJson, parseUrl).value.chatgptUrl;
      var envUrl := ValidateChatgptUrl(EnvValue(env, "CHATGPT_URL"), parseUrl);
      var fileConfig := FileConfig(configFile, parseJson);
      && (UrlGiven(envUrl) ==> url == envUrl.value)
      && (!UrlGiven(envUrl) ==>
            Member(fileConfig, "chatgpt_url").Some? &&
            var fileUrl := ValidateChatgptUrl(Member(fileConfig, "chatgpt_url").value, parseUrl);
            && (UrlGiven(fileUrl) ==> url == fileUrl.value)
            && (!UrlGiven(fileUrl) ==> url == DefaultChatgptUrl))
  {
  }

  /** The URL is the default or the serialization of an https URL. */
  lemma UrlIsHttps(env: map<string, string>, configFile: Option<string>,
                   parseJson: string -> Option<JsValue>, parseUrl: string -> Option<ParsedUrl>)
    requires LoadConfig(env, configFile, parseJson, parseUrl).Ok?
    ensures var url := LoadConfig(env, configFile, parseJson, parseUrl).value.chatgptUrl;
      url == DefaultChatgptUrl || exists s :: parseUrl(s) == Some(ParsedUrl("https:", url))
  {
    var url := LoadConfig(env, configFile, parseJson, parseUrl).value.chatgptUrl;
    var envUrl := ValidateChatgptUrl(EnvValue(env, "CHATGPT_URL"), parseUrl);
    var fileConfig := FileConfig(configFile, parseJson);
    if UrlGiven(envUrl) {
      var s := Trim(EnvValue(env, "CHATGPT_URL").s);
      assert parseUrl(s) == Some(ParsedUrl("https:", url));
    } else {
      var candidate := Member(fileConfig, "chatgpt_url").value;
      var fileUrl := ValidateChatgptUrl(candidate, parseUrl);
      if UrlGiven(fileUrl) {
        var s := Trim(candidate.s);
        assert parseUrl(s) == Some(ParsedUrl("https:", url));
      }
    }
  }

  /** A headless setting that resolves in the environment (`HEADLESS_MODE`, else `HEADLESS`)
      is used, `false` included; otherwise the file's, otherwise "new". */
  lemma HeadlessPrecedence(env: map<string, string>, configFile: Option<string>,
                           parseJson: string -> Option<JsValue>, parseUrl: string -> Option<ParsedUrl>)
    requires LoadConfig(env, configFile, parseJson, parseUrl).Ok?
    ensures var h := LoadConfig(env, configFile, parseJson, parseUrl).value.headless;
      var envValue := if "HEADLESS_MODE" in env then env["HEADLESS_MODE"] else if "HEADLESS" in env then env["HEADLESS"] else "";
      var envSet := "HEADLESS_MODE" in env || "HEADLESS" in env;
      && (envSet && ResolveHeadless(JString(envValue)).Some? ==> h == ResolveHeadless(JString(envValue)).value)
      && (!envSet || ResolveHeadless(JString(envValue)).None? ==>
            Member(FileConfig(configFile, parseJson), "headless").Some? &&
            h == HeadlessChain(None, ResolveHeadless(Member(FileConfig(configFile, parseJson), "headless").value)))
  {
  }

  /** Without a configuration file nor environment variables, the defaults apply. */
  lemma DefaultsWithoutSettings(parseJson: string -> Option<JsValue>, parseUrl: string -> Option<ParsedUrl>)
    ensures LoadConfig(map[], None, parseJson, parseUrl) == Ok(BrowserConfig(DefaultChatgptUrl, DefaultHeadless))
  {
  }
}
