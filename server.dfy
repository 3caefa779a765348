/** The HTTP front (server.js): the prompt is read out of a request body of any shape, and
    a request whose prompt is empty is answered with status 400 before the browser is used.

    `JSON.parse` is the parameter `parseJson` (None where it throws) and `JSON.stringify`
    the parameter `stringify`; `String(v)` of a boolean or number is written out. */
module Server {
  import opened Wrappers
  import opened JsText
  import opened JsValues
  import Prompt

  /** `String(v)` for the primitives that reach the fallback. */
  function PrimitiveText(v: JsValue): (r: string)
    ensures v.JBool? ==> r == (if v.b then "true" else "false")
    ensures v.JNumber? ==> r == v.text
    ensures v.JNull? ==> r == "null"
    ensures v.JUndefined? ==> r == "undefined"
  {
    match v
    case JBool(b) => if b then "true" else "false"
    case JNumber(text) => text
    case JString(s) => s
    case JUndefined => "undefined"
    case JNull => "null"
    case _ => ""
  }

  /** `extractPrompt`: a string body that is the JSON text of an object is read as that
      object, any other string is the prompt itself; an object gives its `prompt`, else its
      `message`, else its JSON text; anything else its `String` form. The result is always
      trimmed. */
  function ExtractPrompt(body: JsValue, parseJson: string -> Option<JsValue>, stringify: JsValue -> string)
    : (r: string)
    ensures IsTrimmed(r)
    ensures body.JNull? || body.JUndefined? ==> r == ""
    decreases if body.JString? then 1 else 0
  {
    if body.JNull? || body.JUndefined? then ""
    else if body.JString? then
      var parsed := parseJson(body.s);
      if parsed.Some? && IsObjectLike(parsed.value) then ExtractPrompt(parsed.value, parseJson, stringify)
      else Trim(body.s)
    else if IsObjectLike(body) then
      var prompt := Member(body, "prompt").value;
      var message := Member(body, "message").value;
      if prompt.JString? then Trim(prompt.s)
      else if message.JString? then Trim(message.s)
      else Trim(stringify(body))
    else Trim(PrimitiveText(body))
  }

  /** A string `prompt` field is the prompt, trimmed, whatever `message` holds. */
  lemma PromptFieldWins(props: map<string, JsValue>, parseJson: string -> Option<JsValue>, stringify: JsValue -> string)
    requires "prompt" in props && props["prompt"].JString?
    ensures ExtractPrompt(JObject(props), parseJson, stringify) == Trim(props["prompt"].s)
  {
  }

  /** Without a string `prompt`, a string `message` field is the prompt, trimmed. */
  lemma MessageFieldFallback(props: map<string, JsValue>, parseJson: string -> Option<JsValue>, stringify: JsValue -> string)
    requires !("prompt" in props && props["prompt"].JString?)
    requires "message" in props && props["message"].JString?
    ensures ExtractPrompt(JObject(props), parseJson, stringify) == Trim(props["message"].s)
  {
    var body := JObject(props);
    assert !Member(body, "prompt").value.JString?;
    assert Member(body, "message").value == props["message"];
  }

  /** A text body that parses to an object or an array is handled as that value. */
  lemma JsonTextReadAsObject(s: string, parseJson: string -> Option<JsValue>, stringify: JsValue -> string)
    requires parseJson(s).Some? && IsObjectLike(parseJson(s).value)
    ensures ExtractPrompt(JString(s), parseJson, stringify) == ExtractPrompt(parseJson(s).value, parseJson, stringify)
  {
  }

  /** Any other text body, including the JSON of a primitive such as "null" or "42", is
      the prompt itself, trimmed. */
  lemma PlainTextIsThePrompt(s: string, parseJson: string -> Option<JsValue>, stringify: JsValue -> string)
    requires parseJson(s).None? || !IsObjectLike(parseJson(s).value)
    ensures ExtractPrompt(JString(s), parseJson, stringify) == Trim(s)
  {
  }

  /** An object without a string `prompt` or `message` is sent as its JSON text. */
  lemma OtherObjectsAsJson(v: JsValue, parseJson: string -> Option<JsValue>, stringify: JsValue -> string)
    requires IsObjectLike(v)
    requires !Member(v, "prompt").value.JString? && !Member(v, "message").value.JString?
    ensures ExtractPrompt(v, parseJson, stringify) == Trim(stringify(v))
  {
  }

  /** A boolean or number body is sent as its `String` form, trimmed. */
  lemma PrimitiveBodyIsItsText(v: JsValue, parseJson: string -> Option<JsValue>, stringify: JsValue -> string)
    requires v.JBool? || v.JNumber?
    ensures ExtractPrompt(v, parseJson, stringify) == Trim(PrimitiveText(v))
  {
    assert !(v.JNull? || v.JUndefined? || v.JString? || IsObjectLike(v));
  }

  /** The response to `POST /generate` and `POST /image` before the browser is reached. */
  datatype Admission = BadRequest | Accepted(prompt: string)

  /** The 400 guard: a request goes on only with a non-empty prompt. */
  function Admit(body: JsValue, parseJson: string -> Option<JsValue>, stringify: JsValue -> string)
    : (a: Admission)
    ensures a.BadRequest? <==> ExtractPrompt(body, parseJson, stringify) == []
    ensures a.Accepted? ==> a.prompt == ExtractPrompt(body, parseJson, stringify)
  {
    var prompt := ExtractPrompt(body, parseJson, stringify);
    if prompt == [] then BadRequest else Accepted(prompt)
  }

  /** A prompt the server accepts is accepted unchanged by `ensurePrompt` in `fillPrompt`,
      so the second check never rejects a request the first one let through. */
  lemma AcceptedPromptPassesEnsurePrompt(body: JsValue, parseJson: string -> Option<JsValue>, stringify: JsValue -> string)
    requires Admit(body, parseJson, stringify).Accepted?
    ensures Prompt.EnsurePrompt(JString(Admit(body, parseJson, stringify).prompt))
         == Ok(Admit(body, parseJson, stringify).prompt)
  {
    var p := Admit(body, parseJson, stringify).prompt;
    TrimOfTrimmed(p);
  }

  /** A missing body, or one that is only whitespace, is refused. */
  lemma BlankBodiesRefused(s: string, parseJson: string -> Option<JsValue>, stringify: JsValue -> string)
    requires AllSpace(s)
    ensures Admit(JNull, parseJson, stringify) == BadRequest
    ensures Admit(JUndefined, parseJson, stringify) == BadRequest
    ensures parseJson(s).None? ==> Admit(JString(s), parseJson, stringify) == BadRequest
  {
    TrimEmptyIffBlank(s);
  }
}
