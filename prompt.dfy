/** `ensurePrompt` (fill.js): the prompt given to `fillPrompt` must be a string that is not
    blank, and is used trimmed. */
module Prompt {
  import opened Wrappers
  import opened JsText
  import opened JsValues

  /** The two errors `ensurePrompt` throws. */
  datatype PromptError = NotAString | EmptyPrompt

  function EnsurePrompt(prompt: JsValue): (r: Result<string, PromptError>)
    ensures r == Err(NotAString) <==> !prompt.JString?
    ensures r == Err(EmptyPrompt) <==> prompt.JString? && AllSpace(prompt.s)
    ensures r.Ok? ==> prompt.JString? && r.value == Trim(prompt.s) && r.value != [] && IsTrimmed(r.value)
  {
    if !prompt.JString? then Err(NotAString)
    else
      TrimEmptyIffBlank(prompt.s);
      var normalized := Trim(prompt.s);
      if normalized == [] then Err(EmptyPrompt) else Ok(normalized)
  }

  /** An accepted prompt is accepted again unchanged. */
  lemma EnsurePromptIdempotent(prompt: JsValue)
    requires EnsurePrompt(prompt).Ok?
    ensures EnsurePrompt(JString(EnsurePrompt(prompt).value)) == EnsurePrompt(prompt)
  {
    TrimIdempotent(prompt.s);
  }

  /** Whitespace around a prompt changes neither whether it is accepted nor what is sent. */
  lemma EnsurePromptIgnoresPadding(pre: string, s: string, post: string)
    requires AllSpace(pre) && AllSpace(post)
    ensures EnsurePrompt(JString(pre + s + post)) == EnsurePrompt(JString(s))
  {
    TrimIgnoresPadding(pre, s, post);
  }
}
