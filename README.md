# ChatGPT browser automation: verified core

This project models the decision logic of a small Node.js tool. The tool drives a ChatGPT
page in a headless browser, sends it a prompt, waits for the answer to stop changing, and
saves any images in the answer. The model covers three parts.

- **Response collection** (`collectResponse` in fill.js). A polling loop samples the page
  until the answer stops growing. Each sample gives the assistant-tagged texts and images
  and the texts and images of the fallback selectors. The loop keeps the latest text and
  the most recent non-empty image list. A length counter and an image-count counter decide
  when to stop. The loop is modelled as an imperative method, `Convergence.CollectResponse`.
  It is proved equal to a functional description of one tick (`Step`) and of the loop
  (`Poll`). `Poll` in turn is proved equal to an independent reference definition,
  `Expected`, which computes the counters from the prefix of samples seen so far.
- **Media handling** (fill.js):
  - the file extension derived from a content type;
  - the first-seen deduplication of image sources;
  - the sequential page-side fetch loop and which results are kept;
  - the file names and public paths given to a batch of images.

  `ensurePrompt` is modelled alongside.
- **Configuration and request bodies**:
  - `resolveHeadless`, `validateChatgptUrl` and the precedence chains of `loadConfig` in
    browser.js;
  - `extractPrompt` and the 400 guard of the two POST handlers in server.js.

The modules are:

| Module | Contents |
|---|---|
| `Wrappers` | `Option` and `Result`. |
| `JsText` | String operations the code relies on: `trim` with ECMAScript whitespace, ASCII `toLowerCase`, `includes`, `split(c)[0]`/`[1]`, decimal rendering of a natural number. |
| `JsValues` | JSON-like JavaScript values and property access. |
| `Convergence`, `Media`, `Prompt` | fill.js |
| `Config` | browser.js |
| `Server` | server.js |

These library calls are function-typed parameters, because the model does not define their behaviour:

- `JSON.parse`, where `None` stands for a parse that throws;
- `JSON.stringify`;
- `new URL`, where `None` stands for a constructor that throws;
- `path.join`;
- the page-side `fetch`.

Four behaviours of the code are easy to misread:

- The public base path loses exactly one trailing `/`. A base ending in `//` still produces a double slash (`Media.OnlyOneSlashIsRemoved`).
- There is no separate timeout error. Running out of time returns the latest text and images. The one "no reply" error is raised exactly when nothing was ever seen (`Convergence.NoReplyExactlyWhenNothingSeen`).
- The `||` chain discards a headless setting that resolved to `false`. See Findings.
- Text lengths are JavaScript `length` values, counted in UTF-16 code units. A character outside the Basic Multilingual Plane counts twice (`Convergence.Utf16Length`).

## Model

| member | source | states |
|---|---|---|
| JsText.Trim | fill.js:36 | `String.prototype.trim`: the result has no whitespace at either end and is no longer than the input. The ECMAScript whitespace set is used. |
| JsText.TrimEmptyIffBlank | fill.js:36-39 | A string trims to "" exactly when it is all whitespace, which is the test `!normalized` makes. |
| JsText.TrimIgnoresPadding | browser.js:19-24 | Whitespace added around a string does not change its trimmed form. |
| JsText.TrimIdempotent | fill.js:36 | Trimming twice is trimming once. |
| JsText.ToLower | browser.js:44 | `toLowerCase` over ASCII: the same length, with each character lower-cased. |
| JsText.ToLowerIdempotent | browser.js:44 | Lower-casing twice is lower-casing once. |
| JsText.TrimOfLower | browser.js:44 | `trim().toLowerCase()` equals `toLowerCase().trim()`. |
| JsText.Before | fill.js:202 | `s.split(c)[0]`: the longest prefix of `s` without `c`, followed in `s` by `c` when it is shorter than `s`. |
| JsText.After | fill.js:193 | The part after the first `c`, present exactly when `s` contains `c`. `s` is the part before, then `c`, then the part after. |
| JsText.Decimal | fill.js:253 | `${n}` for a natural number: non-empty, all decimal digits, and no leading zero unless it is "0". |
| JsText.DecimalInjective | fill.js:253 | Different numbers are written as different decimal strings. |
| JsText.DecimalThenSeparator | fill.js:253 | A decimal number followed by a non-digit separator is read back uniquely, which makes the file names of one batch distinct. |
| JsValues.Member | server.js:51-57 | Property access throws exactly on `null` and `undefined`. On an object, it gives the property when present. |
| Convergence.CleanTexts | fill.js:101-107 | `map((e) => e.innerText.trim()).filter(Boolean)`: never more texts than the inner texts it is given. What it keeps, and in which order, is stated by the lemmas below. |
| Convergence.CleanTextsCons | fill.js:101-107 | One element of `map(trim).filter(Boolean)`: a text belongs to the cleaned list of `x` followed by `rest` exactly when it is the trimmed `x` with `x` not blank, or it belongs to the cleaned `rest`. |
| Convergence.CleanTextsStep | fill.js:101-107 | In order: the cleaned list is the trimmed first text, when that text is not blank, in front of the cleaned rest. |
| Convergence.CleanTextsAppend | fill.js:101-107 | Cleaning distributes over concatenation and keeps the order of the inner texts. |
| Convergence.CleanTextsOfBlanks | fill.js:101-107 | A list of blank texts cleans to the empty list. |
| Convergence.CleanTextsOfOne | fill.js:101-107 | A single non-blank text cleans to its trimmed form. |
| Convergence.LastCleanText | fill.js:101-138 | When `x` is the last non-blank inner text, the cleaned list ends in the trimmed `x`, so `x` is the candidate the loop takes. |
| Convergence.Utf16Length | fill.js:140-144 | `String.prototype.length`: at least the number of characters and at most twice it. |
| Convergence.Utf16LengthExample | fill.js:140-144 | "ab" and a single emoji outside the Basic Multilingual Plane both have length 2. |
| Convergence.ObserveText | fill.js:137-145 | On a tick with text: the text becomes the last candidate and `lastLength` its length. The counter is positive exactly when that length equals the previous `lastLength`, and it is then one more than before. The image state is unchanged. |
| Convergence.ObserveImages | fill.js:157-165 | On a tick with images: the images become the candidate list and `lastImageCount` its size. The image counter is positive exactly when the size equals the previous count, and it is then one more than before. The text state is unchanged. |
| Convergence.Step | fill.js:132-170 | A tick that does not end the loop leaves `Observe` of the state. A tick that ends it had text with the text counter at `stableChecks`, or had images with the image counter at `stableChecks`. |
| Convergence.Conclude | fill.js:175-182 | No reply exactly when the final text trims to "" and there are no final images. Otherwise the reply is the final text and images, unchanged. |
| Convergence.Collect | fill.js:175-182 | The outcome after the loop: the "no reply" error exactly when the final text is blank and there are no final images, and otherwise the final text and images of the loop, unchanged. |
| Convergence.CleanTextsAreTrimmed | fill.js:101-107 | Every text the DOM query keeps is non-empty and has no surrounding whitespace. |
| Convergence.CleanTextsKeepsNonBlank | fill.js:101-107 | Every inner text that is not all whitespace is kept in trimmed form. Every kept text is the trimmed form of some inner text. |
| Convergence.QueriedSnapshotIsWellFormed | fill.js:101-107 | A snapshot built from cleaned text lists satisfies `WellFormed`, the assumption the reply lemmas make. |
| Convergence.PreferredIsFirstNonEmpty | fill.js:132-135 | The assistant-tagged list when it has an entry, otherwise the fallback list. Nothing is offered exactly when both are empty. |
| Convergence.TextCandidatesPreferAssistant | fill.js:132-135 | A tick's texts are its assistant-tagged texts when there are any, else the texts of the fallback selectors. It has none exactly when both lists are empty. |
| Convergence.ImageCandidatesPreferAssistant | fill.js:152-155 | A tick's images are its assistant images when there are any, else all images found. It has none exactly when both lists are empty. |
| Convergence.Poll | fill.js:91-173 | The loop takes at most the polls available. A converged loop stops after taking at least one poll. A loop that does not converge takes every poll. |
| Convergence.CollectResponse | fill.js:82-183 | The `while` loop with its two `break`s takes exactly `Poll`'s number of ticks. Lengths are compared in UTF-16 code units. It returns `Collect`'s reply: the last text and images, or `NoReply` when the trimmed text is empty and there are no images. |
| Convergence.AppendTrailing | fill.js:140-145 | Appending a value to a run extends the count of trailing repeats by one when the value equals the last one, and resets it to 0 otherwise. |
| Convergence.ExpectedTextStep | fill.js:137-145 | On a tick with text, the reference state takes the last candidate. Its UTF-16 length counter goes up by one when the length equals `lastLength` and is otherwise 0 with `lastLength` updated. A tick without text leaves the text state unchanged. |
| Convergence.ExpectedImageStep | fill.js:157-165 | The same rule for image lists and the image counter. A tick without images leaves the image state unchanged. |
| Convergence.LengthsSnoc | fill.js:140-144 | The lengths of the texts chosen so far, extended by one text, gain that text's UTF-16 length at the end. |
| Convergence.ExpectedStep | fill.js:132-170 | The reference state of one more poll is one tick of the loop body (`Observe`) from the reference state before it. |
| Convergence.ExpectedAt | fill.js:137-158 | The reference state after poll `i`, in terms of the state after poll `i - 1`: text, counter and images. |
| Convergence.StepObserves | fill.js:137-170 | A tick ends the loop exactly when: on a tick with text, the text counter reaches `stableChecks`; on a tick without text, there are images and the image counter reaches it. A tick that ends on text leaves the image state untouched. |
| Convergence.StepAgainstReference | fill.js:132-170 | Tick `j + 1` taken from the reference state of `j` polls converges exactly when `ConvergesAt(j + 1)`. It then leaves `HaltState(j + 1)`, and otherwise the reference state of `j + 1` polls. |
| Convergence.PollFrom | fill.js:91-173 | Induction over the remaining polls: the loop stops at the first converging tick with its `HaltState`, or takes every poll and ends in `Expected` of all of them. |
| Convergence.PollStopsAtFirstConvergence | fill.js:91-173 | The loop stops exactly at the first tick where `ConvergesAt` holds, never earlier and never later. If there is none, it takes every poll and keeps the last state. |
| Convergence.PollConverged | fill.js:147-169 | A converged loop stopped at a tick where a counter reached `stableChecks`, with that tick's state. |
| Convergence.PollTimedOut | fill.js:91-173 | A loop that runs out of polls leaves the reference state of all of them. |
| Convergence.FirstConvergenceIsHalt | fill.js:147-169 | If tick `n` converges and no earlier tick does, the loop converges at tick `n` with `HaltState(n)`. |
| Convergence.StreamingAnswerConverges | fill.js:137-150 | A partial text followed by the full text three times, with `stableChecks` 2, converges on the 4th tick with the full text. The image on the 4th tick is never collected. The reply is the full text with no images. |
| Convergence.SameLengthTextsConverge | fill.js:137-150 | Two different texts of equal UTF-16 length count as stable: with `stableChecks` 2, the third tick ends the loop with the later text. |
| Convergence.EmojiAfterTwoLettersConverges | fill.js:137-150 | "ab" followed twice by a single emoji converges on the third tick, because both texts have length 2. |
| Convergence.ChosenTextsOfTextTicks | fill.js:132-138 | When every tick has text, the texts chosen are the last candidate of each tick. |
| Convergence.ChosenImagesOfImageTicks | fill.js:152-158 | When every tick has images, the lists chosen are each tick's preferred list. |
| Convergence.ChosenTextsOfTextlessTicks | fill.js:132-137 | Ticks without text choose no text. |
| Convergence.TrailingRepeatsOfConstant | fill.js:140-145 | `m` equal non-zero lengths after the initial 0 repeat `m - 1` times. |
| Convergence.ConstantTextCounter | fill.js:140-145 | With a constant non-zero UTF-16 text length on every tick, the counter after tick `i` is `i - 1`, and the text is that tick's last candidate. |
| Convergence.ConstantTextTick | fill.js:140-149 | With a constant UTF-16 text length, tick `i` ends the loop exactly when `i - 1 >= stableChecks`. |
| Convergence.ConstantImageCounter | fill.js:160-165 | With a constant non-zero image count, the image counter after tick `i` is `i - 1`, and the images are that tick's list. |
| Convergence.ConstantImageTick | fill.js:160-169 | With no text and a constant image count, tick `i` ends the loop exactly when `i - 1 >= stableChecks`. |
| Convergence.ConstantTextLengthConverges | fill.js:137-150 | A text of constant UTF-16 length converges at exactly tick `stableChecks + 1` with that tick's text. |
| Convergence.ConstantImageCountConverges | fill.js:157-169 | With no text and a constant image count, the loop converges on images alone at exactly tick `stableChecks + 1` with that tick's images. |
| Convergence.TextOnEveryTickRulesOutImageConvergence | fill.js:167-169 | If every tick has text, image stability never ends the loop: a converged loop has its text counter at `stableChecks`. |
| Convergence.FinalTextOfPoll | fill.js:137-138 | The text the loop ends with is the reference text of the polls it took. |
| Convergence.FinalTextIsLastPreferredCandidate | fill.js:132-138 | The final text is the last assistant-tagged text of the last tick when there is one, and otherwise the last fallback text. |
| Convergence.ImagelessTicksKeepChosenImages | fill.js:157-158 | Ticks without image candidates add no image list. |
| Convergence.ImagelessTicksKeepImages | fill.js:157-158 | A later tick without images does not clear `finalImages`. |
| Convergence.ChosenTextsWellFormed | fill.js:137-138 | Every chosen text is a candidate, so it is trimmed and non-empty. |
| Convergence.ChosenImagesNonEmpty | fill.js:157-158 | Every chosen image list is non-empty. |
| Convergence.ChosenTextsEmpty | fill.js:137 | No text was ever chosen exactly when no tick had text candidates. |
| Convergence.ChosenImagesEmpty | fill.js:157 | No image list was ever chosen exactly when no tick had image candidates. |
| Convergence.ReferenceReplyFails | fill.js:175-182 | Over well-formed polls, the reference state yields no reply exactly when no poll offered a text or an image. |
| Convergence.HaltReplies | fill.js:147-177 | A tick that ends the loop offered a text or an image, and the state it leaves holds a reply. |
| Convergence.ConvergedLoopReplies | fill.js:147-182 | A converged loop saw a text or an image on its last tick, and replies. |
| Convergence.NoReplyExactlyWhenNothingSeen | fill.js:175-182 | The collection fails exactly when no tick offered a text or an image, whether the loop converged or ran out of time. |
| Media.ExtensionFromContentType | fill.js:192-203 | The extension never contains '/' or ';'. |
| Media.Subtype | fill.js:193 | `split("/")[1]`: present exactly when the content type contains '/'. It is the prefix without '/' of the part after the first '/'. |
| Media.SubtypeOf | fill.js:193 | `split("/")[1]` of `kind/segment` followed by nothing or by a further '/' part is `segment`. |
| Media.ExtensionOfMediaType | fill.js:192-203 | For `kind/segment`, the extension is "png" for an empty segment, "jpg" for a segment containing "jpeg", and otherwise the segment up to its first ';'. |
| Media.ContainsIffOccurs | fill.js:198 | `includes` (`JsText.Contains`) is true exactly when the searched text occurs at some position. |
| Media.NoSubtypeIsPng | fill.js:193-196 | A content type without '/' gives "png". |
| Media.JpegWithParameters | fill.js:198-200 | Any `kind/jpeg...` content type, such as "image/jpeg; charset=binary", gives "jpg". |
| Media.PngExample | fill.js:202 | "image/png" gives "png". |
| Media.EmptyContentTypeExample | fill.js:192-196 | An empty or missing content type gives "png". |
| Media.Unique | fill.js:206 | `Array.from(new Set(xs))`: no repeats, the same members as `xs`, and the order of first occurrence. |
| Media.UniqueExample | fill.js:206 | ["u1", "u1", "u2"] gives ["u1", "u2"]. |
| Media.UniqueOfDistinct | fill.js:206 | A list without repeats is unchanged. |
| Media.UniqueIdempotent | fill.js:206 | Deduplicating twice is deduplicating once. |
| Media.ContentTypeOrDefault | fill.js:221 | The header when it is present and non-empty, else "image/png". Never empty. |
| Media.Attempt | fill.js:218-227 | One entry of `results` carries its source, and is a download exactly when the fetch succeeded. A download holds the response body and the header's content type, or "image/png" without one. A failure holds the rejection's message. |
| Media.FetchAll | fill.js:215-230 | The `results` array has one entry per source, in order, each the attempt for that source. |
| Media.KeptAsWritten | fill.js:233 | `filter((item) => !item.error)` as written keeps exactly the entries that are not failures with a non-empty message. |
| Media.SilentFailureIsKept | fill.js:225-233 | A failure whose message is empty passes the filter as written. |
| Media.Successful | fill.js:233 | The corrected filter keeps exactly the successful downloads, in order, as assets. |
| Media.SuccessfulKeepsOrder | fill.js:233 | Keeping the successes preserves the first-seen order of their sources. |
| Media.DownloadImages | fill.js:205-239 | Returns the successes of fetching every distinct source once, in first-seen order, and an empty list for no sources. Flags a partial batch exactly when fewer assets than distinct sources come back. |
| Media.DownloadedSourcesWereFetched | fill.js:214-233 | Every kept asset comes from a given source whose fetch succeeded, and holds that fetch's body and content type. |
| Media.FetchedSourcesAreKept | fill.js:214-233 | Every given source whose fetch succeeds is kept. |
| Media.DownloadsInFirstSeenOrder | fill.js:206-233 | Kept assets are in the order their sources were first seen, so no source is kept twice. |
| Media.DuplicateSourceFetchedOnce | fill.js:206-231 | ["u1", "u1", "u2"] leads to exactly two fetches: "u1", then "u2". |
| Media.AllDownloadedIffAllFetched | fill.js:217-228 | Every entry of `results` is a download exactly when every source's fetch succeeds. |
| Media.PartialExactlyWhenAFetchFails | fill.js:235-237 | The warning about missing images is logged exactly when some source's fetch fails. |
| Media.SuccessfulCount | fill.js:233-235 | All entries are kept exactly when none failed. |
| Media.FileNamesDistinct | fill.js:249-253 | Two images of one batch, which share the timestamp, never share a file name. |
| Media.FileName | fill.js:253 | The name starts with "image-" and ends with "." and the extension. |
| Media.NormalizedBase | fill.js:255-257 | The base is the input without its last '/' when it ends in one, and otherwise the input unchanged. |
| Media.PublicPath | fill.js:255-258 | The path is the normalized base, then '/', then the file name. |
| Media.Save | fill.js:251-263 | The entry of one image: its source, its public path, and `path.join` of the output directory and its file name. |
| Media.FileNameExample | fill.js:253 | Timestamp 1 and index 0 with "png" give "image-1-1.png". |
| Media.TrailingSlashIsOptional | fill.js:255-258 | A base given with or without one trailing '/' yields the same public path, with a single '/' before the file name. |
| Media.PublicPathExample | fill.js:255-258 | Base "/image/" and "image-1-1.png" give "/image/image-1-1.png". |
| Media.OnlyOneSlashIsRemoved | fill.js:255-257 | Only one trailing '/' is removed: "/image//" gives "/image//a.png". |
| Media.PersistImages | fill.js:242-265 | An empty batch yields nothing and creates no directory. Otherwise the directory is created first, and each image is written under its own name and returned with its source, its public path, and `path.join` of the output directory and its file name. The public URLs of a batch are pairwise distinct. |
| Prompt.EnsurePrompt | fill.js:31-42 | Fails with `NotAString` exactly for a non-string and with `EmptyPrompt` exactly for an all-whitespace string. Otherwise it returns the trimmed, non-empty prompt. |
| Prompt.EnsurePromptIdempotent | fill.js:36-41 | An accepted prompt is accepted again, unchanged. |
| Prompt.EnsurePromptIgnoresPadding | fill.js:36-41 | Whitespace around a prompt changes neither the verdict nor the result. |
| Config.Keyword | browser.js:46-56 | "new" gives "new". "true", "1", "yes", "on" give `true`. "false", "0", "no", "off" give `false`. Anything else gives nothing; each case is an if-and-only-if. |
| Config.ResolveHeadless | browser.js:38-64 | A boolean is returned unchanged. A string is looked up after `trim().toLowerCase()`. Any other value, `undefined` included, gives `null`. |
| Config.ResolveOfNormalized | browser.js:43-44 | A spelling already trimmed and in lower case is looked up as it is. |
| Config.ResolveNew | browser.js:46-48 | "new" resolves to the "new" mode. |
| Config.ResolveTrue | browser.js:50-52 | "true" resolves to `true`. |
| Config.ResolveFalse | browser.js:54-56 | "false" resolves to `false`. |
| Config.HeadlessTextRoundTrip | browser.js:43-56 | Each mode written as its own name resolves back to that mode. |
| Config.HeadlessIgnoresCase | browser.js:44 | Spellings that differ only in ASCII letter case resolve alike. |
| Config.HeadlessIgnoresPadding | browser.js:44 | Whitespace around a spelling does not matter. |
| Config.ValidateChatgptUrl | browser.js:18-36 | Returns the serialized URL exactly when the candidate is a non-blank string whose trimmed form parses with protocol "https:". Otherwise returns `null`. |
| Config.UrlIgnoresPadding | browser.js:19-24 | Whitespace around a URL does not matter. |
| Config.OrUrl | browser.js:89-92 | `a \|\| b` over a string or `null`: `a` when it is a non-empty string, else `b`. |
| Config.HeadlessChainAsWritten | browser.js:94-97 | The `\|\|` chain: the environment's setting when truthy, else the file's when truthy, else "new". |
| Config.AsWrittenNeverHeaded | browser.js:94-97 | As written, the chain never yields `false`. |
| Config.EnvironmentFalseIsIgnored | browser.js:72-97 | As written, an environment setting of "false" counts as unset: the chain gives what it gives with no environment setting, whatever the file says. With no file setting that is "new". |
| Config.HeadlessChain | browser.js:94-97 | The corrected chain: the first source that resolves decides, `false` included, else "new". |
| Config.ChainsAgreeWithoutFalse | browser.js:94-97 | The two chains differ only where a source resolved to `false`. |
| Config.EnvValue | browser.js:68-75 | `process.env[name]`: a string exactly when the variable is set, holding its value, and `undefined` otherwise. |
| Config.FileConfig | browser.js:77-87 | `fileConfig` is `{}` when the file is missing and when it does not parse, and the parsed value otherwise. |
| Config.LoadConfig | browser.js:66-99 | Fails exactly when `fileConfig` is `null` or `undefined` and one of the two settings has to be read from it: the environment URL is missing or invalid, or the environment headless setting does not resolve. Otherwise it combines the URL sources with `\|\|` and the headless sources with `HeadlessChain`. |
| Config.UrlSetting | browser.js:89-92 | The short-circuit of `\|\|`: the file's `chatgpt_url` is read only when the environment URL is missing or invalid. The result is missing exactly when that read throws. |
| Config.HeadlessSetting | browser.js:94-97 | The file's `headless` is read only when the environment setting does not resolve. The result is missing exactly when that read throws. |
| Config.EnvironmentSuffices | browser.js:89-97 | With a valid environment URL and a resolving environment headless setting, the configuration is those two values, whatever config.json holds. |
| Config.UrlPrecedence | browser.js:89-92 | The URL is the environment's when valid, else the file's when valid, else "https://chatgpt.com/". |
| Config.UrlIsHttps | browser.js:89-92 | The URL is the default or the serialization of a URL that parsed with protocol "https:". |
| Config.HeadlessPrecedence | browser.js:72-97 | `HEADLESS_MODE`, else `HEADLESS`, decides when it resolves. Otherwise the file's setting, otherwise "new". |
| Config.DefaultsWithoutSettings | browser.js:77-97 | With no file and no environment variables, the URL is "https://chatgpt.com/" and the mode is "new". |
| Server.ExtractPrompt | server.js:33-63 | The result is always trimmed. `null` and `undefined` give "". Recursion happens at most once, only on a parsed object, as the `decreases` clause shows. |
| Server.PromptFieldWins | server.js:51-54 | A string `prompt` field is the prompt, trimmed, whatever `message` holds. |
| Server.MessageFieldFallback | server.js:55-57 | Without a string `prompt`, a string `message` field is the prompt, trimmed. |
| Server.JsonTextReadAsObject | server.js:38-43 | Any text body that parses to an object or an array is handled as that parsed value. |
| Server.PlainTextIsThePrompt | server.js:38-48 | Any other text body, such as "null" or "42", is the prompt itself, trimmed. |
| Server.OtherObjectsAsJson | server.js:60-62 | An object without a string `prompt` or `message` gives its JSON text, trimmed. |
| Server.PrimitiveText | server.js:60-61 | `String(body)` of a primitive: "true"/"false" for a boolean, the number's own text, "null", "undefined". |
| Server.PrimitiveBodyIsItsText | server.js:60-62 | A boolean or number body is sent as `String(body).trim()`. |
| Server.Admit | server.js:67-75 | The request is refused with 400 exactly when the extracted prompt is empty. Otherwise it goes on with that prompt. |
| Server.AcceptedPromptPassesEnsurePrompt | server.js:67-80 | A prompt the handler accepts is accepted unchanged by `ensurePrompt` inside `fillPrompt`. |
| Server.BlankBodiesRefused | server.js:92-102 | A `null` or `undefined` body, or a blank text body that is not JSON, is refused. |

## Left out

- Puppeteer, the browser launch, the stealth tweaks, navigation, the random scrolling and cookies.js: browser and file I/O.
- The DOM query inside `page.evaluate` (fill.js:92-130), `typePrompt` and `sendPrompt`. They are replaced by a finite sequence of snapshots. The text cleaning the query applies is modelled as `CleanTexts`.
- An error thrown by `page.evaluate` itself, for example after navigation. The model has no failing poll.
- `Date.now`, the deadline, the poll sleeps and the 3-second grace waits. The deadline is "the snapshots run out", and the timestamp of `persistImages` is a parameter.
- The real `fetch`, `arrayBuffer`, base64 and `Buffer` conversions. A fetch is an abstract per-URL result carrying bytes.
- A rejection value that is `null` or `undefined`, whose `error.message` would itself throw inside the page.
- `fs.mkdirSync` and `writeFileSync`. They are recorded as `Effect`s, so a failing write is not modelled.
- `persistTextResponse`, `fillPrompt`'s orchestration, `generateArticle`, the logger and the `console.warn` warnings of browser.js.
- Express routing and static files, the 500 handler, and the shared `browserRef`/`pageRef` singleton with its races between concurrent requests.
- `JSON.parse`, `JSON.stringify`, `new URL` and `path.join` are uninterpreted parameters.
- A number value is kept as its JavaScript string form, which is all `String(n)` needs.
- ToLower: lower-cases ASCII letters only. The Unicode mappings of `toLowerCase` never turn a non-ASCII character into one of the letters of the accepted keywords, except U+212A KELVIN SIGN to 'k', and no keyword contains 'k'.
- LoadConfig: when the environment headless setting resolves to `false` and config.json holds `null`, the code as written reads `fileConfig.headless` and throws. The model uses the corrected chain, which does not read the file then.
- ExtractPrompt: property access on an array body reads no own properties. An array is taken to have no `prompt` or `message` field.

## Findings

| source | as written | input that shows it | evidently intended | confidence | as-written member | corrected member |
|---|---|---|---|---|---|---|
| browser.js:94-97 | `envHeadlessOverride \|\| resolveHeadless(fileConfig.headless) \|\| DEFAULT_HEADLESS` treats a resolved `false` as missing | `HEADLESS=false`, or `"headless": false` in config.json: the browser still starts headless ("new") | A setting that resolves to `false` is honoured, as `resolveHeadless` returning `false` for "false"/"0"/"no"/"off" implies (a `??` chain) | not executed | Config.HeadlessChainAsWritten (Config.AsWrittenNeverHeaded, Config.EnvironmentFalseIsIgnored) | Config.HeadlessChain, used by Config.LoadConfig (Config.HeadlessPrecedence, Config.ChainsAgreeWithoutFalse) |
| fill.js:233 | `downloaded.filter((item) => !item.error)` keeps a failed item whose `error` is an empty string or `undefined` | A fetch rejected with an error whose message is "" (or a thrown non-Error value): `{src, error: ""}` is returned as a download | Only successfully fetched items are returned | not executed | Media.KeptAsWritten (Media.SilentFailureIsKept) | Media.Successful, used by Media.DownloadImages (Media.DownloadedSourcesWereFetched, Media.SuccessfulKeepsOrder) |
