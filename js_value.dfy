/** The JavaScript values the core inspects: request bodies, configuration entries,
    environment variables and `JSON.parse` results. A number carries its canonical
    JavaScript string form, which is all the core ever does with one (`String(n)`). */
module JsValues {
  import opened Wrappers

  datatype JsValue =
    | JUndefined
    | JNull
    | JBool(b: bool)
    | JNumber(text: string)
    | JString(s: string)
    | JArray(items: seq<JsValue>)
    | JObject(props: map<string, JsValue>)

  /** `typeof v === "object"` for a value that is not `null`. */
  predicate IsObjectLike(v: JsValue) {
    v.JObject? || v.JArray?
  }

  /** `v.key`: `None` where JavaScript throws a TypeError (`null` or `undefined`),
      `undefined` for a missing property or a primitive. */
  function Member(v: JsValue, key: string): (r: Option<JsValue>)
    ensures r.None? <==> v.JNull? || v.JUndefined?
    ensures v.JObject? && key in v.props ==> r == Some(v.props[key])
  {
    match v
    case JNull => None
    case JUndefined => None
    case JObject(props) => Some(if key in props then props[key] else JUndefined)
    case _ => Some(JUndefined)
  }

  /** `a ?? b`. */
  function Nullish(a: JsValue, b: JsValue): JsValue {
    if a.JNull? || a.JUndefined? then b else a
  }
}
