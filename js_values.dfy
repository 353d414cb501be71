/** The JavaScript values the importer hands to `writeRow` and to JSON.stringify. */
module JsValues {

  /** A JavaScript value; an object is the list of its own properties in property order. */
  datatype JsValue =
    | Undefined
    | Null
    | Bool(b: bool)
    | Num(n: real)
    | Str(s: string)
    | Arr(items: seq<JsValue>)
    | Obj(props: seq<(string, JsValue)>)

  /** The result of JavaScript's `typeof` operator. */
  function TypeOf(v: JsValue): string
  {
    match v
    case Undefined => "undefined"
    case Null => "object"
    case Bool(_) => "boolean"
    case Num(_) => "number"
    case Str(_) => "string"
    case Arr(_) => "object"
    case Obj(_) => "object"
  }
}
