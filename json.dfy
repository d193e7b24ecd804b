/**
 * The values that the JSON library hands to and takes from the tool.
 * Parsing and printing stay outside the model: the operations that need them
 * receive them as function parameters.
 */
module Json {

  /** A JSON value: a Named List is an array of objects (Records). */
  datatype Value =
    | JNull
    | JBool(b: bool)
    | JNumber(text: string)
    | JString(s: string)
    | JArray(items: seq<Value>)
    | JObject(members: seq<(string, Value)>)
}
