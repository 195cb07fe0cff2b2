/**
 * The JSON values a deck file decodes to. Objects are maps, so the order of
 * their keys is not represented; numbers are integers.
 */
module Json {
  datatype Value =
    | Null
    | Bool(b: bool)
    | Number(n: int)
    | Str(s: string)
    | Array(items: seq<Value>)
    | Object(fields: map<string, Value>)

  /** Every item is a string (`all(isinstance(x, str) for x in items)`). */
  predicate AllStrings(items: seq<Value>) {
    forall k :: 0 <= k < |items| ==> items[k].Str?
  }
}
