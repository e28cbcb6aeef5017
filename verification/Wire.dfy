/** JSON values as they are sent. */
module Wire {
  /** A JSON value; a number is its text. */
  datatype WireValue =
    | Null
    | Bool(value: bool)
    | Num(text: string)
    | Str(chars: string)
    | List(items: seq<WireValue>)
    | Obj(fields: map<string, WireValue>)
}
