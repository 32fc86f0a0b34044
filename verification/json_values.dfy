/** The values `json.loads` can produce, and the decoder itself as an
    oracle: the standard library's parser is not part of this model, so
    every operation that decodes text takes a `Decoder` argument and says
    what it does with each of its two possible answers. */
module JsonValues {
  import opened Base

  /** A decoded JSON value. Objects are Python dicts modelled as maps, so
      their key order (which does show in a serialised response) is not
      kept. Numbers are kept as their mathematical value. */
  datatype Json =
    | JNull
    | JBool(b: bool)
    | JNum(n: real)
    | JStr(s: string)
    | JArr(items: seq<Json>)
    | JObj(fields: map<string, Json>)

  /** `json.loads`: the decoded value, or the text of the `JSONDecodeError`. */
  type Decoder = string -> Result<Json, string>

  /** A Python integer stored in a dict, such as a page number or an index. */
  function Int(n: nat): Json {
    JNum(n as real)
  }
}
