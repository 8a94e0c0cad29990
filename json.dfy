/** The JSON documents a message carries (`serde_json::Value`) and the two
    operations of serde_json the codec relies on, kept abstract. */
module Json {
  import opened Wrappers
  import opened Octets

  /** A JSON value. Numbers are the integers the core writes (execution counts);
      objects are finite maps, as in serde_json's default map. */
  datatype Value =
    | Null
    | Bool(b: bool)
    | Number(n: int)
    | Str(s: string)
    | Array(items: seq<Value>)
    | Object(fields: map<string, Value>)

  /** `json!({})`. */
  const EmptyObject: Value := Object(map[])

  /** `value[key]` on a `serde_json::Value`: the member when `v` is an object
      holding `key`, and `Null` otherwise (a missing key or a non-object). */
  function Index(v: Value, key: string): Value {
    if v.Object? && key in v.fields then v.fields[key] else Null
  }

  /** `v.get(key).and_then(|x| x.as_str()).unwrap_or("")`. */
  function StrOrEmpty(v: Value, key: string): string {
    match Index(v, key)
    case Str(s) => s
    case _ => ""
  }

  /** serde_json's `to_vec` and `from_slice`. Neither is modelled; `from_slice`
      answers `None` for bytes that are not a JSON document. */
  datatype JsonCodec = JsonCodec(serialize: Value -> Bytes, parse: Bytes -> Option<Value>)

  /** What the round trip through the wire needs of serde_json: parsing what it
      serialized gives the value back. Used as a hypothesis, never assumed. */
  ghost predicate Lawful(json: JsonCodec) {
    forall v :: json.parse(json.serialize(v)) == Some(v)
  }
}
