/** JSON documents as values, and the JSON codec (`to_json` / `JSON.parse`) as a parameter:
    the codec is library code, so the model only assumes what every correct codec does. */
module Json {
  import opened Wrappers
  import Base64

  datatype Value =
    | Null
    | Bool(b: bool)
    | Num(n: int)
    | Str(s: string)
    | Arr(items: seq<Value>)
    | Obj(fields: map<string, Value>)

  /** An encoder to UTF-8 bytes and a parser back from them; `parse` answers None on malformed input. */
  datatype Codec = Codec(encode: Value -> seq<Base64.byte>, parse: seq<Base64.byte> -> Option<Value>)

  /** Parsing an encoded document gives the document back, and no document encodes to nothing. */
  ghost predicate Faithful(c: Codec) {
    && (forall v :: c.parse(c.encode(v)) == Some(v))
    && (forall v :: |c.encode(v)| > 0)
  }

  /** `doc[key]` on a parsed document that is a Hash; None stands for `nil`. */
  function Lookup(doc: Value, key: string): (r: Option<Value>)
    ensures r.Some? <==> doc.Obj? && key in doc.fields
  {
    if doc.Obj? && key in doc.fields then Some(doc.fields[key]) else None
  }
}
