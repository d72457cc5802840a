/**
 * The loosely typed record values a transcript line decodes to. Numbers are
 * kept as their source text: the model never computes with them.
 */
module Json {
  import opened Common

  datatype Json =
    | Null
    | Bool(b: bool)
    | Number(text: string)
    | Str(s: string)
    | Array(items: seq<Json>)
    | Object(fields: map<string, Json>)

  /**
   * One decoded transcript record: the `type` discriminator and the bag of
   * all other fields (the flattened `data` object).
   */
  datatype Message = Message(msgType: string, data: map<string, Json>)

  /** `fields.get(key).and_then(|v| v.as_str())`. */
  function StrField(fields: map<string, Json>, key: string): Option<string> {
    if key in fields && fields[key].Str? then Some(fields[key].s) else None
  }
}
