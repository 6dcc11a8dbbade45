/** A parsed JSON document, as the JSON reader hands it to the callouts. */
module JsonValues {
  import opened Wrappers

  datatype Json =
    | JNull
    | JBool(b: bool)
    | JNumber(text: string)
    | JString(s: string)
    | JArray(items: seq<Json>)
    | JObject(fields: map<string, Json>)

  /** The outcome of reading a member and casting it to String: null, a string, or a failed cast. */
  datatype StringField = NullString | Str(s: string) | NotAString

  /** `(String) obj.get(name)`: an absent member and a JSON null read as null. */
  function StringMember(fields: map<string, Json>, name: string): (r: StringField)
    ensures r == NullString <==> name !in fields || fields[name] == JNull
    ensures r.Str? <==> name in fields && fields[name].JString?
    ensures r.Str? ==> fields[name] == JString(r.s)
  {
    if name !in fields then NullString
    else match fields[name]
      case JNull => NullString
      case JString(s) => Str(s)
      case _ => NotAString
  }

  /**
   * The host's JSON reader (JavaxJson.fromJson on a Map): the top-level object
   * of the text, or the exception it raises.
   */
  type JsonReader<X> = string -> Result<map<string, Json>, X>

  /** The host's JSON writer (JavaxJson.toJson). */
  type JsonWriter = map<string, Json> -> string
}
