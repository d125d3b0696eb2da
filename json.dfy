/**
 * The JSON values the protocol exchanges, the QJsonValue accessors the
 * session and the client use, and the QJsonDocument codec as a parameter.
 */
module Json {
  import opened Wrappers
  import opened Framing

  /**
   * A JSON value. Numbers and null, which the protocol never reads as a
   * string, a boolean or an array, are all represented by `JNull`.
   */
  datatype Json =
    | JNull
    | JBool(b: bool)
    | JString(s: string)
    | JArray(items: seq<Json>)
    | JObject(fields: map<string, Json>)

  type JsonObject = map<string, Json>

  /** QJsonValue::toString(): the string it holds, "" for any other value. */
  function AsString(v: Json): string
  {
    if v.JString? then v.s else ""
  }

  /** `json[key].toString()`: "" for a missing key or a value that is not a string. */
  function StringAt(o: JsonObject, key: string): (s: string)
    ensures key in o && o[key].JString? ==> s == o[key].s
    ensures (key !in o || !o[key].JString?) ==> s == ""
  {
    if key in o then AsString(o[key]) else ""
  }

  /** `json[key].toBool()`: false unless the key holds `true`. */
  function BoolAt(o: JsonObject, key: string): (b: bool)
    ensures b <==> key in o && o[key] == JBool(true)
  {
    key in o && o[key].JBool? && o[key].b
  }

  /** `json[key].toArray()`: the empty array unless the key holds an array. */
  function ArrayAt(o: JsonObject, key: string): (a: seq<Json>)
    ensures key in o && o[key].JArray? ==> a == o[key].items
    ensures (key !in o || !o[key].JArray?) ==> a == []
  {
    if key in o && o[key].JArray? then o[key].items else []
  }

  /** A QJsonArray built by appending strings. */
  function StringArray(ss: seq<string>): (a: seq<Json>)
    ensures |a| == |ss|
    ensures forall i :: 0 <= i < |ss| ==> a[i] == JString(ss[i])
  {
    seq(|ss|, i requires 0 <= i < |ss| => JString(ss[i]))
  }

  /** The QStringList a loop of `append(value.toString())` builds from an array. */
  function Strings(items: seq<Json>): (ss: seq<string>)
    ensures |ss| == |items|
    ensures forall i :: 0 <= i < |items| ==> ss[i] == AsString(items[i])
  {
    seq(|items|, i requires 0 <= i < |items| => AsString(items[i]))
  }

  /** Converting an array of strings back to a string list gives the same list, in order. */
  lemma StringsOfStringArray(ss: seq<string>)
    ensures Strings(StringArray(ss)) == ss
  {
  }

  /**
   * QJsonDocument's compact serialisation (`encode`) and `fromJson` followed
   * by `isObject()`/`object()` (`decode`, None when the bytes are not a JSON object).
   */
  datatype JsonCodec = JsonCodec(encode: JsonObject -> seq<Byte>, decode: seq<Byte> -> Option<JsonObject>)

  /** What the protocol takes for granted of QJsonDocument: parsing inverts serialising, and an empty document is not an object. */
  ghost predicate Lawful(c: JsonCodec)
  {
    && (forall o :: c.decode(c.encode(o)) == Some(o))
    && c.decode([]) == None
  }

  /** None of the payloads parses as a JSON object. */
  predicate NoObject(c: JsonCodec, payloads: seq<seq<Byte>>)
  {
    forall i :: 0 <= i < |payloads| ==> c.decode(payloads[i]).None?
  }

  lemma NoObjectSnoc(c: JsonCodec, payloads: seq<seq<Byte>>, p: seq<Byte>)
    ensures NoObject(c, payloads + [p]) <==> NoObject(c, payloads) && c.decode(p).None?
  {
    var ps := payloads + [p];
    assert ps[|payloads|] == p;
    assert forall i :: 0 <= i < |payloads| ==> ps[i] == payloads[i];
  }
}
