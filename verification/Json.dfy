/** JSON values as the exporter sees them after parsing. */
module Json {
  import opened Basics

  datatype Json =
    | JNull
    | JBool(flag: bool)
    | JNumber(literal: string)
    | JString(text: string)
    | JArray(items: seq<Json>)
    | JObject(members: map<string, Json>)

  /** Member lookup by key; anything but an object has no members. */
  function Member(value: Json, key: string): Option<Json> {
    if value.JObject? && key in value.members then Some(value.members[key]) else None
  }

  /** The record's id, or its case id when it has no id member; only strings count. */
  function RecordIdentity(value: Json): Option<string> {
    var id := if Member(value, "id").Some? then Member(value, "id") else Member(value, "case_id");
    if id.Some? && id.value.JString? then Some(id.value.text) else None
  }

  /** The identity is the id's text; the case id's counts only where there is no id member at all. */
  lemma {:induction false} IdentityExactly(value: Json, text: string)
    ensures RecordIdentity(value) == Some(text) <==>
      && value.JObject?
      && (if "id" in value.members then value.members["id"] == JString(text)
          else "case_id" in value.members && value.members["case_id"] == JString(text))
  {
  }
}
