/**
 * Decoded JSON values as encoding/json produces them for an
 * `interface{}` target.  An object is kept as the sequence of its members
 * in the order the program iterates them (Go leaves that order open).
 */
module Json {

  datatype Json =
    | JNull
    | JBool(b: bool)
    | JNumber(n: int)
    | JString(s: string)
    | JArray(items: seq<Json>)
    | JObject(members: seq<Member>)

  datatype Member = Member(key: string, value: Json)

  /**
   * Where `key` is stored in an object: the index of the first member with
   * that key, or |members| when there is none (a Go map lookup with `ok`).
   */
  function KeyIndex(members: seq<Member>, key: string): (i: nat)
    ensures i <= |members|
    ensures i < |members| ==> members[i].key == key
    ensures forall j :: 0 <= j < i ==> members[j].key != key
  {
    if |members| == 0 then 0
    else if members[0].key == key then 0
    else 1 + KeyIndex(members[1..], key)
  }
}
