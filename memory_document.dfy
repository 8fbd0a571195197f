/** The admin memory document (`MEMORY`, persisted in memory.json) and the two ways an
    admin edits it. */
module MemoryDocument {

  /** A JSON value, as the request body and memory.json carry them (floats left out). */
  datatype Json =
    | JNull
    | JBool(b: bool)
    | JInt(n: int)
    | JStr(s: string)
    | JArr(items: seq<Json>)
    | JObj(fields: map<string, Json>)

  /** A JSON object: the memory document. */
  type Memory = map<string, Json>

  const AdminInstructions: string := "admin_instructions"
  const LastUpdated: string := "last_updated"

  /** What `load_memory` returns when memory.json is missing or unreadable. */
  function DefaultMemory(): (m: Memory)
    ensures m.Keys == {AdminInstructions, "system_state", "behavioral_rules"}
    ensures m[AdminInstructions] == JStr("")
  {
    map[AdminInstructions := JStr(""), "system_state" := JStr("Operational"), "behavioral_rules" := JArr([])]
  }

  /** Python truthiness of a JSON value: `not v`. */
  predicate Falsy(v: Json) {
    match v
    case JNull => true
    case JBool(b) => !b
    case JInt(n) => n == 0
    case JStr(s) => s == ""
    case JArr(items) => items == []
    case JObj(fields) => fields == map[]
  }

  /** `MEMORY.update(data)` followed by the `last_updated` stamp: exactly the incoming keys
      are overwritten, the stamp is set, and every other key keeps its value. */
  function Merged(m: Memory, data: Memory, now: int): (r: Memory)
    ensures r.Keys == m.Keys + data.Keys + {LastUpdated}
    ensures r[LastUpdated] == JInt(now)
    ensures forall k :: k in data && k != LastUpdated ==> r[k] == data[k]
    ensures forall k :: k in m && k !in data && k != LastUpdated ==> r[k] == m[k]
  {
    (m + data)[LastUpdated := JInt(now)]
  }

  /** `MEMORY["admin_instructions"] = instructions` followed by the stamp. */
  function WithInstructions(m: Memory, instructions: Json, now: int): (r: Memory)
    ensures r.Keys == m.Keys + {AdminInstructions, LastUpdated}
    ensures r[AdminInstructions] == instructions && r[LastUpdated] == JInt(now)
    ensures forall k :: k in m && k != AdminInstructions && k != LastUpdated ==> r[k] == m[k]
  {
    m[AdminInstructions := instructions][LastUpdated := JInt(now)]
  }

  /** Replaying the same edit later only moves the stamp. */
  lemma MergedTwice(m: Memory, data: Memory, t1: int, t2: int)
    ensures Merged(Merged(m, data, t1), data, t2) == Merged(m, data, t2)
  {
    var a, b := Merged(Merged(m, data, t1), data, t2), Merged(m, data, t2);
    assert a.Keys == b.Keys;
    forall k | k in a ensures a[k] == b[k] {
    }
  }
}
