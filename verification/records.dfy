/**
 * The JSON values the vault is made of. A password record is a JSON object:
 * the form's fields (`site`, `username`, `password`, ...) plus the `id` and
 * `createdAt` that `addPassword` stamps on it.
 */
module Records {
  import opened Types

  /** A JSON value; numbers are the integers the vault stores (`Date.now()` ids). */
  datatype Json =
    | Null
    | Bool(b: bool)
    | Num(n: int)
    | Str(s: string)
    | Arr(items: seq<Json>)
    | Obj(fields: map<string, Json>)

  /** A password record: an object's properties by name. */
  type Record = map<string, Json>

  /** `record[name]`: `None` is `undefined`. */
  function Field(r: Record, name: string): Option<Json>
  {
    if name in r then Some(r[name]) else None
  }

  /** JavaScript truthiness of a property value. */
  predicate Truthy(v: Option<Json>)
  {
    match v
    case None => false
    case Some(Null) => false
    case Some(Bool(b)) => b
    case Some(Num(n)) => n != 0
    case Some(Str(s)) => |s| > 0
    case Some(Arr(_)) => true
    case Some(Obj(_)) => true
  }

  /** `{...r, ...u}`: the properties of both, `u`'s winning where both have one. */
  function Merge(r: Record, u: Record): (m: Record)
    ensures m.Keys == r.Keys + u.Keys
    ensures forall k :: k in u ==> m[k] == u[k]
    ensures forall k :: k in r && k !in u ==> m[k] == r[k]
  {
    r + u
  }

  /** `record.id === id` for a numeric id. */
  predicate HasId(r: Record, id: int)
  {
    Field(r, "id") == Some(Num(id))
  }

  /** The JSON array a record list is serialised as. */
  function ToJson(rs: seq<Record>): (v: Json)
    ensures v.Arr? && |v.items| == |rs|
  {
    Arr(seq(|rs|, k requires 0 <= k < |rs| => Obj(rs[k])))
  }

  /** Reading a parsed value as a record list: an array of objects. */
  function AsRecords(v: Json): Option<seq<Record>>
  {
    if v.Arr? && forall k :: 0 <= k < |v.items| ==> v.items[k].Obj? then
      Some(seq(|v.items|, k requires 0 <= k < |v.items| && v.items[k].Obj? => v.items[k].fields))
    else
      None
  }

  /** A record list is read back from its own JSON array. */
  lemma AsRecordsToJson(rs: seq<Record>)
    ensures AsRecords(ToJson(rs)) == Some(rs)
  {
    var v := ToJson(rs);
    assert forall k :: 0 <= k < |v.items| ==> v.items[k] == Obj(rs[k]);
    var read := seq(|v.items|, k requires 0 <= k < |v.items| && v.items[k].Obj? => v.items[k].fields);
    assert forall k :: 0 <= k < |rs| ==> read[k] == rs[k];
    assert read == rs;
  }
}
