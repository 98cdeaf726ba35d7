/**
  The in-memory list of stored entries (`stringsDb`), in insertion order,
  and the `find` by id the handlers run over it.
 */
module Store {
  import opened Text
  import opened Utils
  import opened Analysis

  datatype Option<T> = None | Some(value: T)

  /** One stored string. */
  datatype Entry = Entry(id: string, value: string, properties: Properties, createdAt: string)

  /** The ordered list of entries. */
  type Db = seq<Entry>

  predicate HasId(db: Db, id: string) {
    exists i :: 0 <= i < |db| && db[i].id == id
  }

  /** Position of the first entry whose id is `id`: the element
      `db.find(entry => entry.id === id)` returns. */
  function FindIndex(db: Db, id: string): (r: Option<nat>)
    ensures r.Some? ==> r.value < |db| && db[r.value].id == id
    ensures r.Some? ==> forall j :: 0 <= j < r.value ==> db[j].id != id
    ensures r.None? <==> !HasId(db, id)
    decreases |db|
  {
    if |db| == 0 then None
    else if db[0].id == id then Some(0)
    else
      match FindIndex(db[1..], id)
      case None =>
        assert forall j :: 1 <= j < |db| ==> db[j] == db[1..][j - 1];
        None
      case Some(i) => Some(i + 1)
  }

  /** `db.find(entry => entry.id === id)`. */
  function Find(db: Db, id: string): (r: Option<Entry>)
    ensures r.None? <==> !HasId(db, id)
    ensures r.Some? ==> r.value in db && r.value.id == id
    ensures r.Some? ==> exists k :: 0 <= k < |db| && db[k] == r.value && forall j :: 0 <= j < k ==> db[j].id != id
  {
    match FindIndex(db, id)
    case None => None
    case Some(i) => Some(db[i])
  }

  /** After appending an entry whose id is new, `find` by that id reaches
      the appended entry, and every other id finds what it found before. */
  lemma {:induction false} FindAfterAppend(db: Db, e: Entry, id: string)
    requires !HasId(db, e.id)
    ensures id == e.id ==> Find(db + [e], id) == Some(e)
    ensures id != e.id ==> Find(db + [e], id) == Find(db, id)
  {
    var db' := db + [e];
    assert db'[|db|] == e;
    assert forall j :: 0 <= j < |db| ==> db'[j] == db[j];
    if HasId(db, id) {
      var k :| 0 <= k < |db| && db[k].id == id;
      assert db'[k].id == id;
    }
  }

  /** No two entries share an id. */
  ghost predicate DistinctIds(db: Db) {
    forall i, j :: 0 <= i < j < |db| ==> db[i].id != db[j].id
  }

  /** Under distinct ids, the entry `find` returns is the only one with
      that id. */
  lemma FindUnique(db: Db, id: string, k: nat)
    requires DistinctIds(db)
    requires k < |db| && db[k].id == id
    ensures Find(db, id) == Some(db[k])
  {
    var r := FindIndex(db, id);
    assert r.Some?;
    assert r.value == k;
  }
}
