/**
  The two request handlers of the strings controller, as pure functions
  from the current list of entries and the request value to the reply and
  the next list. The digest function, the clock reading for `created_at`
  and the outcome of writing the list back to disk are parameters.
 */
module StringsController {
  import opened Text
  import opened Utils
  import opened Analysis
  import opened Store
  import opened JsValues

  const ValueRequired := "Value is required"
  const ValueMustBeString := "Value must be a string"
  const StringExists := "String already exists"
  const StringNotFound := "String not found"
  const InternalServerError := "Internal server error"

  /** What `fs.writeFileSync` did with the serialised list. */
  datatype WriteOutcome = Written | WriteFailed(reason: string)

  /** The JSON body of a reply. */
  datatype Payload =
    | Error(message: string)                       // { status: "error", message }
    | ErrorWithData(message: string, data: Entry)  // { status: "error", message, data }
    | ErrorWithCause(message: string, error: string) // { status: "error", message, error }
    | Found(entry: Entry)                          // the entry itself

  datatype Reply = Reply(status: nat, payload: Payload)

  /** The entry built for an already trimmed value. */
  function NewEntry(sha256: Hasher, value: string, createdAt: string): (e: Entry)
    ensures e.value == value && e.id == sha256(value) && e.properties.sha256Hash == e.id
    ensures Describes(e.properties, value, e.id)
    ensures e.createdAt == createdAt
  {
    var hash := sha256(value);
    Entry(hash, value, ComputeProperties(value, hash), createdAt)
  }

  /** `analyzeString`: validate, trim, hash, reject a duplicate id, else
      append the new entry and persist the list. The append precedes the
      write, so a failed write still leaves the entry stored. */
  function AnalyzeString(sha256: Hasher, db: Db, body: JsValue, createdAt: string, write: WriteOutcome)
    : (out: (Reply, Db))
    // validation errors leave the list alone
    ensures !Truthy(body) ==> out == (Reply(400, Error(ValueRequired)), db)
    ensures Truthy(body) && !IsString(body) ==> out == (Reply(422, Error(ValueMustBeString)), db)
    // a duplicate id answers 409 with the first entry holding it
    ensures Truthy(body) && IsString(body) && HasId(db, sha256(Trim(body.s))) ==>
      && out.1 == db
      && out.0.status == 409
      && out.0.payload.ErrorWithData? && out.0.payload.message == StringExists
      && Find(db, sha256(Trim(body.s))) == Some(out.0.payload.data)
    // otherwise exactly one entry is appended, describing the trimmed value
    ensures Truthy(body) && IsString(body) && !HasId(db, sha256(Trim(body.s))) ==>
      && |out.1| == |db| + 1
      && out.1[..|db|] == db
      && var e := out.1[|db|];
      && e.value == Trim(body.s)
      && e.id == sha256(e.value) == e.properties.sha256Hash
      && Describes(e.properties, e.value, e.id)
      && e.createdAt == createdAt
      && out.0 == (match write
                   case Written => Reply(200, Found(e))
                   case WriteFailed(reason) => Reply(500, ErrorWithCause(InternalServerError, reason)))
  {
    if !Truthy(body) then (Reply(400, Error(ValueRequired)), db)
    else if !IsString(body) then (Reply(422, Error(ValueMustBeString)), db)
    else
      var value := Trim(body.s);
      var hash := sha256(value);
      match Find(db, hash)
      case Some(existing) => (Reply(409, ErrorWithData(StringExists, existing)), db)
      case None =>
        var data := NewEntry(sha256, value, createdAt);
        var db' := db + [data];
        assert db'[..|db|] == db;
        match write
        case Written => (Reply(200, Found(data)), db')
        case WriteFailed(reason) => (Reply(500, ErrorWithCause(InternalServerError, reason)), db')
  }

  /** `getSpecificString`: validate, trim, hash and look the id up. The
      list is only read, so the reply is all there is. */
  function GetSpecificString(sha256: Hasher, db: Db, param: JsValue): (reply: Reply)
    ensures !Truthy(param) ==> reply == Reply(400, Error(ValueRequired))
    ensures Truthy(param) && !IsString(param) ==> reply == Reply(422, Error(ValueMustBeString))
    ensures Truthy(param) && IsString(param) ==>
      && (reply.status == 200 <==> HasId(db, sha256(Trim(param.s))))
      && (reply.status == 200 ==>
            && reply.payload.Found?
            && Find(db, sha256(Trim(param.s))) == Some(reply.payload.entry))
      && (reply.status != 200 ==> reply == Reply(404, Error(StringNotFound)))
  {
    if !Truthy(param) then Reply(400, Error(ValueRequired))
    else if !IsString(param) then Reply(422, Error(ValueMustBeString))
    else
      var value := Trim(param.s);
      match Find(db, sha256(value))
      case None => Reply(404, Error(StringNotFound))
      case Some(existing) => Reply(200, Found(existing))
  }

  /** Whole-list invariant: every entry is content-addressed by its own
      value, describes that value, and no id occurs twice. */
  ghost predicate Consistent(sha256: Hasher, db: Db) {
    && DistinctIds(db)
    && forall i :: 0 <= i < |db| ==>
         && db[i].id == sha256(db[i].value)
         && Trimmed(db[i].value)
         && Describes(db[i].properties, db[i].value, db[i].id)
  }

  /** The list changes exactly when the request is a non-empty string
      whose trimmed form has an unused id, and then it grows by that
      string's entry. */
  lemma AnalyzeAppended(sha256: Hasher, db: Db, body: JsValue, createdAt: string, write: WriteOutcome)
    ensures var db' := AnalyzeString(sha256, db, body, createdAt, write).1;
            db' != db <==> Truthy(body) && IsString(body) && !HasId(db, sha256(Trim(body.s)))
    ensures var db' := AnalyzeString(sha256, db, body, createdAt, write).1;
            db' != db ==> db' == db + [NewEntry(sha256, Trim(body.s), createdAt)]
  {
  }

  /** Appending an entry that is addressed by its own trimmed value,
      describes it, and carries an unused id keeps the list consistent. */
  lemma {:induction false} AppendPreservesConsistency(sha256: Hasher, db: Db, e: Entry)
    requires Consistent(sha256, db)
    requires !HasId(db, e.id) && e.id == sha256(e.value) && Trimmed(e.value)
    requires Describes(e.properties, e.value, e.id)
    ensures Consistent(sha256, db + [e])
  {
    var db' := db + [e];
    forall i, j | 0 <= i < j < |db'|
      ensures db'[i].id != db'[j].id
    {
      if j == |db| {
        assert db[i].id == db'[i].id;
      } else {
        assert db'[i] == db[i] && db'[j] == db[j];
      }
    }
    forall i | 0 <= i < |db'|
      ensures db'[i].id == sha256(db'[i].value) && Trimmed(db'[i].value)
      ensures Describes(db'[i].properties, db'[i].value, db'[i].id)
    {
      if i < |db| {
        assert db'[i] == db[i];
      }
    }
  }

  /** `analyzeString` keeps the list consistent, whatever it answers. */
  lemma {:induction false} AnalyzePreservesConsistency(sha256: Hasher, db: Db, body: JsValue, createdAt: string, write: WriteOutcome)
    requires Consistent(sha256, db)
    ensures Consistent(sha256, AnalyzeString(sha256, db, body, createdAt, write).1)
  {
    AnalyzeAppended(sha256, db, body, createdAt, write);
    if AnalyzeString(sha256, db, body, createdAt, write).1 != db {
      AppendPreservesConsistency(sha256, db, NewEntry(sha256, Trim(body.s), createdAt));
    }
  }

  /** In a consistent list no string is stored twice. */
  lemma ConsistentValuesDistinct(sha256: Hasher, db: Db, i: nat, j: nat)
    requires Consistent(sha256, db)
    requires i < j < |db|
    ensures db[i].value != db[j].value
  {
  }

  /** With a well-formed digest function every stored id is 64 lower-case
      hex digits. */
  lemma ConsistentIdsAreHex(sha256: Hasher, db: Db, i: nat)
    requires ValidHasher(sha256) && Consistent(sha256, db)
    requires i < |db|
    ensures IsSha256Hex(db[i].id)
  {
  }

  /** In a consistent list every stored value can be fetched back with its
      own text; only a stored empty string is refused, by the 400 check. */
  lemma GetStored(sha256: Hasher, db: Db, i: nat)
    requires Consistent(sha256, db) && i < |db|
    ensures var v := db[i].value;
            && (|v| > 0 ==> GetSpecificString(sha256, db, Str(v)) == Reply(200, Found(db[i])))
            && (|v| == 0 ==> GetSpecificString(sha256, db, Str(v)) == Reply(400, Error(ValueRequired)))
  {
    var v := db[i].value;
    assert v[0..|v|] == v;
    TrimOfSlice(v, 0, |v|);
    FindUnique(db, sha256(v), i);
  }

  /** A lookup whose digest is the id of a freshly appended entry finds
      that entry. */
  lemma {:induction false} GetAppended(sha256: Hasher, db: Db, e: Entry, p: string)
    requires !HasId(db, e.id) && |p| > 0 && e.id == sha256(Trim(p))
    ensures GetSpecificString(sha256, db + [e], Str(p)) == Reply(200, Found(e))
  {
    var param := Str(p);
    assert Truthy(param) && IsString(param) && param.s == p;
    FindAfterAppend(db, e, e.id);
    assert Find(db + [e], sha256(Trim(p))) == Some(e);
  }

  /** Round trip: when `analyzeString` stores `s`, a lookup with any
      non-empty value that trims to the same string finds the stored
      entry. */
  lemma {:induction false} AnalyzeThenGet(sha256: Hasher, db: Db, s: string, createdAt: string, write: WriteOutcome, p: string)
    requires |s| > 0 && !HasId(db, sha256(Trim(s)))
    requires |p| > 0 && Trim(p) == Trim(s)
    ensures var e := NewEntry(sha256, Trim(s), createdAt);
            && AnalyzeString(sha256, db, Str(s), createdAt, write).1 == db + [e]
            && GetSpecificString(sha256, db + [e], Str(p)) == Reply(200, Found(e))
  {
    var body := Str(s);
    assert Truthy(body) && IsString(body) && body.s == s;
    AnalyzeAppended(sha256, db, body, createdAt, write);
    GetAppended(sha256, db, NewEntry(sha256, Trim(s), createdAt), p);
  }

  /** Posting a string that is not stored yet appends it; posting it again
      answers 409 with that entry and leaves the list as it was, whether or
      not the first write succeeded. */
  lemma {:induction false} AnalyzeTwice(sha256: Hasher, db: Db, s: string, t1: string, t2: string, w1: WriteOutcome, w2: WriteOutcome)
    requires |s| > 0 && !HasId(db, sha256(Trim(s)))
    ensures var e := NewEntry(sha256, Trim(s), t1);
            && AnalyzeString(sha256, db, Str(s), t1, w1).1 == db + [e]
            && AnalyzeString(sha256, db + [e], Str(s), t2, w2) == (Reply(409, ErrorWithData(StringExists, e)), db + [e])
  {
    var body := Str(s);
    assert Truthy(body) && IsString(body) && body.s == s;
    AnalyzeAppended(sha256, db, body, t1, w1);
    var e := NewEntry(sha256, Trim(s), t1);
    FindAfterAppend(db, e, e.id);
  }

  /** The entry a 409 carries is the one a lookup of the same value
      returns. */
  lemma ConflictAgreesWithGet(sha256: Hasher, db: Db, s: string, createdAt: string, write: WriteOutcome)
    requires |s| > 0 && HasId(db, sha256(Trim(s)))
    ensures var reply := AnalyzeString(sha256, db, Str(s), createdAt, write).0;
            && reply.status == 409
            && reply.payload.ErrorWithData?
            && GetSpecificString(sha256, db, Str(s)) == Reply(200, Found(reply.payload.data))
  {
    var body := Str(s);
    assert Truthy(body) && IsString(body) && body.s == s;
  }
}
