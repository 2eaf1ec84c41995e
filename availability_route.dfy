/** app/api/availability/route.ts: the Next.js availability endpoint. `POST`
    upserts on the unique key `(userId, dayOfWeek)`: an existing row for the
    weekday gets the new times, otherwise a row is created. */
module AvailabilityRoute {
  import opened Common
  import opened Store
  import Seqs

  const DEFAULT_USER_ID: UserId := NumberUser(1)

  /** The JSON body of `POST`. */
  datatype UpsertRequest = UpsertRequest(dayOfWeek: Field<int>, startTime: Field<string>, endTime: Field<string>)

  /** `GET()`: the default user's rows by ascending weekday. */
  function List(rows: seq<Availability>): (r: seq<Availability>)
    ensures forall a :: a in r <==> a in rows && a.userId == DEFAULT_USER_ID
    ensures forall a :: multiset(r)[a] == if a.userId == DEFAULT_USER_ID then multiset(rows)[a] else 0
    ensures forall i, j :: 0 <= i < j < |r| ==> r[i].dayOfWeek <= r[j].dayOfWeek
  {
    Seqs.SelectSorted(rows, (a: Availability) => a.userId == DEFAULT_USER_ID, (a: Availability) => a.dayOfWeek)
  }

  /** `dayOfWeek === undefined || !startTime || !endTime`. */
  predicate MissingField(req: UpsertRequest) {
    req.dayOfWeek.Undefined? || !TruthyText(req.startTime) || !TruthyText(req.endTime)
  }

  /** The table after the `upsert` for the default user's `day`: the row with
      that key gets the new times, or a row with id `nextId` is appended. */
  function UpsertRows(rows: seq<Availability>, nextId: Id, day: int, startTime: string, endTime: string): seq<Availability> {
    match AvailabilityKeyIndex(rows, DEFAULT_USER_ID, day)
    case Some(k) => rows[k := rows[k].(startTime := startTime, endTime := endTime)]
    case None => rows + [Availability(nextId, DEFAULT_USER_ID, day, startTime, endTime)]
  }

  /** The row the `upsert` returns. */
  function UpsertedRow(rows: seq<Availability>, nextId: Id, day: int, startTime: string, endTime: string): Availability {
    match AvailabilityKeyIndex(rows, DEFAULT_USER_ID, day)
    case Some(k) => rows[k].(startTime := startTime, endTime := endTime)
    case None => Availability(nextId, DEFAULT_USER_ID, day, startTime, endTime)
  }

  /** `POST(request)`. A `null` weekday cannot be looked up on the unique key,
      so the query throws and the handler answers 500. */
  method Post(db: Db, req: UpsertRequest) returns (r: Reply<Availability>)
    requires db.Valid()
    modifies db
    ensures db.Valid()
    ensures MissingField(req) ==> r == Error(BAD_REQUEST, "Missing required fields")
    ensures !MissingField(req) && req.dayOfWeek.Null? ==> r == Error(INTERNAL_ERROR, "Failed to create availability")
    ensures r.Error? ==> db.availability == old(db.availability) && db.nextId == old(db.nextId)
    ensures !MissingField(req) && req.dayOfWeek.Given? ==>
      && db.availability == UpsertRows(old(db.availability), old(db.nextId), req.dayOfWeek.value, req.startTime.value, req.endTime.value)
      && r == Ok(CREATED, UpsertedRow(old(db.availability), old(db.nextId), req.dayOfWeek.value, req.startTime.value, req.endTime.value))
    ensures db.nextId == if r.Ok? && AvailabilityKeyIndex(old(db.availability), DEFAULT_USER_ID, r.body.dayOfWeek).None?
                         then old(db.nextId) + 1 else old(db.nextId)
    ensures db.eventTypes == old(db.eventTypes) && db.meetings == old(db.meetings)
  {
    if MissingField(req) {
      return Error(BAD_REQUEST, "Missing required fields");
    }
    if req.dayOfWeek.Null? {
      return Error(INTERNAL_ERROR, "Failed to create availability");
    }
    var day := req.dayOfWeek.value;
    var k := AvailabilityKeyIndex(db.availability, DEFAULT_USER_ID, day);
    var availability;
    if k.Some? {
      availability := db.availability[k.value].(startTime := req.startTime.value, endTime := req.endTime.value);
      db.availability := db.availability[k.value := availability];
    } else {
      availability := Availability(db.nextId, DEFAULT_USER_ID, day, req.startTime.value, req.endTime.value);
      AppendKeepsOneRowPerDay(db.availability, availability);
      db.availability := db.availability + [availability];
      db.nextId := db.nextId + 1;
    }
    return Ok(CREATED, availability);
  }

  /** After an upsert the table has exactly one row for the default user's
      `day`, and it holds the posted times. */
  lemma UpsertStores(rows: seq<Availability>, nextId: Id, day: int, startTime: string, endTime: string)
    requires OneRowPerDay(rows)
    ensures OneRowPerDay(UpsertRows(rows, nextId, day, startTime, endTime))
    ensures AvailabilityFor(UpsertRows(rows, nextId, day, startTime, endTime), DEFAULT_USER_ID, day).Some?
    ensures var a := AvailabilityFor(UpsertRows(rows, nextId, day, startTime, endTime), DEFAULT_USER_ID, day).value;
            a.startTime == startTime && a.endTime == endTime
  {
    var after := UpsertRows(rows, nextId, day, startTime, endTime);
    var k := AvailabilityKeyIndex(rows, DEFAULT_USER_ID, day);
    if k.None? {
      AppendKeepsOneRowPerDay(rows, Availability(nextId, DEFAULT_USER_ID, day, startTime, endTime));
      assert after[|rows|] in after;
    } else {
      assert after[k.value] in after;
    }
    var a := AvailabilityFor(after, DEFAULT_USER_ID, day).value;
    var i :| 0 <= i < |after| && after[i] == a;
    var j := if k.None? then |rows| else k.value;
    assert after[j].userId == DEFAULT_USER_ID && after[j].dayOfWeek == day;
    assert i == j;
  }

  /** An upsert leaves every row of another key as it was and adds no row for
      another key: the rows for other days (and users) are unchanged. */
  lemma UpsertKeepsOtherDays(rows: seq<Availability>, nextId: Id, day: int, startTime: string, endTime: string)
    ensures forall a: Availability :: a.userId != DEFAULT_USER_ID || a.dayOfWeek != day ==>
      (a in UpsertRows(rows, nextId, day, startTime, endTime) <==> a in rows)
  {
    var after := UpsertRows(rows, nextId, day, startTime, endTime);
    var k := AvailabilityKeyIndex(rows, DEFAULT_USER_ID, day);
    forall a: Availability | a.userId != DEFAULT_USER_ID || a.dayOfWeek != day
      ensures a in after <==> a in rows
    {
      if k.Some? {
        if a in rows {
          var i :| 0 <= i < |rows| && rows[i] == a;
          assert after[i] == a;
        }
        if a in after {
          var i :| 0 <= i < |after| && after[i] == a;
          assert rows[i] == a;
        }
      }
    }
  }

  /** Posting the same body twice leaves the table as posting it once; the
      second upsert finds the row the first one wrote. */
  lemma UpsertIdempotent(rows: seq<Availability>, nextId: Id, laterId: Id, day: int, startTime: string, endTime: string)
    ensures UpsertRows(UpsertRows(rows, nextId, day, startTime, endTime), laterId, day, startTime, endTime)
         == UpsertRows(rows, nextId, day, startTime, endTime)
  {
    var once := UpsertRows(rows, nextId, day, startTime, endTime);
    var k := AvailabilityKeyIndex(rows, DEFAULT_USER_ID, day);
    var j := if k.None? then |rows| else k.value;
    assert once[j].userId == DEFAULT_USER_ID && once[j].dayOfWeek == day;
    var k2 := AvailabilityKeyIndex(once, DEFAULT_USER_ID, day);
    assert k2.Some?;
    assert k2.value <= j;
    if k.Some? {
      assert k2.value == j;
    }
  }
}
