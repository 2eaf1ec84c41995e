/** src/controllers/availabilityController.ts: the Express availability
    handlers. A user has at most one row per weekday: create refuses a second
    one, update patches the times of a row found by id, delete removes it. */
module AvailabilityController {
  import opened Common
  import opened Store
  import Seqs

  const DEFAULT_USER_ID: UserId := TextUser("default-user-id")

  /** The body of `POST /availability`. */
  datatype CreateRequest = CreateRequest(dayOfWeek: Field<int>, startTime: Field<string>, endTime: Field<string>)

  /** `getAvailability`: the default user's rows by ascending weekday. */
  function List(rows: seq<Availability>): (r: seq<Availability>)
    ensures forall a :: a in r <==> a in rows && a.userId == DEFAULT_USER_ID
    ensures forall a :: multiset(r)[a] == if a.userId == DEFAULT_USER_ID then multiset(rows)[a] else 0
    ensures forall i, j :: 0 <= i < j < |r| ==> r[i].dayOfWeek <= r[j].dayOfWeek
  {
    Seqs.SelectSorted(rows, (a: Availability) => a.userId == DEFAULT_USER_ID, (a: Availability) => a.dayOfWeek)
  }

  /** `dayOfWeek === undefined || !startTime || !endTime`: only an absent
      weekday counts as missing, so 0 (Sunday) and `null` pass this test. */
  predicate MissingField(req: CreateRequest) {
    req.dayOfWeek.Undefined? || !TruthyText(req.startTime) || !TruthyText(req.endTime)
  }

  /** The reply of `createAvailability`; a created row takes the id `nextId`.
      A `null` weekday cannot be looked up on the unique key, so the query
      throws and the handler answers 500. */
  function Create(rows: seq<Availability>, nextId: Id, req: CreateRequest): Reply<Availability> {
    if MissingField(req) then Error(BAD_REQUEST, "Missing required fields")
    else if req.dayOfWeek.Null? then Error(INTERNAL_ERROR, "Failed to create availability")
    else if AvailabilityFor(rows, DEFAULT_USER_ID, req.dayOfWeek.value).Some? then
      Error(BAD_REQUEST, "Availability already exists for this day")
    else Ok(CREATED, Availability(nextId, DEFAULT_USER_ID, req.dayOfWeek.value, req.startTime.value, req.endTime.value))
  }

  /** `createAvailability(req, res)`: the table gains the created row and
      nothing else changes; any other reply leaves every table as it was. */
  method CreateAvailability(db: Db, req: CreateRequest) returns (r: Reply<Availability>)
    requires db.Valid()
    modifies db
    ensures db.Valid()
    ensures r == Create(old(db.availability), old(db.nextId), req)
    ensures db.availability == if r.Ok? then old(db.availability) + [r.body] else old(db.availability)
    ensures db.nextId == if r.Ok? then old(db.nextId) + 1 else old(db.nextId)
    ensures db.eventTypes == old(db.eventTypes) && db.meetings == old(db.meetings)
  {
    if MissingField(req) {
      return Error(BAD_REQUEST, "Missing required fields");
    }
    if req.dayOfWeek.Null? {
      return Error(INTERNAL_ERROR, "Failed to create availability");
    }
    var existing := AvailabilityFor(db.availability, DEFAULT_USER_ID, req.dayOfWeek.value);
    if existing.Some? {
      return Error(BAD_REQUEST, "Availability already exists for this day");
    }
    var availability := Availability(db.nextId, DEFAULT_USER_ID, req.dayOfWeek.value, req.startTime.value, req.endTime.value);
    AppendKeepsOneRowPerDay(db.availability, availability);
    db.availability := db.availability + [availability];
    db.nextId := db.nextId + 1;
    return Ok(CREATED, availability);
  }

  /** The `data` of `updateAvailability`: each time is overwritten only when
      the body gives a truthy one; the id, user and weekday stay. */
  function Patch(row: Availability, startTime: Field<string>, endTime: Field<string>): (r: Availability)
    ensures r.id == row.id && r.userId == row.userId && r.dayOfWeek == row.dayOfWeek
    ensures TruthyText(startTime) ==> r.startTime == startTime.value
    ensures !TruthyText(startTime) ==> r.startTime == row.startTime
    ensures TruthyText(endTime) ==> r.endTime == endTime.value
    ensures !TruthyText(endTime) ==> r.endTime == row.endTime
  {
    row.(startTime := if TruthyText(startTime) then startTime.value else row.startTime,
         endTime := if TruthyText(endTime) then endTime.value else row.endTime)
  }

  /** `updateAvailability(req, res)`: patches the row with that id, or answers
      404 when there is none (`P2025`). */
  method UpdateAvailability(db: Db, id: Id, startTime: Field<string>, endTime: Field<string>)
    returns (r: Reply<Availability>)
    requires db.Valid()
    modifies db
    ensures db.Valid()
    ensures r.Error? <==> AvailabilityIndex(old(db.availability), id).None?
    ensures r.Error? ==> r == Error(NOT_FOUND, "Availability not found") && db.availability == old(db.availability)
    ensures r.Ok? ==>
      var k := AvailabilityIndex(old(db.availability), id).value;
      && db.availability == old(db.availability)[k := Patch(old(db.availability)[k], startTime, endTime)]
      && r == Ok(OK, db.availability[k])
    ensures db.eventTypes == old(db.eventTypes) && db.meetings == old(db.meetings) && db.nextId == old(db.nextId)
  {
    var k := AvailabilityIndex(db.availability, id);
    if k.None? {
      return Error(NOT_FOUND, "Availability not found");
    }
    var availability := Patch(db.availability[k.value], startTime, endTime);
    db.availability := db.availability[k.value := availability];
    return Ok(OK, availability);
  }

  /** `deleteAvailability(req, res)`: removes the row with that id (204), or
      answers 404 when there is none (`P2025`). */
  method DeleteAvailability(db: Db, id: Id) returns (r: Reply<()>)
    requires db.Valid()
    modifies db
    ensures db.Valid()
    ensures r.Error? <==> AvailabilityIndex(old(db.availability), id).None?
    ensures r.Error? ==> r == Error(NOT_FOUND, "Availability not found") && db.availability == old(db.availability)
    ensures r.Ok? ==> r.status == NO_CONTENT
    ensures forall a :: a in db.availability <==> a in old(db.availability) && a.id != id
    ensures |db.availability| == if r.Ok? then |old(db.availability)| - 1 else |old(db.availability)|
    ensures db.eventTypes == old(db.eventTypes) && db.meetings == old(db.meetings) && db.nextId == old(db.nextId)
  {
    var k := AvailabilityIndex(db.availability, id);
    if k.None? {
      return Error(NOT_FOUND, "Availability not found");
    }
    RemoveRow(db.availability, (a: Availability) => a.id, db.nextId, k.value);
    RemoveKeepsOneRowPerDay(db.availability, k.value);
    db.availability := Seqs.RemoveAt(db.availability, k.value);
    return Ok(NO_CONTENT, ());
  }

  /** The outcomes of `createAvailability`: 400 exactly for a missing field,
      500 for a `null` weekday, then 400 exactly when the user already has a
      row for that weekday and a created row otherwise; a created row
      carries the given weekday and times, and appending it keeps at most one
      row per weekday. */
  lemma CreateOutcomes(rows: seq<Availability>, nextId: Id, req: CreateRequest)
    requires OneRowPerDay(rows)
    ensures MissingField(req) <==> Create(rows, nextId, req) == Error(BAD_REQUEST, "Missing required fields")
    ensures !MissingField(req) && req.dayOfWeek.Null? ==>
      Create(rows, nextId, req) == Error(INTERNAL_ERROR, "Failed to create availability")
    ensures !MissingField(req) && req.dayOfWeek.Given?
            && !(exists a :: a in rows && a.userId == DEFAULT_USER_ID && a.dayOfWeek == req.dayOfWeek.value) ==>
      Create(rows, nextId, req).Ok?
    ensures !MissingField(req) && req.dayOfWeek.Given? ==>
      ((exists a :: a in rows && a.userId == DEFAULT_USER_ID && a.dayOfWeek == req.dayOfWeek.value)
       <==> Create(rows, nextId, req) == Error(BAD_REQUEST, "Availability already exists for this day"))
    ensures Create(rows, nextId, req).Ok? ==>
      && Create(rows, nextId, req).body
           == Availability(nextId, DEFAULT_USER_ID, req.dayOfWeek.value, req.startTime.value, req.endTime.value)
      && OneRowPerDay(rows + [Create(rows, nextId, req).body])
  {
    if Create(rows, nextId, req).Ok? {
      AppendKeepsOneRowPerDay(rows, Create(rows, nextId, req).body);
    }
  }

  /** Patching twice with the same body is patching once, and a patch with
      no truthy time changes nothing. */
  lemma PatchIdempotent(row: Availability, startTime: Field<string>, endTime: Field<string>)
    ensures Patch(Patch(row, startTime, endTime), startTime, endTime) == Patch(row, startTime, endTime)
    ensures !TruthyText(startTime) && !TruthyText(endTime) ==> Patch(row, startTime, endTime) == row
  {
  }
}
