/** src/controllers/eventTypeController.ts: the Express event-type handlers.
    Create lowercases the slug and defaults absent buffers to 0; the unique
    index on `slug` turns a duplicate into 409. Update merges only the fields
    the body supplies. */
module EventTypeController {
  import opened Common
  import opened Store
  import Seqs

  const DEFAULT_USER_ID: UserId := TextUser("default-user-id")

  /** `toLowerCase` on one character; letters outside A-Z are kept. */
  function LowerChar(c: char): (r: char)
    ensures 'A' <= c <= 'Z' ==> 'a' <= r <= 'z'
    ensures !('A' <= c <= 'Z') ==> r == c
  {
    if 'A' <= c <= 'Z' then (c as int - 'A' as int + 'a' as int) as char else c
  }

  /** `slug.toLowerCase()`. */
  function Lower(s: string): (r: string)
    ensures |r| == |s|
    ensures forall i :: 0 <= i < |s| ==> r[i] == LowerChar(s[i])
  {
    if s == [] then [] else [LowerChar(s[0])] + Lower(s[1..])
  }

  /** The body of `POST /event-types`; `duration` and the buffers are the
      numbers `Number.parseInt` reads from them. */
  datatype CreateRequest = CreateRequest(
    name: Field<string>, duration: Field<int>, slug: Field<string>,
    bufferBefore: Field<int>, bufferAfter: Field<int>)

  /** `getAllEventTypes`: the default user's event types, each as often as
      it occurs in the table. */
  function AllEventTypes(rows: seq<EventType>): (r: seq<EventType>)
    ensures forall e :: e in r <==> e in rows && e.userId == DEFAULT_USER_ID
    ensures forall e :: multiset(r)[e] == if e.userId == DEFAULT_USER_ID then multiset(rows)[e] else 0
  {
    Seqs.Filter(rows, (e: EventType) => e.userId == DEFAULT_USER_ID)
  }

  /** The reply of `createEventType`; a created row takes the id `nextId`
      and the time `now`. The destructuring default `= 0` replaces only an
      absent buffer: `null` reaches `parseInt` as NaN. An absent slug throws
      in `toLowerCase`, and an absent name or a NaN number is refused by the
      store; each ends in 500. */
  function Create(rows: seq<EventType>, nextId: Id, now: int, req: CreateRequest): Reply<EventType> {
    if !req.slug.Given? then Error(INTERNAL_ERROR, "Failed to create event type")
    else if !req.name.Given? || !req.duration.Given? || req.bufferBefore.Null? || req.bufferAfter.Null? then
      Error(INTERNAL_ERROR, "Failed to create event type")
    else if EventTypeBySlug(rows, Lower(req.slug.value)).Some? then Error(CONFLICT, "Slug must be unique")
    else
      Ok(CREATED, EventType(nextId, DEFAULT_USER_ID, req.name.value, req.duration.value, Lower(req.slug.value),
                            OrDefault(req.bufferBefore, 0), OrDefault(req.bufferAfter, 0), now))
  }

  /** `createEventType(req, res)`: the table gains the created row and
      nothing else changes; any other reply leaves every table as it was. */
  method CreateEventType(db: Db, now: int, req: CreateRequest) returns (r: Reply<EventType>)
    requires db.Valid()
    modifies db
    ensures db.Valid()
    ensures r == Create(old(db.eventTypes), old(db.nextId), now, req)
    ensures db.eventTypes == if r.Ok? then old(db.eventTypes) + [r.body] else old(db.eventTypes)
    ensures db.nextId == if r.Ok? then old(db.nextId) + 1 else old(db.nextId)
    ensures db.availability == old(db.availability) && db.meetings == old(db.meetings)
  {
    if !req.slug.Given? {
      return Error(INTERNAL_ERROR, "Failed to create event type");
    }
    var slug := Lower(req.slug.value);
    if !req.name.Given? || !req.duration.Given? || req.bufferBefore.Null? || req.bufferAfter.Null? {
      return Error(INTERNAL_ERROR, "Failed to create event type");
    }
    if EventTypeBySlug(db.eventTypes, slug).Some? {
      return Error(CONFLICT, "Slug must be unique");
    }
    var eventType := EventType(db.nextId, DEFAULT_USER_ID, req.name.value, req.duration.value, slug,
                               OrDefault(req.bufferBefore, 0), OrDefault(req.bufferAfter, 0), now);
    AppendKeepsUniqueSlugs(db.eventTypes, eventType);
    db.eventTypes := db.eventTypes + [eventType];
    db.nextId := db.nextId + 1;
    return Ok(CREATED, eventType);
  }

  /** `getEventType(req, res)`. */
  function GetEventType(rows: seq<EventType>, id: Id): Reply<EventType> {
    match EventTypeById(rows, id)
    case None => Error(NOT_FOUND, "Event type not found")
    case Some(e) => Ok(OK, e)
  }

  /** The body of `PUT /event-types/:id`. */
  datatype UpdateRequest = UpdateRequest(
    name: Field<string>, duration: Field<int>, bufferBefore: Field<int>, bufferAfter: Field<int>)

  /** The `data` of `updateEventType`: `name` and `duration` only when truthy
      (so a duration of 0 is ignored), the buffers whenever they are not
      `undefined` (so 0 is written). */
  function Patch(row: EventType, req: UpdateRequest): EventType
    requires !req.bufferBefore.Null? && !req.bufferAfter.Null?
  {
    row.(name := if TruthyText(req.name) then req.name.value else row.name,
         duration := if TruthyNumber(req.duration) then req.duration.value else row.duration,
         bufferBefore := if req.bufferBefore.Given? then req.bufferBefore.value else row.bufferBefore,
         bufferAfter := if req.bufferAfter.Given? then req.bufferAfter.value else row.bufferAfter)
  }

  /** `updateEventType(req, res)`. A `null` buffer is refused by the store
      (500); an unknown id answers 404 (`P2025`). */
  method UpdateEventType(db: Db, id: Id, req: UpdateRequest) returns (r: Reply<EventType>)
    requires db.Valid()
    modifies db
    ensures db.Valid()
    ensures req.bufferBefore.Null? || req.bufferAfter.Null? ==>
      r == Error(INTERNAL_ERROR, "Failed to update event type") && db.eventTypes == old(db.eventTypes)
    ensures !req.bufferBefore.Null? && !req.bufferAfter.Null? ==>
      match EventTypeIndex(old(db.eventTypes), id)
      case None => r == Error(NOT_FOUND, "Event type not found") && db.eventTypes == old(db.eventTypes)
      case Some(k) =>
        && db.eventTypes == old(db.eventTypes)[k := Patch(old(db.eventTypes)[k], req)]
        && r == Ok(OK, db.eventTypes[k])
    ensures db.availability == old(db.availability) && db.meetings == old(db.meetings) && db.nextId == old(db.nextId)
  {
    if req.bufferBefore.Null? || req.bufferAfter.Null? {
      return Error(INTERNAL_ERROR, "Failed to update event type");
    }
    var k := EventTypeIndex(db.eventTypes, id);
    if k.None? {
      return Error(NOT_FOUND, "Event type not found");
    }
    var eventType := Patch(db.eventTypes[k.value], req);
    db.eventTypes := db.eventTypes[k.value := eventType];
    return Ok(OK, eventType);
  }

  /** `deleteEventType(req, res)`: removes the row with that id (204), or
      answers 404 when there is none (`P2025`). */
  method DeleteEventType(db: Db, id: Id) returns (r: Reply<()>)
    requires db.Valid()
    modifies db
    ensures db.Valid()
    ensures r.Error? <==> EventTypeIndex(old(db.eventTypes), id).None?
    ensures r.Error? ==> r == Error(NOT_FOUND, "Event type not found") && db.eventTypes == old(db.eventTypes)
    ensures r.Ok? ==> r.status == NO_CONTENT
    ensures forall e :: e in db.eventTypes <==> e in old(db.eventTypes) && e.id != id
    ensures |db.eventTypes| == if r.Ok? then |old(db.eventTypes)| - 1 else |old(db.eventTypes)|
    ensures db.availability == old(db.availability) && db.meetings == old(db.meetings) && db.nextId == old(db.nextId)
  {
    var k := EventTypeIndex(db.eventTypes, id);
    if k.None? {
      return Error(NOT_FOUND, "Event type not found");
    }
    RemoveRow(db.eventTypes, (e: EventType) => e.id, db.nextId, k.value);
    RemoveKeepsUniqueSlugs(db.eventTypes, k.value);
    db.eventTypes := Seqs.RemoveAt(db.eventTypes, k.value);
    return Ok(NO_CONTENT, ());
  }

  /** Lowercasing is idempotent and leaves no upper-case letter. */
  lemma {:induction false} LowerIdempotent(s: string)
    ensures Lower(Lower(s)) == Lower(s)
    ensures forall i :: 0 <= i < |Lower(s)| ==> !('A' <= Lower(s)[i] <= 'Z')
  {
    if s != [] {
      LowerIdempotent(s[1..]);
    }
  }

  /** The outcomes of `createEventType`: with every field present, 409
      exactly when the lowercased slug is taken; a created row stores the
      slug lowercased and an absent buffer as 0 (a given one, 0 included,
      as given), and appending it keeps slugs unique. */
  lemma CreateOutcomes(rows: seq<EventType>, nextId: Id, now: int, req: CreateRequest)
    requires UniqueSlugs(rows)
    ensures req.slug.Given? && req.name.Given? && req.duration.Given? && !req.bufferBefore.Null? && !req.bufferAfter.Null? ==>
      ((exists e :: e in rows && e.slug == Lower(req.slug.value))
       <==> Create(rows, nextId, now, req) == Error(CONFLICT, "Slug must be unique"))
    ensures Create(rows, nextId, now, req).Ok? ==>
      var e := Create(rows, nextId, now, req).body;
      && e.slug == Lower(req.slug.value)
      && e.bufferBefore == (if req.bufferBefore.Undefined? then 0 else req.bufferBefore.value)
      && e.bufferAfter == (if req.bufferAfter.Undefined? then 0 else req.bufferAfter.value)
      && e.name == req.name.value && e.duration == req.duration.value
      && e.id == nextId && e.userId == DEFAULT_USER_ID
      && UniqueSlugs(rows + [e])
  {
    if Create(rows, nextId, now, req).Ok? {
      AppendKeepsUniqueSlugs(rows, Create(rows, nextId, now, req).body);
    }
  }

  /** The merge keeps `id`, `userId`, `slug` and `createdAt`; it writes
      `name` and `duration` exactly when truthy and each buffer whenever given;
      and applying it twice is applying it once. */
  lemma PatchMerges(row: EventType, req: UpdateRequest)
    requires !req.bufferBefore.Null? && !req.bufferAfter.Null?
    ensures var r := Patch(row, req);
      && r.id == row.id && r.userId == row.userId && r.slug == row.slug && r.createdAt == row.createdAt
      && (r.name != row.name ==> TruthyText(req.name) && r.name == req.name.value)
      && (TruthyText(req.name) ==> r.name == req.name.value)
      && (r.duration != row.duration ==> req.duration.Given? && req.duration.value != 0 && r.duration == req.duration.value)
      && (TruthyNumber(req.duration) ==> r.duration == req.duration.value)
      && (req.duration == Given(0) ==> r.duration == row.duration)
      && (req.bufferBefore.Given? ==> r.bufferBefore == req.bufferBefore.value)
      && (req.bufferBefore.Undefined? ==> r.bufferBefore == row.bufferBefore)
      && (req.bufferAfter.Given? ==> r.bufferAfter == req.bufferAfter.value)
      && (req.bufferAfter.Undefined? ==> r.bufferAfter == row.bufferAfter)
    ensures Patch(Patch(row, req), req) == Patch(row, req)
  {
  }

  /** `getEventType` with an unknown id answers 404; otherwise it returns the
      row with that id. */
  lemma GetEventTypeOutcomes(rows: seq<EventType>, id: Id)
    ensures GetEventType(rows, id).Error? <==> (forall e :: e in rows ==> e.id != id)
    ensures GetEventType(rows, id).Error? ==> GetEventType(rows, id) == Error(NOT_FOUND, "Event type not found")
    ensures GetEventType(rows, id).Ok? ==> GetEventType(rows, id).body in rows && GetEventType(rows, id).body.id == id
  {
  }
}
