/** app/api/event-types/route.ts: the Next.js event-type endpoint. `GET`
    looks one event type up by slug or lists the default user's, newest
    first; `POST` requires a name, a duration and a slug, stores the slug as
    given and defaults `null` or absent buffers to 0. */
module EventTypesRoute {
  import opened Common
  import opened Store
  import Seqs

  const DEFAULT_USER_ID: UserId := NumberUser(1)

  /** The JSON body of `POST`. */
  datatype CreateRequest = CreateRequest(
    name: Field<string>, duration: Field<int>, slug: Field<string>,
    bufferBefore: Field<int>, bufferAfter: Field<int>)

  /** `GET(request)`: with a non-empty `slug`, the one event type with that
      slug or nothing; otherwise the default user's event types, latest
      `createdAt` first. */
  function Get(rows: seq<EventType>, slug: Option<string>): seq<EventType> {
    if slug.Some? && slug.value != "" then
      match EventTypeBySlug(rows, slug.value)
      case Some(e) => [e]
      case None => []
    else
      Seqs.SelectSorted(rows, (e: EventType) => e.userId == DEFAULT_USER_ID, (e: EventType) => -e.createdAt)
  }

  /** `!name || !duration || !slug`. */
  predicate MissingField(req: CreateRequest) {
    !TruthyText(req.name) || !TruthyNumber(req.duration) || !TruthyText(req.slug)
  }

  /** The reply of `POST`; a created row takes the id `nextId` and the time
      `now`. */
  function Post(rows: seq<EventType>, nextId: Id, now: int, req: CreateRequest): Reply<EventType> {
    if MissingField(req) then Error(BAD_REQUEST, "Missing required fields")
    else if EventTypeBySlug(rows, req.slug.value).Some? then Error(CONFLICT, "Slug already exists")
    else
      Ok(CREATED, EventType(nextId, DEFAULT_USER_ID, req.name.value, req.duration.value, req.slug.value,
                            OrDefault(req.bufferBefore, 0), OrDefault(req.bufferAfter, 0), now))
  }

  /** `POST(request)`: the table gains the created row and nothing else
      changes; any other reply leaves every table as it was. */
  method PostEventType(db: Db, now: int, req: CreateRequest) returns (r: Reply<EventType>)
    requires db.Valid()
    modifies db
    ensures db.Valid()
    ensures r == Post(old(db.eventTypes), old(db.nextId), now, req)
    ensures db.eventTypes == if r.Ok? then old(db.eventTypes) + [r.body] else old(db.eventTypes)
    ensures db.nextId == if r.Ok? then old(db.nextId) + 1 else old(db.nextId)
    ensures db.availability == old(db.availability) && db.meetings == old(db.meetings)
  {
    if MissingField(req) {
      return Error(BAD_REQUEST, "Missing required fields");
    }
    if EventTypeBySlug(db.eventTypes, req.slug.value).Some? {
      return Error(CONFLICT, "Slug already exists");
    }
    var eventType := EventType(db.nextId, DEFAULT_USER_ID, req.name.value, req.duration.value, req.slug.value,
                               OrDefault(req.bufferBefore, 0), OrDefault(req.bufferAfter, 0), now);
    AppendKeepsUniqueSlugs(db.eventTypes, eventType);
    db.eventTypes := db.eventTypes + [eventType];
    db.nextId := db.nextId + 1;
    return Ok(CREATED, eventType);
  }

  /** `GET` with a slug answers a list of at most one event type, which is
      there exactly when some row has that slug. */
  lemma GetBySlug(rows: seq<EventType>, slug: string)
    requires UniqueSlugs(rows)
    requires slug != ""
    ensures |Get(rows, Some(slug))| <= 1
    ensures forall e :: e in Get(rows, Some(slug)) <==> e in rows && e.slug == slug
  {
    var found := EventTypeBySlug(rows, slug);
    forall e | e in rows && e.slug == slug ensures e in Get(rows, Some(slug)) {
      var i :| 0 <= i < |rows| && rows[i] == e;
      var j :| 0 <= j < |rows| && rows[j] == found.value;
      assert i == j;
    }
  }

  /** `GET` without a slug lists exactly the default user's event types,
      each as often as it occurs in the table, latest `createdAt` first. */
  lemma ListNewestFirst(rows: seq<EventType>, slug: Option<string>)
    requires slug.None? || slug.value == ""
    ensures forall e :: e in Get(rows, slug) <==> e in rows && e.userId == DEFAULT_USER_ID
    ensures forall e :: multiset(Get(rows, slug))[e] == if e.userId == DEFAULT_USER_ID then multiset(rows)[e] else 0
    ensures forall i, j :: 0 <= i < j < |Get(rows, slug)| ==> Get(rows, slug)[i].createdAt >= Get(rows, slug)[j].createdAt
  {
    var r := Get(rows, slug);
    forall i, j | 0 <= i < j < |r| ensures r[i].createdAt >= r[j].createdAt {
      assert -r[i].createdAt <= -r[j].createdAt;
    }
  }

  /** The outcomes of `POST`: 400 exactly when `name`, `duration` or `slug` is
      falsy; then 409 exactly when the slug, compared as given, is taken; a
      created row keeps the slug as given, sets a `null` or absent buffer to 0
      and keeps a given one (0 included), and appending it keeps slugs
      unique. */
  lemma PostOutcomes(rows: seq<EventType>, nextId: Id, now: int, req: CreateRequest)
    requires UniqueSlugs(rows)
    ensures MissingField(req) <==> Post(rows, nextId, now, req) == Error(BAD_REQUEST, "Missing required fields")
    ensures !MissingField(req) ==>
      ((exists e :: e in rows && e.slug == req.slug.value) <==> Post(rows, nextId, now, req) == Error(CONFLICT, "Slug already exists"))
    ensures Post(rows, nextId, now, req).Ok? ==>
      var e := Post(rows, nextId, now, req).body;
      && e.slug == req.slug.value && e.name == req.name.value && e.duration == req.duration.value
      && e.bufferBefore == (if req.bufferBefore.Given? then req.bufferBefore.value else 0)
      && e.bufferAfter == (if req.bufferAfter.Given? then req.bufferAfter.value else 0)
      && e.id == nextId && e.userId == DEFAULT_USER_ID && e.createdAt == now
      && UniqueSlugs(rows + [e])
  {
    if Post(rows, nextId, now, req).Ok? {
      AppendKeepsUniqueSlugs(rows, Post(rows, nextId, now, req).body);
    }
  }
}
