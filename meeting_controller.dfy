/** src/controllers/meetingController.ts: the Express meeting handlers. The
    double-booking test of `createMeeting` asks only whether an existing
    meeting of the event type starts or ends inside the new interval; it
    consults no buffers. */
module MeetingController {
  import opened Common
  import opened DateUtils
  import opened Store
  import Seqs
  import SlotService

  const DEFAULT_USER_ID: UserId := TextUser("default-user-id")

  /** The body of `POST /meetings` as sent: the event type's id text and the
      two date texts. */
  datatype CreateRequest = CreateRequest(
    eventTypeId: Field<string>, inviteeName: Field<string>, inviteeEmail: Field<string>,
    startTime: Field<string>, endTime: Field<string>)

  /** What the handler reads from the texts of a body: the row key the id
      text names (a text naming no row stands for a key no row has), and
      `new Date(startTime)` and `new Date(endTime)`, `None` for an Invalid
      Date. */
  datatype Parsed = Parsed(eventTypeId: Id, startTime: Option<Instant>, endTime: Option<Instant>)

  /** `!eventTypeId || !inviteeName || !inviteeEmail || !startTime || !endTime`. */
  predicate MissingField(req: CreateRequest) {
    !TruthyText(req.eventTypeId) || !TruthyText(req.inviteeName) || !TruthyText(req.inviteeEmail)
    || !TruthyText(req.startTime) || !TruthyText(req.endTime)
  }

  /** `getAllMeetings`: the default user's meetings, latest start first. */
  function AllMeetings(meetings: seq<Meeting>): (r: seq<Meeting>)
    ensures forall m :: m in r <==> m in meetings && m.userId == DEFAULT_USER_ID
    ensures forall m :: multiset(r)[m] == if m.userId == DEFAULT_USER_ID then multiset(meetings)[m] else 0
    ensures forall i, j :: 0 <= i < j < |r| ==> r[i].startTime >= r[j].startTime
  {
    Seqs.SelectSorted(meetings, (m: Meeting) => m.userId == DEFAULT_USER_ID, (m: Meeting) => -m.startTime)
  }

  /** `conflictingMeeting`: the first meeting of the event type that starts in
      `[startTime, endTime)` or ends in `(startTime, endTime]`. */
  function ConflictingMeeting(meetings: seq<Meeting>, eventTypeId: Id, startTime: Instant, endTime: Instant): Option<Meeting> {
    Seqs.Find(meetings, (m: Meeting) =>
      m.eventTypeId == eventTypeId && SlotService.StartsOrEndsWithin(m, startTime, endTime))
  }

  /** The reply of `createMeeting`; a created meeting takes the id `nextId`.
      An Invalid Date in the conflict query makes it throw, and a meeting
      that names no event type breaks the foreign key on insert; the handler
      answers 500 to both. */
  function Create(eventTypes: seq<EventType>, meetings: seq<Meeting>, nextId: Id,
                  req: CreateRequest, parsed: Parsed): Reply<Meeting> {
    if MissingField(req) then Error(BAD_REQUEST, "Missing required fields")
    else if parsed.startTime.None? || parsed.endTime.None? then Error(INTERNAL_ERROR, "Failed to create meeting")
    else if ConflictingMeeting(meetings, parsed.eventTypeId, parsed.startTime.value, parsed.endTime.value).Some? then
      Error(CONFLICT, "Time slot already booked")
    else if EventTypeById(eventTypes, parsed.eventTypeId).None? then
      Error(INTERNAL_ERROR, "Failed to create meeting")
    else
      Ok(CREATED, Meeting(nextId, DEFAULT_USER_ID, parsed.eventTypeId, req.inviteeName.value,
                          req.inviteeEmail.value, parsed.startTime.value, parsed.endTime.value))
  }

  /** `createMeeting(req, res)`: the meeting table gains the created row and
      nothing else changes; any other reply leaves every table as it was. */
  method CreateMeeting(db: Db, req: CreateRequest, parsed: Parsed) returns (r: Reply<Meeting>)
    requires db.Valid()
    modifies db
    ensures db.Valid()
    ensures r == Create(old(db.eventTypes), old(db.meetings), old(db.nextId), req, parsed)
    ensures db.meetings == if r.Ok? then old(db.meetings) + [r.body] else old(db.meetings)
    ensures db.nextId == if r.Ok? then old(db.nextId) + 1 else old(db.nextId)
    ensures db.eventTypes == old(db.eventTypes) && db.availability == old(db.availability)
  {
    if MissingField(req) {
      return Error(BAD_REQUEST, "Missing required fields");
    }
    if parsed.startTime.None? || parsed.endTime.None? {
      return Error(INTERNAL_ERROR, "Failed to create meeting");
    }
    var conflictingMeeting := ConflictingMeeting(db.meetings, parsed.eventTypeId, parsed.startTime.value, parsed.endTime.value);
    if conflictingMeeting.Some? {
      return Error(CONFLICT, "Time slot already booked");
    }
    if EventTypeById(db.eventTypes, parsed.eventTypeId).None? {
      return Error(INTERNAL_ERROR, "Failed to create meeting");
    }
    var meeting := Meeting(db.nextId, DEFAULT_USER_ID, parsed.eventTypeId, req.inviteeName.value,
                           req.inviteeEmail.value, parsed.startTime.value, parsed.endTime.value);
    db.meetings := db.meetings + [meeting];
    db.nextId := db.nextId + 1;
    return Ok(CREATED, meeting);
  }

  /** `getMeeting(req, res)`. */
  function GetMeeting(meetings: seq<Meeting>, id: Id): Reply<Meeting> {
    match MeetingById(meetings, id)
    case None => Error(NOT_FOUND, "Meeting not found")
    case Some(m) => Ok(OK, m)
  }

  /** `cancelMeeting(req, res)`: deletes the row with that id (204), or
      answers 404 when there is none (`P2025`). */
  method CancelMeeting(db: Db, id: Id) returns (r: Reply<()>)
    requires db.Valid()
    modifies db
    ensures db.Valid()
    ensures r.Error? <==> MeetingById(old(db.meetings), id).None?
    ensures r.Error? ==> r == Error(NOT_FOUND, "Meeting not found") && db.meetings == old(db.meetings)
    ensures r.Ok? ==> r.status == NO_CONTENT
    ensures forall m :: m in db.meetings <==> m in old(db.meetings) && m.id != id
    ensures |db.meetings| == if r.Ok? then |old(db.meetings)| - 1 else |old(db.meetings)|
    ensures db.eventTypes == old(db.eventTypes) && db.availability == old(db.availability)
    ensures db.nextId == old(db.nextId)
  {
    var k := MeetingIndex(db.meetings, id);
    if k.None? {
      return Error(NOT_FOUND, "Meeting not found");
    }
    RemoveRow(db.meetings, (m: Meeting) => m.id, db.nextId, k.value);
    db.meetings := Seqs.RemoveAt(db.meetings, k.value);
    return Ok(NO_CONTENT, ());
  }

  /** The outcomes of `createMeeting` in the order the handler tests them:
      400 exactly when a field is absent, null or "", then 500 on an Invalid
      Date, then 409 exactly when a meeting of the event type starts in
      `[start, end)` or ends in `(start, end]`. */
  lemma CreateOutcomes(eventTypes: seq<EventType>, meetings: seq<Meeting>, nextId: Id,
                       req: CreateRequest, parsed: Parsed)
    ensures MissingField(req) <==>
      Create(eventTypes, meetings, nextId, req, parsed) == Error(BAD_REQUEST, "Missing required fields")
    ensures !MissingField(req) && (parsed.startTime.None? || parsed.endTime.None?) ==>
      Create(eventTypes, meetings, nextId, req, parsed) == Error(INTERNAL_ERROR, "Failed to create meeting")
    ensures !MissingField(req) && parsed.startTime.Some? && parsed.endTime.Some? ==>
      ((exists m :: m in meetings && m.eventTypeId == parsed.eventTypeId
                    && (parsed.startTime.value <= m.startTime < parsed.endTime.value
                        || parsed.startTime.value < m.endTime <= parsed.endTime.value))
       <==> Create(eventTypes, meetings, nextId, req, parsed) == Error(CONFLICT, "Time slot already booked"))
    ensures Create(eventTypes, meetings, nextId, req, parsed).Ok? ==>
      var m := Create(eventTypes, meetings, nextId, req, parsed).body;
      && req.inviteeName.Given? && req.inviteeEmail.Given?
      && parsed.startTime.Some? && parsed.endTime.Some?
      && m == Meeting(nextId, DEFAULT_USER_ID, parsed.eventTypeId, req.inviteeName.value,
                      req.inviteeEmail.value, parsed.startTime.value, parsed.endTime.value)
      && EventTypeById(eventTypes, m.eventTypeId).Some?
  {
  }

  /** The check has exactly the two disjuncts: a meeting of the event type
      that strictly encloses the new interval is no conflict, and neither is
      one that ends exactly where the new one starts. */
  lemma EnclosingIsNoConflict(meetings: seq<Meeting>, eventTypeId: Id, startTime: Instant, endTime: Instant)
    requires forall m :: m in meetings && m.eventTypeId == eventTypeId ==>
      m.startTime < startTime && (endTime < m.endTime || m.endTime == startTime)
    ensures ConflictingMeeting(meetings, eventTypeId, startTime, endTime).None?
  {
  }

  /** `getMeeting` with an unknown id answers 404; otherwise it returns the
      row with that id. */
  lemma GetMeetingOutcomes(meetings: seq<Meeting>, id: Id)
    ensures GetMeeting(meetings, id).Error? <==> (forall m :: m in meetings ==> m.id != id)
    ensures GetMeeting(meetings, id).Error? ==> GetMeeting(meetings, id) == Error(NOT_FOUND, "Meeting not found")
    ensures GetMeeting(meetings, id).Ok? ==> GetMeeting(meetings, id).body in meetings && GetMeeting(meetings, id).body.id == id
  {
  }
}
