/** app/api/meetings/route.ts: the Next.js booking endpoint. `POST` computes
    the meeting's start from a date and an `HH:mm` time, refuses it when a
    meeting of the same event type lies within the buffers around it, and
    appends it otherwise; `GET` lists the default user's meetings, newest
    start first. */
module MeetingsRoute {
  import opened Common
  import opened DateUtils
  import opened Store
  import ClockText
  import Seqs

  const DEFAULT_USER_ID: UserId := NumberUser(1)

  /** The JSON body of `POST`. `date` is the date text; the instant
      `new Date(date)` reads from it is passed beside the body. */
  datatype BookingRequest = BookingRequest(
    slug: Field<string>, inviteeName: Field<string>, inviteeEmail: Field<string>,
    date: Field<string>, time: Field<string>)

  /** `!slug || !inviteeName || !inviteeEmail || !date || !time`. */
  predicate MissingField(req: BookingRequest) {
    !TruthyText(req.slug) || !TruthyText(req.inviteeName) || !TruthyText(req.inviteeEmail)
    || !TruthyText(req.date) || !TruthyText(req.time)
  }

  /** The `findMany` filter: a meeting of the event type starting before
      `endTime + bufferAfter` and ending after `startTime - bufferBefore`. */
  predicate Clashes(m: Meeting, et: EventType, startTime: Instant, endTime: Instant) {
    && m.eventTypeId == et.id
    && m.startTime < AddMinutes(endTime, et.bufferAfter)
    && m.endTime > startTime - et.bufferBefore * MS_PER_MINUTE
  }

  /** `existingMeetings`. */
  function ExistingMeetings(meetings: seq<Meeting>, et: EventType, startTime: Instant, endTime: Instant): seq<Meeting> {
    Seqs.Filter(meetings, (m: Meeting) => Clashes(m, et, startTime, endTime))
  }

  /** The reply of `POST` against the given tables; a created meeting takes
      the id `nextId`. An Invalid Date start makes the query throw, which the
      handler turns into 500. */
  function Post(eventTypes: seq<EventType>, meetings: seq<Meeting>, nextId: Id,
                req: BookingRequest, selectedDate: Instant): Reply<Meeting>
  {
    if MissingField(req) then Error(BAD_REQUEST, "Missing required fields")
    else
      match EventTypeBySlug(eventTypes, req.slug.value)
      case None => Error(NOT_FOUND, "Event type not found")
      case Some(et) =>
        match GetDateAtTime(selectedDate, req.time.value)
        case None => Error(INTERNAL_ERROR, "Failed to create meeting")
        case Some(startTime) =>
          var endTime := AddMinutes(startTime, et.duration);
          if |ExistingMeetings(meetings, et, startTime, endTime)| > 0 then Error(CONFLICT, "Slot is no longer available")
          else Ok(CREATED, Meeting(nextId, DEFAULT_USER_ID, et.id, req.inviteeName.value, req.inviteeEmail.value,
                                   startTime, endTime))
  }

  /** `POST(request)`: the meeting table gains the created row and nothing
      else changes; any other reply leaves every table as it was. */
  method PostMeeting(db: Db, req: BookingRequest, selectedDate: Instant) returns (r: Reply<Meeting>)
    requires db.Valid()
    modifies db
    ensures db.Valid()
    ensures r == Post(old(db.eventTypes), old(db.meetings), old(db.nextId), req, selectedDate)
    ensures db.meetings == if r.Ok? then old(db.meetings) + [r.body] else old(db.meetings)
    ensures db.nextId == if r.Ok? then old(db.nextId) + 1 else old(db.nextId)
    ensures db.eventTypes == old(db.eventTypes) && db.availability == old(db.availability)
  {
    if MissingField(req) {
      return Error(BAD_REQUEST, "Missing required fields");
    }
    var eventType := EventTypeBySlug(db.eventTypes, req.slug.value);
    if eventType.None? {
      return Error(NOT_FOUND, "Event type not found");
    }
    var startTime := GetDateAtTime(selectedDate, req.time.value);
    if startTime.None? {
      return Error(INTERNAL_ERROR, "Failed to create meeting");
    }
    var endTime := AddMinutes(startTime.value, eventType.value.duration);
    var existingMeetings := ExistingMeetings(db.meetings, eventType.value, startTime.value, endTime);
    if |existingMeetings| > 0 {
      return Error(CONFLICT, "Slot is no longer available");
    }
    var meeting := Meeting(db.nextId, DEFAULT_USER_ID, eventType.value.id, req.inviteeName.value,
                           req.inviteeEmail.value, startTime.value, endTime);
    db.meetings := db.meetings + [meeting];
    db.nextId := db.nextId + 1;
    return Ok(CREATED, meeting);
  }

  /** `GET()`: the default user's meetings, latest start first. */
  function List(meetings: seq<Meeting>): (r: seq<Meeting>)
    ensures forall m :: m in r <==> m in meetings && m.userId == DEFAULT_USER_ID
    ensures forall m :: multiset(r)[m] == if m.userId == DEFAULT_USER_ID then multiset(meetings)[m] else 0
    ensures forall i, j :: 0 <= i < j < |r| ==> r[i].startTime >= r[j].startTime
  {
    Seqs.SelectSorted(meetings, (m: Meeting) => m.userId == DEFAULT_USER_ID, (m: Meeting) => -m.startTime)
  }

  /** The outcomes of `POST` in the order the handler tests them: 400 exactly
      when a field is falsy, then 404 exactly when the slug is unknown, then
      409 exactly when some meeting of the event type starts before
      `end + bufferAfter` and ends after `start - bufferBefore`. */
  lemma PostOutcomes(eventTypes: seq<EventType>, meetings: seq<Meeting>, nextId: Id,
                     req: BookingRequest, selectedDate: Instant)
    ensures MissingField(req) <==>
            Post(eventTypes, meetings, nextId, req, selectedDate) == Error(BAD_REQUEST, "Missing required fields")
    ensures !MissingField(req) ==>
            (EventTypeBySlug(eventTypes, req.slug.value).None? <==>
             Post(eventTypes, meetings, nextId, req, selectedDate) == Error(NOT_FOUND, "Event type not found"))
    ensures !MissingField(req) && EventTypeBySlug(eventTypes, req.slug.value).Some? &&
            GetDateAtTime(selectedDate, req.time.value).Some? ==>
            var et := EventTypeBySlug(eventTypes, req.slug.value).value;
            var startTime := GetDateAtTime(selectedDate, req.time.value).value;
            ((exists m :: m in meetings && Clashes(m, et, startTime, AddMinutes(startTime, et.duration))) <==>
             Post(eventTypes, meetings, nextId, req, selectedDate) == Error(CONFLICT, "Slot is no longer available"))
  {
    if !MissingField(req) && EventTypeBySlug(eventTypes, req.slug.value).Some? &&
       GetDateAtTime(selectedDate, req.time.value).Some? {
      var et := EventTypeBySlug(eventTypes, req.slug.value).value;
      var startTime := GetDateAtTime(selectedDate, req.time.value).value;
      var existing := ExistingMeetings(meetings, et, startTime, AddMinutes(startTime, et.duration));
      if |existing| > 0 {
        assert existing[0] in existing;
      }
    }
  }

  /** A created meeting gets the next id, belongs to the slug's event type
      and the default user, starts at the date with the requested `HH:mm`,
      lasts the event type's duration and clashes with no meeting; when the
      time lies within the day, the start is on the selected day at `60 * HH
      + mm` minutes past midnight with zero seconds. */
  lemma PostCreates(eventTypes: seq<EventType>, meetings: seq<Meeting>, nextId: Id,
                    req: BookingRequest, selectedDate: Instant)
    requires Post(eventTypes, meetings, nextId, req, selectedDate).Ok?
    ensures Post(eventTypes, meetings, nextId, req, selectedDate).status == CREATED
    ensures EventTypeBySlug(eventTypes, req.slug.value).Some?
    ensures GetDateAtTime(selectedDate, req.time.value).Some?
    ensures var m := Post(eventTypes, meetings, nextId, req, selectedDate).body;
            var et := EventTypeBySlug(eventTypes, req.slug.value).value;
      && m == Meeting(nextId, DEFAULT_USER_ID, et.id, req.inviteeName.value, req.inviteeEmail.value, m.startTime, m.endTime)
      && m.startTime == GetDateAtTime(selectedDate, req.time.value).value
      && m.endTime == AddMinutes(m.startTime, et.duration)
      && (forall n :: n in meetings ==> !Clashes(n, et, m.startTime, m.endTime))
    ensures ClockText.TimeToMinutes(req.time.value).Some? && ClockText.TimeToMinutes(req.time.value).value < MINUTES_PER_DAY ==>
      var m := Post(eventTypes, meetings, nextId, req, selectedDate).body;
      && StartOfDay(m.startTime) == StartOfDay(selectedDate)
      && MinuteOfDay(m.startTime) == ClockText.TimeToMinutes(req.time.value).value
      && m.startTime % MS_PER_MINUTE == 0
  {
    if ClockText.TimeToMinutes(req.time.value).Some? && ClockText.TimeToMinutes(req.time.value).value < MINUTES_PER_DAY {
      DateAtTimeKeepsDay(selectedDate, req.time.value);
    }
  }

  /** Meetings of event type `id`, in table order, are separated for buffers
      `bufferBefore`/`bufferAfter`: no meeting's raw interval reaches into the
      buffer-widened interval of a meeting added after it. */
  ghost predicate Separated(meetings: seq<Meeting>, id: Id, bufferBefore: int, bufferAfter: int) {
    forall i, j :: 0 <= i < j < |meetings| && meetings[i].eventTypeId == id && meetings[j].eventTypeId == id ==>
      !(meetings[i].startTime < AddMinutes(meetings[j].endTime, bufferAfter)
        && meetings[i].endTime > meetings[j].startTime - bufferBefore * MS_PER_MINUTE)
  }

  /** A successful `POST` keeps the meetings of its event type separated for
      that event type's buffers, and adds nothing to any other event type, so
      a table filled only through `POST` stays separated. */
  lemma PostKeepsSeparated(eventTypes: seq<EventType>, meetings: seq<Meeting>, nextId: Id,
                           req: BookingRequest, selectedDate: Instant, id: Id, bufferBefore: int, bufferAfter: int)
    requires Separated(meetings, id, bufferBefore, bufferAfter)
    requires Post(eventTypes, meetings, nextId, req, selectedDate).Ok?
    requires var et := EventTypeBySlug(eventTypes, req.slug.value);
             et.Some? && et.value.id == id ==> et.value.bufferBefore == bufferBefore && et.value.bufferAfter == bufferAfter
    ensures Separated(meetings + [Post(eventTypes, meetings, nextId, req, selectedDate).body], id, bufferBefore, bufferAfter)
  {
    PostCreates(eventTypes, meetings, nextId, req, selectedDate);
    var m := Post(eventTypes, meetings, nextId, req, selectedDate).body;
    var all := meetings + [m];
    forall i, j | 0 <= i < j < |all| && all[i].eventTypeId == id && all[j].eventTypeId == id
      ensures !(all[i].startTime < AddMinutes(all[j].endTime, bufferAfter)
                && all[i].endTime > all[j].startTime - bufferBefore * MS_PER_MINUTE)
    {
      if j == |meetings| {
        assert all[i] in meetings;
      }
    }
  }
}
