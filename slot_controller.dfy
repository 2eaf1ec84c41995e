/** src/controllers/slotController.ts: `getAvailableSlots` for the Express
    backend. It looks the event type up by slug, walks the window in 15-minute
    steps and keeps a candidate unless `[s - bufferBefore, s + duration +
    bufferAfter)` overlaps a booked meeting. */
module SlotController {
  import opened Common
  import opened DateUtils
  import opened Store
  import ClockText
  import Seqs

  const STEP: int := 15
  const DEFAULT_USER_ID: UserId := TextUser("default-user-id")

  /** `bufferStart < meeting.endTime && bufferEnd > meeting.startTime`. */
  predicate Overlaps(m: Meeting, bufferStart: Instant, bufferEnd: Instant) {
    bufferStart < m.endTime && bufferEnd > m.startTime
  }

  /** `!bookedMeetings.some(...)`. */
  function NoneOverlaps(booked: seq<Meeting>, bufferStart: Instant, bufferEnd: Instant): (r: bool)
    ensures r <==> forall m :: m in booked ==> !Overlaps(m, bufferStart, bufferEnd)
  {
    booked == [] || (!Overlaps(booked[0], bufferStart, bufferEnd) && NoneOverlaps(booked[1..], bufferStart, bufferEnd))
  }

  /** The candidate `c` minutes after midnight is available. */
  predicate IsAvailable(booked: seq<Meeting>, dayStart: Instant, c: int, duration: int, bufferBefore: int, bufferAfter: int) {
    var slotStart := AddMinutes(dayStart, c);
    var slotEnd := AddMinutes(slotStart, duration);
    NoneOverlaps(booked, AddMinutes(slotStart, -bufferBefore), AddMinutes(slotEnd, bufferAfter))
  }

  /** The slots the loop pushes from `currentMinutes == c` on. */
  function SlotsFrom(booked: seq<Meeting>, dayStart: Instant, c: int, endMinutes: int,
                     duration: int, bufferBefore: int, bufferAfter: int): seq<Instant>
    decreases endMinutes - duration - c + STEP
  {
    if c + duration > endMinutes then []
    else
      (if IsAvailable(booked, dayStart, c, duration, bufferBefore, bufferAfter) then [AddMinutes(dayStart, c)] else [])
      + SlotsFrom(booked, dayStart, c + STEP, endMinutes, duration, bufferBefore, bufferAfter)
  }

  /** Bookings of the event type starting in `[dayStart, dayEnd)`. */
  function BookedOnDay(meetings: seq<Meeting>, eventTypeId: Id, dayStart: Instant): seq<Meeting> {
    Seqs.Filter(meetings, (m: Meeting) =>
      m.eventTypeId == eventTypeId && dayStart <= m.startTime < dayStart + MS_PER_DAY - 1)
  }

  /** The reply of `GET /slots/:slug/:date`. */
  function GetSlots(eventTypes: seq<EventType>, availability: seq<Availability>, meetings: seq<Meeting>,
                    slug: string, date: Instant): Reply<seq<Instant>>
  {
    match EventTypeBySlug(eventTypes, slug)
    case None => Error(NOT_FOUND, "Event type not found")
    case Some(et) =>
      match AvailabilityFor(availability, DEFAULT_USER_ID, GetDayOfWeek(date))
      case None => Ok(OK, [])
      case Some(av) =>
        var startMinutes := ClockText.TimeToMinutes(av.startTime);
        var endMinutes := ClockText.TimeToMinutes(av.endTime);
        if startMinutes.None? || endMinutes.None? then Ok(OK, [])
        else
          var dayStart := StartOfDay(date);
          Ok(OK, SlotsFrom(BookedOnDay(meetings, et.id, dayStart), dayStart, startMinutes.value,
                           endMinutes.value, et.duration, et.bufferBefore, et.bufferAfter))
  }

  /** `getAvailableSlots(req, res)`. Slots are returned as instants; their
      ISO-8601 rendering is not modelled. */
  method GetAvailableSlots(db: Db, slug: string, date: Instant) returns (r: Reply<seq<Instant>>)
    ensures r == GetSlots(db.eventTypes, db.availability, db.meetings, slug, date)
  {
    var eventType := EventTypeBySlug(db.eventTypes, slug);
    if eventType.None? {
      return Error(NOT_FOUND, "Event type not found");
    }
    var dayOfWeek := GetDayOfWeek(date);
    var availability := AvailabilityFor(db.availability, DEFAULT_USER_ID, dayOfWeek);
    if availability.None? {
      return Ok(OK, []);
    }
    var dayStart := StartOfDay(date);
    var bookedMeetings := BookedOnDay(db.meetings, eventType.value.id, dayStart);
    var startMinutes := ClockText.TimeToMinutes(availability.value.startTime);
    var endMinutes := ClockText.TimeToMinutes(availability.value.endTime);
    if startMinutes.None? || endMinutes.None? {
      return Ok(OK, []);
    }
    var slots := CollectSlots(bookedMeetings, dayStart, startMinutes.value, endMinutes.value,
                              eventType.value.duration, eventType.value.bufferBefore, eventType.value.bufferAfter);
    return Ok(OK, slots);
  }

  /** The `for` loop of `getAvailableSlots`: from `startMinutes` while
      `currentMinutes + duration <= endMinutes`, 15 minutes at a time, pushing
      each available candidate. */
  method CollectSlots(bookedMeetings: seq<Meeting>, dayStart: Instant, startMinutes: int, endMinutes: int,
                      duration: int, bufferBefore: int, bufferAfter: int) returns (slots: seq<Instant>)
    ensures slots == SlotsFrom(bookedMeetings, dayStart, startMinutes, endMinutes, duration, bufferBefore, bufferAfter)
  {
    slots := [];
    var currentMinutes := startMinutes;
    while currentMinutes + duration <= endMinutes
      invariant slots + SlotsFrom(bookedMeetings, dayStart, currentMinutes, endMinutes, duration, bufferBefore, bufferAfter)
             == SlotsFrom(bookedMeetings, dayStart, startMinutes, endMinutes, duration, bufferBefore, bufferAfter)
      decreases endMinutes - duration - currentMinutes
    {
      var slotStart := AddMinutes(dayStart, currentMinutes);
      var slotEnd := AddMinutes(slotStart, duration);
      var bufferStart := AddMinutes(slotStart, -bufferBefore);
      var bufferEnd := AddMinutes(slotEnd, bufferAfter);
      var isAvailable := NoneOverlaps(bookedMeetings, bufferStart, bufferEnd);
      if isAvailable {
        slots := slots + [slotStart];
      }
      currentMinutes := currentMinutes + STEP;
    }
  }

  /** An unknown slug gives 404; no availability row for the weekday gives an
      empty array with status 200. */
  lemma GetSlotsOutcomes(eventTypes: seq<EventType>, availability: seq<Availability>, meetings: seq<Meeting>,
                         slug: string, date: Instant)
    ensures EventTypeBySlug(eventTypes, slug).None? <==>
            GetSlots(eventTypes, availability, meetings, slug, date).Error?
    ensures GetSlots(eventTypes, availability, meetings, slug, date).Error? ==>
            GetSlots(eventTypes, availability, meetings, slug, date).status == NOT_FOUND
    ensures EventTypeBySlug(eventTypes, slug).Some? &&
            AvailabilityFor(availability, DEFAULT_USER_ID, GetDayOfWeek(date)).None? ==>
            GetSlots(eventTypes, availability, meetings, slug, date) == Ok(OK, [])
  {
  }

  /** When the event is longer than the window, no candidate fits and the
      result is empty. */
  lemma {:induction false} TooLongIsEmpty(booked: seq<Meeting>, dayStart: Instant, startMinutes: int, endMinutes: int,
                                          duration: int, bufferBefore: int, bufferAfter: int)
    requires duration > endMinutes - startMinutes
    ensures SlotsFrom(booked, dayStart, startMinutes, endMinutes, duration, bufferBefore, bufferAfter) == []
  {
  }

  /** The overlap test is half-open: a meeting that ends exactly where the
      widened candidate starts, or starts exactly where it ends, does not block. */
  lemma TouchingDoesNotBlock(booked: seq<Meeting>, dayStart: Instant, c: int, duration: int, bufferBefore: int, bufferAfter: int)
    requires forall m :: m in booked ==>
      m.endTime == AddMinutes(dayStart, c - bufferBefore) || m.startTime == AddMinutes(dayStart, c + duration + bufferAfter)
    ensures IsAvailable(booked, dayStart, c, duration, bufferBefore, bufferAfter)
  {
  }
}
