/** src/services/slotService.ts: `generateAvailableSlots`, which walks the
    availability window in 15-minute steps and keeps a candidate unless its
    buffer-widened interval overlaps a booked meeting, and `isSlotAvailable`,
    the buffer-unaware two-disjunct check. */
module SlotService {
  import opened Common
  import opened DateUtils
  import opened Store
  import ClockText
  import Seqs

  const STEP: int := 15

  /** The candidate's widened interval `[bufferStart, bufferEnd)` overlaps the
      meeting's raw interval (both comparisons strict). */
  predicate Blocks(m: Meeting, bufferStart: Instant, bufferEnd: Instant) {
    bufferStart < m.endTime && bufferEnd > m.startTime
  }

  /** `bookedMeetings.some(meeting => ...)`. */
  function AnyBlocks(booked: seq<Meeting>, bufferStart: Instant, bufferEnd: Instant): (r: bool)
    ensures r <==> exists m :: m in booked && Blocks(m, bufferStart, bufferEnd)
  {
    if booked == [] then false
    else Blocks(booked[0], bufferStart, bufferEnd) || AnyBlocks(booked[1..], bufferStart, bufferEnd)
  }

  /** The candidate starting `c` minutes after `dayStart` is free: widened by
      `bufferBefore` before and `bufferAfter` after its `duration`, it meets no
      booked meeting. */
  predicate Free(booked: seq<Meeting>, dayStart: Instant, c: int, duration: int, bufferBefore: int, bufferAfter: int) {
    var slotStart := AddMinutes(dayStart, c);
    !AnyBlocks(booked, AddMinutes(slotStart, -bufferBefore), AddMinutes(AddMinutes(slotStart, duration), bufferAfter))
  }

  /** The slots the loop emits from candidate minute `c` on. */
  function SlotsFrom(booked: seq<Meeting>, dayStart: Instant, c: int, endMinutes: int,
                     duration: int, bufferBefore: int, bufferAfter: int): seq<Instant>
    decreases endMinutes - duration - c + STEP
  {
    if c + duration > endMinutes then []
    else
      (if Free(booked, dayStart, c, duration, bufferBefore, bufferAfter) then [AddMinutes(dayStart, c)] else [])
      + SlotsFrom(booked, dayStart, c + STEP, endMinutes, duration, bufferBefore, bufferAfter)
  }

  /** Meetings of the event type whose start lies in `[dayStart, dayEnd)`,
      `dayEnd` being 23:59:59.999 of that day. */
  function BookedOnDay(meetings: seq<Meeting>, eventTypeId: Id, dayStart: Instant): seq<Meeting> {
    Seqs.Filter(meetings, (m: Meeting) =>
      m.eventTypeId == eventTypeId && dayStart <= m.startTime < dayStart + MS_PER_DAY - 1)
  }

  const EVENT_TYPE_NOT_FOUND: string := "Event type not found"

  /** What `generateAvailableSlots` returns (or throws) for the given tables. */
  function Generate(eventTypes: seq<EventType>, availability: seq<Availability>, meetings: seq<Meeting>,
                    eventTypeId: Id, date: Instant, userId: UserId): Result<seq<Instant>>
  {
    match EventTypeById(eventTypes, eventTypeId)
    case None => Failure(EVENT_TYPE_NOT_FOUND)
    case Some(et) =>
      match AvailabilityFor(availability, userId, GetDayOfWeek(date))
      case None => Success([])
      case Some(av) =>
        var startMinutes := ClockText.TimeToMinutes(av.startTime);
        var endMinutes := ClockText.TimeToMinutes(av.endTime);
        if startMinutes.None? || endMinutes.None? then Success([])
        else
          var dayStart := StartOfDay(date);
          Success(SlotsFrom(BookedOnDay(meetings, eventTypeId, dayStart), dayStart, startMinutes.value,
                            endMinutes.value, et.duration, et.bufferBefore, et.bufferAfter))
  }

  /** `generateAvailableSlots(eventTypeId, date, userId)`. A NaN window bound
      makes the loop test false at once, so an unreadable time gives no slots. */
  method GenerateAvailableSlots(db: Db, eventTypeId: Id, date: Instant, userId: UserId)
    returns (r: Result<seq<Instant>>)
    ensures r == Generate(db.eventTypes, db.availability, db.meetings, eventTypeId, date, userId)
  {
    var eventType := EventTypeById(db.eventTypes, eventTypeId);
    if eventType.None? {
      return Failure(EVENT_TYPE_NOT_FOUND);
    }
    var dayOfWeek := GetDayOfWeek(date);
    var availability := AvailabilityFor(db.availability, userId, dayOfWeek);
    if availability.None? {
      return Success([]);
    }
    var dayStart := StartOfDay(date);
    var bookedMeetings := BookedOnDay(db.meetings, eventTypeId, dayStart);
    var startMinutes := ClockText.TimeToMinutes(availability.value.startTime);
    var endMinutes := ClockText.TimeToMinutes(availability.value.endTime);
    if startMinutes.None? || endMinutes.None? {
      return Success([]);
    }
    var slots := CollectSlots(bookedMeetings, dayStart, startMinutes.value, endMinutes.value,
                              eventType.value.duration, eventType.value.bufferBefore, eventType.value.bufferAfter);
    return Success(slots);
  }

  /** The `for` loop of `generateAvailableSlots`: from `startMinutes` while
      `currentMinutes + slotDuration <= endMinutes`, 15 minutes at a time,
      pushing each candidate that conflicts with no booked meeting. */
  method CollectSlots(bookedMeetings: seq<Meeting>, dayStart: Instant, startMinutes: int, endMinutes: int,
                      slotDuration: int, bufferBefore: int, bufferAfter: int) returns (slots: seq<Instant>)
    ensures slots == SlotsFrom(bookedMeetings, dayStart, startMinutes, endMinutes, slotDuration, bufferBefore, bufferAfter)
  {
    slots := [];
    var currentMinutes := startMinutes;
    while currentMinutes + slotDuration <= endMinutes
      invariant slots + SlotsFrom(bookedMeetings, dayStart, currentMinutes, endMinutes, slotDuration, bufferBefore, bufferAfter)
             == SlotsFrom(bookedMeetings, dayStart, startMinutes, endMinutes, slotDuration, bufferBefore, bufferAfter)
      decreases endMinutes - slotDuration - currentMinutes
    {
      var slotStart := AddMinutes(dayStart, currentMinutes);
      var slotEnd := AddMinutes(slotStart, slotDuration);
      var bufferStartTime := AddMinutes(slotStart, -bufferBefore);
      var bufferEndTime := AddMinutes(slotEnd, bufferAfter);
      var isConflicting := AnyBlocks(bookedMeetings, bufferStartTime, bufferEndTime);
      if !isConflicting {
        slots := slots + [slotStart];
      }
      currentMinutes := currentMinutes + STEP;
    }
  }

  /** An unknown event type id throws "Event type not found"; no availability
      row for the date's weekday gives an empty list. */
  lemma GenerateOutcomes(eventTypes: seq<EventType>, availability: seq<Availability>, meetings: seq<Meeting>,
                         eventTypeId: Id, date: Instant, userId: UserId)
    ensures EventTypeById(eventTypes, eventTypeId).None? <==>
            Generate(eventTypes, availability, meetings, eventTypeId, date, userId) == Failure(EVENT_TYPE_NOT_FOUND)
    ensures EventTypeById(eventTypes, eventTypeId).Some? &&
            AvailabilityFor(availability, userId, GetDayOfWeek(date)).None? ==>
            Generate(eventTypes, availability, meetings, eventTypeId, date, userId) == Success([])
  {
  }

  /** Candidate minute `t` of a loop started at `c`: on the 15-minute grid
      from `c`, and its unbuffered end still inside the window. */
  predicate Candidate(t: int, c: int, endMinutes: int, duration: int) {
    c <= t && (t - c) % STEP == 0 && t + duration <= endMinutes
  }

  /** Every emitted slot is a free candidate `t` (`startMinutes <= t`,
      `t + duration <= endMinutes`, `t = startMinutes + 15k`). */
  lemma {:induction false} SlotsSound(booked: seq<Meeting>, dayStart: Instant, c: int, endMinutes: int,
                                      duration: int, bufferBefore: int, bufferAfter: int)
    ensures forall x :: x in SlotsFrom(booked, dayStart, c, endMinutes, duration, bufferBefore, bufferAfter) ==>
        exists t :: x == AddMinutes(dayStart, t) && Candidate(t, c, endMinutes, duration)
                    && Free(booked, dayStart, t, duration, bufferBefore, bufferAfter)
    decreases endMinutes - duration - c + STEP
  {
    if c + duration <= endMinutes {
      SlotsSound(booked, dayStart, c + STEP, endMinutes, duration, bufferBefore, bufferAfter);
      var rest := SlotsFrom(booked, dayStart, c + STEP, endMinutes, duration, bufferBefore, bufferAfter);
      forall x | x in rest
        ensures exists t :: x == AddMinutes(dayStart, t) && Candidate(t, c, endMinutes, duration)
                            && Free(booked, dayStart, t, duration, bufferBefore, bufferAfter)
      {
        var t :| x == AddMinutes(dayStart, t) && Candidate(t, c + STEP, endMinutes, duration)
                 && Free(booked, dayStart, t, duration, bufferBefore, bufferAfter);
        assert Candidate(t, c, endMinutes, duration);
      }
      assert Candidate(c, c, endMinutes, duration);
    }
  }

  /** The emitted slots are strictly increasing and none precedes the first
      candidate. */
  lemma {:induction false} SlotsIncreasing(booked: seq<Meeting>, dayStart: Instant, c: int, endMinutes: int,
                                           duration: int, bufferBefore: int, bufferAfter: int)
    ensures forall i, j :: 0 <= i < j < |SlotsFrom(booked, dayStart, c, endMinutes, duration, bufferBefore, bufferAfter)| ==> SlotsFrom(booked, dayStart, c, endMinutes, duration, bufferBefore, bufferAfter)[i] < SlotsFrom(booked, dayStart, c, endMinutes, duration, bufferBefore, bufferAfter)[j]
    ensures forall i :: 0 <= i < |SlotsFrom(booked, dayStart, c, endMinutes, duration, bufferBefore, bufferAfter)| ==> AddMinutes(dayStart, c) <= SlotsFrom(booked, dayStart, c, endMinutes, duration, bufferBefore, bufferAfter)[i]
    decreases endMinutes - duration - c + STEP
  {
    if c + duration <= endMinutes {
      SlotsIncreasing(booked, dayStart, c + STEP, endMinutes, duration, bufferBefore, bufferAfter);
      var rest := SlotsFrom(booked, dayStart, c + STEP, endMinutes, duration, bufferBefore, bufferAfter);
      assert forall i :: 0 <= i < |rest| ==> AddMinutes(dayStart, c) < rest[i];
      var head := if Free(booked, dayStart, c, duration, bufferBefore, bufferAfter) then [AddMinutes(dayStart, c)] else [];
      assert SlotsFrom(booked, dayStart, c, endMinutes, duration, bufferBefore, bufferAfter) == head + rest;
    }
  }

  /** A candidate is emitted exactly when no booked meeting `m` has
      `s - bufferBefore < m.end && s + duration + bufferAfter > m.start`. */
  lemma {:induction false} EmittedIffFree(booked: seq<Meeting>, dayStart: Instant, c: int, endMinutes: int,
                                          duration: int, bufferBefore: int, bufferAfter: int, t: int)
    requires Candidate(t, c, endMinutes, duration)
    ensures AddMinutes(dayStart, t) in SlotsFrom(booked, dayStart, c, endMinutes, duration, bufferBefore, bufferAfter)
            <==> !exists m :: m in booked && AddMinutes(dayStart, t - bufferBefore) < m.endTime
                                          && AddMinutes(dayStart, t + duration + bufferAfter) > m.startTime
    decreases endMinutes - duration - c + STEP
  {
    var rest := SlotsFrom(booked, dayStart, c + STEP, endMinutes, duration, bufferBefore, bufferAfter);
    if t == c {
      SlotsIncreasing(booked, dayStart, c + STEP, endMinutes, duration, bufferBefore, bufferAfter);
      assert AddMinutes(dayStart, t) !in rest;
    } else {
      assert Candidate(t, c + STEP, endMinutes, duration);
      EmittedIffFree(booked, dayStart, c + STEP, endMinutes, duration, bufferBefore, bufferAfter, t);
    }
  }

  /** A booked meeting can only take slots away: every slot offered with one
      more meeting in the table is offered without it. */
  lemma {:induction false} MoreMeetingsFewerSlots(booked: seq<Meeting>, more: seq<Meeting>, dayStart: Instant,
                                                  c: int, endMinutes: int, duration: int, bufferBefore: int, bufferAfter: int)
    requires forall m :: m in booked ==> m in more
    ensures forall x :: x in SlotsFrom(more, dayStart, c, endMinutes, duration, bufferBefore, bufferAfter) ==>
                        x in SlotsFrom(booked, dayStart, c, endMinutes, duration, bufferBefore, bufferAfter)
    decreases endMinutes - duration - c + STEP
  {
    if c + duration <= endMinutes {
      MoreMeetingsFewerSlots(booked, more, dayStart, c + STEP, endMinutes, duration, bufferBefore, bufferAfter);
    }
  }

  /** Appending a meeting to the table never adds a slot and never changes
      whether the event type is found. */
  lemma NewMeetingOnlyRemovesSlots(eventTypes: seq<EventType>, availability: seq<Availability>, meetings: seq<Meeting>,
                                   m: Meeting, eventTypeId: Id, date: Instant, userId: UserId)
    ensures var before := Generate(eventTypes, availability, meetings, eventTypeId, date, userId);
            var after := Generate(eventTypes, availability, meetings + [m], eventTypeId, date, userId);
      && before.Success? == after.Success?
      && (after.Success? ==> forall x :: x in after.value ==> x in before.value)
  {
    var et := EventTypeById(eventTypes, eventTypeId);
    var av := AvailabilityFor(availability, userId, GetDayOfWeek(date));
    if et.Some? && av.Some? {
      var startMinutes := ClockText.TimeToMinutes(av.value.startTime);
      var endMinutes := ClockText.TimeToMinutes(av.value.endTime);
      if startMinutes.Some? && endMinutes.Some? {
        var dayStart := StartOfDay(date);
        MoreMeetingsFewerSlots(BookedOnDay(meetings, eventTypeId, dayStart), BookedOnDay(meetings + [m], eventTypeId, dayStart),
          dayStart, startMinutes.value, endMinutes.value, et.value.duration, et.value.bufferBefore, et.value.bufferAfter);
      }
    }
  }

  /** The `OR` of `isSlotAvailable`'s query: the meeting starts in
      `[start, end)` or ends in `(start, end]`. */
  predicate StartsOrEndsWithin(m: Meeting, start: Instant, end: Instant) {
    (start <= m.startTime < end) || (start < m.endTime <= end)
  }

  /** `isSlotAvailable(eventTypeId, startTime, endTime)`: no meeting of the
      event type, on any day, starts or ends inside the interval. Buffers are
      not consulted. */
  function IsSlotAvailable(meetings: seq<Meeting>, eventTypeId: Id, start: Instant, end: Instant): (r: bool)
    ensures r <==> forall m :: m in meetings && m.eventTypeId == eventTypeId ==> !StartsOrEndsWithin(m, start, end)
  {
    Seqs.Find(meetings, (m: Meeting) => m.eventTypeId == eventTypeId && StartsOrEndsWithin(m, start, end)).None?
  }
}
