/** How the repository's two backends, and the two halves of each, relate:
    the Express controller against the Express slot service, each listing
    against the booking check that later commits a slot, and the Next.js slot
    listing against the Next.js booking endpoint. */
module Comparisons {
  import opened Common
  import opened DateUtils
  import opened Store
  import SlotService
  import SlotController
  import SlotsRoute
  import MeetingsRoute
  import ClockText

  // The Express controller and the Express slot service

  /** `SlotController`'s overlap test and `SlotService`'s are the same test, so
      the two loops keep the same candidates. */
  lemma {:induction false} ExpressLoopsAgree(booked: seq<Meeting>, dayStart: Instant, c: int, endMinutes: int,
                                             duration: int, bufferBefore: int, bufferAfter: int)
    ensures SlotController.SlotsFrom(booked, dayStart, c, endMinutes, duration, bufferBefore, bufferAfter)
         == SlotService.SlotsFrom(booked, dayStart, c, endMinutes, duration, bufferBefore, bufferAfter)
    decreases endMinutes - duration - c + SlotService.STEP
  {
    if c + duration <= endMinutes {
      ExpressLoopsAgree(booked, dayStart, c + SlotService.STEP, endMinutes, duration, bufferBefore, bufferAfter);
      var slotStart := AddMinutes(dayStart, c);
      var bufferStart := AddMinutes(slotStart, -bufferBefore);
      var bufferEnd := AddMinutes(AddMinutes(slotStart, duration), bufferAfter);
      assert SlotController.IsAvailable(booked, dayStart, c, duration, bufferBefore, bufferAfter)
         <==> SlotService.Free(booked, dayStart, c, duration, bufferBefore, bufferAfter) by {
        assert forall m :: SlotController.Overlaps(m, bufferStart, bufferEnd) == SlotService.Blocks(m, bufferStart, bufferEnd);
      }
    }
  }

  /** For an event type found by its slug in a table with distinct ids,
      `GET /slots/:slug/:date` answers with exactly the slots
      `generateAvailableSlots` computes for that event type's id and the
      default user. */
  lemma ControllerMatchesService(eventTypes: seq<EventType>, availability: seq<Availability>, meetings: seq<Meeting>,
                                 slug: string, date: Instant, et: EventType)
    requires forall i, j :: 0 <= i < j < |eventTypes| ==> eventTypes[i].id != eventTypes[j].id
    requires EventTypeBySlug(eventTypes, slug) == Some(et)
    ensures SlotService.Generate(eventTypes, availability, meetings, et.id, date, SlotController.DEFAULT_USER_ID).Success?
    ensures SlotController.GetSlots(eventTypes, availability, meetings, slug, date)
         == Ok(OK, SlotService.Generate(eventTypes, availability, meetings, et.id, date, SlotController.DEFAULT_USER_ID).value)
  {
    var found := EventTypeById(eventTypes, et.id);
    assert found.Some?;
    var i :| 0 <= i < |eventTypes| && eventTypes[i] == found.value;
    var j :| 0 <= j < |eventTypes| && eventTypes[j] == et;
    assert i == j;
    var av := AvailabilityFor(availability, SlotController.DEFAULT_USER_ID, GetDayOfWeek(date));
    if av.Some? {
      var s := ClockText.TimeToMinutes(av.value.startTime);
      var e := ClockText.TimeToMinutes(av.value.endTime);
      if s.Some? && e.Some? {
        var dayStart := StartOfDay(date);
        ExpressLoopsAgree(SlotService.BookedOnDay(meetings, et.id, dayStart), dayStart, s.value, e.value,
                          et.duration, et.bufferBefore, et.bufferAfter);
      }
    }
  }

  // Listing against committing, Express

  /** The commit check `isSlotAvailable` (starts or ends inside) against real
      overlap: for proper intervals, a meeting overlaps `[start, end)` exactly
      when it starts or ends inside it or strictly encloses it. The check
      therefore misses exactly the enclosing meetings. */
  lemma CommitCheckMissesEnclosing(m: Meeting, start: Instant, end: Instant)
    requires start < end && m.startTime < m.endTime
    ensures (m.startTime < end && m.endTime > start)
        <==> SlotService.StartsOrEndsWithin(m, start, end) || (m.startTime < start && end < m.endTime)
  {
  }

  /** A 09:00-11:00 meeting of the event type does not stop the Express
      commit check from accepting 10:00-10:30 the same day. */
  lemma EnclosingMeetingAccepted()
    ensures var day := 0;
            var m := Meeting(1, SlotController.DEFAULT_USER_ID, 7, "A", "a@b.c", AddMinutes(day, 540), AddMinutes(day, 660));
            && SlotService.IsSlotAvailable([m], 7, AddMinutes(day, 600), AddMinutes(day, 630))
            && m.startTime < AddMinutes(day, 630) && m.endTime > AddMinutes(day, 600)
  {
  }

  /** A candidate the Express listing shows passes the Express commit check
      against the same booked meetings when buffers are not negative and
      every interval is proper: the listing is the stricter test. */
  lemma ListedPassesCommit(booked: seq<Meeting>, dayStart: Instant, c: int, duration: int,
                           bufferBefore: int, bufferAfter: int, eventTypeId: Id)
    requires duration > 0 && bufferBefore >= 0 && bufferAfter >= 0
    requires forall m :: m in booked ==> m.startTime < m.endTime
    requires SlotService.Free(booked, dayStart, c, duration, bufferBefore, bufferAfter)
    ensures SlotService.IsSlotAvailable(booked, eventTypeId, AddMinutes(dayStart, c),
                                        AddMinutes(AddMinutes(dayStart, c), duration))
  {
    var start := AddMinutes(dayStart, c);
    var end := AddMinutes(start, duration);
    forall m | m in booked && m.eventTypeId == eventTypeId
      ensures !SlotService.StartsOrEndsWithin(m, start, end)
    {
      assert !SlotService.Blocks(m, AddMinutes(start, -bufferBefore), AddMinutes(end, bufferAfter));
    }
  }

  // Listing against committing, Next.js

  /** With `0 <= bufferBefore <= bufferAfter`, every meeting the booking
      endpoint counts as a clash for a start also makes the listing skip that
      start: the listing never offers a start the endpoint refuses with 409. */
  lemma ClashMeansNotOffered(m: Meeting, et: EventType, start: Instant)
    requires 0 <= et.bufferBefore <= et.bufferAfter
    requires MeetingsRoute.Clashes(m, et, start, AddMinutes(start, et.duration))
    ensures SlotsRoute.Collides(m, start, AddMinutes(start, et.duration + et.bufferAfter), et.bufferBefore, et.bufferAfter)
  {
  }

  /** With `bufferBefore > bufferAfter` the listing can offer a start the
      endpoint refuses: a 10:00-10:30 meeting, a 30-minute event with 30
      minutes before and none after, over a 09:45-12:00 window; 10:45 is
      listed and the booking clashes. */
  lemma OfferedButRefused()
    ensures var et := EventType(7, SlotsRoute.DEFAULT_USER_ID, "Call", 30, "call", 30, 0, 0);
            var m := Meeting(1, SlotsRoute.DEFAULT_USER_ID, 7, "A", "a@b.c", AddMinutes(0, 600), AddMinutes(0, 630));
            var start := AddMinutes(0, 645);
            && !SlotsRoute.Collides(m, start, AddMinutes(start, et.duration + et.bufferAfter), et.bufferBefore, et.bufferAfter)
            && start in SlotsRoute.Starts([m], AddMinutes(0, 585), AddMinutes(0, 720), et.duration, et.bufferBefore, et.bufferAfter)
            && MeetingsRoute.Clashes(m, et, start, AddMinutes(start, et.duration))
  {
    var m := Meeting(1, SlotsRoute.DEFAULT_USER_ID, 7, "A", "a@b.c", AddMinutes(0, 600), AddMinutes(0, 630));
    var start := AddMinutes(0, 645);
    assert SlotsRoute.OnGrid(start, AddMinutes(0, 585), AddMinutes(0, 720));
    SlotsRoute.EmittedIffOffered([m], AddMinutes(0, 585), AddMinutes(0, 720), 30, 30, 0, start);
  }

  /** After a 10:00-10:30 meeting of a 30-minute event with 15 minutes after
      and none before, the three checks part ways on 10:30: the Next.js
      listing skips it, the Next.js booking endpoint accepts it, and the
      Express listing shows it. */
  lemma BufferAfterTouching()
    ensures var et := EventType(7, SlotsRoute.DEFAULT_USER_ID, "Call", 30, "call", 0, 15, 0);
            var m := Meeting(1, SlotsRoute.DEFAULT_USER_ID, 7, "A", "a@b.c", AddMinutes(0, 600), AddMinutes(0, 630));
            var start := AddMinutes(0, 630);
            && SlotsRoute.Collides(m, start, AddMinutes(start, et.duration + et.bufferAfter), et.bufferBefore, et.bufferAfter)
            && !MeetingsRoute.Clashes(m, et, start, AddMinutes(start, et.duration))
            && SlotService.Free([m], 0, 630, et.duration, et.bufferBefore, et.bufferAfter)
  {
  }
}
