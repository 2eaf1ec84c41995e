/** app/api/slots/route.ts: the Next.js `GET /api/slots?slug=&date=`. It walks
    the availability window in 30-minute steps; a candidate's end is
    `start + duration + bufferAfter`, and it is booked when it meets a meeting
    widened by `bufferBefore` before and `bufferAfter` after. Slots come out as
    `HH:mm` texts. */
module SlotsRoute {
  import opened Common
  import opened DateUtils
  import opened Store
  import ClockText
  import Seqs

  const STEP: int := 30
  const DEFAULT_USER_ID: UserId := NumberUser(1)

  /** `currentSlotStart < bufferEnd && slotEnd > bufferStart`, the meeting
      being widened by both buffers. */
  predicate Collides(m: Meeting, slotStart: Instant, slotEnd: Instant, bufferBefore: int, bufferAfter: int) {
    slotStart < AddMinutes(m.endTime, bufferAfter) && slotEnd > AddMinutes(m.startTime, -bufferBefore)
  }

  /** `meetings.some(...)`. */
  function IsBooked(booked: seq<Meeting>, slotStart: Instant, slotEnd: Instant, bufferBefore: int, bufferAfter: int): (r: bool)
    ensures r <==> exists m :: m in booked && Collides(m, slotStart, slotEnd, bufferBefore, bufferAfter)
  {
    if booked == [] then false
    else Collides(booked[0], slotStart, slotEnd, bufferBefore, bufferAfter)
         || IsBooked(booked[1..], slotStart, slotEnd, bufferBefore, bufferAfter)
  }

  /** `${hours}:${minutes}` of a local time, each part padded to two digits. */
  function ClockOf(d: Instant): string {
    ClockText.MinutesToTime(MinuteOfDay(d))
  }

  /** The candidate starting at `current` is offered: its end
      `current + duration + bufferAfter` is within the window and no widened
      meeting collides with it. */
  predicate Offered(booked: seq<Meeting>, current: Instant, dayEndsAt: Instant,
                    duration: int, bufferBefore: int, bufferAfter: int) {
    var slotEnd := AddMinutes(current, duration + bufferAfter);
    !IsBooked(booked, current, slotEnd, bufferBefore, bufferAfter) && slotEnd <= dayEndsAt
  }

  /** The starts of the slots the `while` loop pushes from
      `currentSlotStart == current` on. */
  function Starts(booked: seq<Meeting>, current: Instant, dayEndsAt: Instant,
                  duration: int, bufferBefore: int, bufferAfter: int): seq<Instant>
    decreases dayEndsAt - current
  {
    if current >= dayEndsAt then []
    else
      (if Offered(booked, current, dayEndsAt, duration, bufferBefore, bufferAfter) then [current] else [])
      + Starts(booked, AddMinutes(current, STEP), dayEndsAt, duration, bufferBefore, bufferAfter)
  }

  /** The `HH:mm` text of each start, in order. */
  function Texts(ds: seq<Instant>): seq<string> {
    Seqs.Map(ds, ClockOf)
  }

  /** `getDateAtTime(selectedDate, `${pad(h)}:${pad(m)}`)` for the fields of an
      availability time; a NaN field makes an Invalid Date (None). */
  function WindowBound(selectedDate: Instant, time: string): Option<Instant> {
    match ClockText.ParseClock(time)
    case None => None
    case Some((h, m)) =>
      GetDateAtTime(selectedDate, ClockText.PadStart2(ClockText.Decimal(h)) + ":" + ClockText.PadStart2(ClockText.Decimal(m)))
  }

  /** Meetings of the event type starting between 00:00:00.000 and
      23:59:59.999 of the selected day, both ends included. */
  function MeetingsOnDay(meetings: seq<Meeting>, eventTypeId: Id, dayStart: Instant): seq<Meeting> {
    Seqs.Filter(meetings, (m: Meeting) =>
      m.eventTypeId == eventTypeId && dayStart <= m.startTime <= dayStart + MS_PER_DAY - 1)
  }

  /** A query parameter is falsy when it is absent or empty. */
  predicate Given(p: Option<string>) {
    p.Some? && p.value != ""
  }

  /** The reply of `GET`. `date` is the raw query text and `selectedDate` the
      instant `new Date(date)` reads from it. */
  function GetSlots(eventTypes: seq<EventType>, availability: seq<Availability>, meetings: seq<Meeting>,
                    slug: Option<string>, date: Option<string>, selectedDate: Instant): Reply<seq<string>>
  {
    if !Given(slug) || !Given(date) then Error(BAD_REQUEST, "Missing parameters")
    else
      match EventTypeBySlug(eventTypes, slug.value)
      case None => Error(NOT_FOUND, "Event type not found")
      case Some(et) =>
        match AvailabilityFor(availability, DEFAULT_USER_ID, GetDayOfWeek(selectedDate))
        case None => Ok(OK, [])
        case Some(av) =>
          var start := WindowBound(selectedDate, av.startTime);
          var dayEndsAt := WindowBound(selectedDate, av.endTime);
          if start.None? || dayEndsAt.None? then Ok(OK, [])
          else
            Ok(OK, Texts(Starts(MeetingsOnDay(meetings, et.id, StartOfDay(selectedDate)), start.value, dayEndsAt.value,
                                et.duration, et.bufferBefore, et.bufferAfter)))
  }

  /** `GET(request)`. An Invalid Date window bound makes the loop test false
      at once, so it yields an empty array. */
  method Get(db: Db, slug: Option<string>, date: Option<string>, selectedDate: Instant) returns (r: Reply<seq<string>>)
    ensures r == GetSlots(db.eventTypes, db.availability, db.meetings, slug, date, selectedDate)
  {
    if !Given(slug) || !Given(date) {
      return Error(BAD_REQUEST, "Missing parameters");
    }
    var dayOfWeek := GetDayOfWeek(selectedDate);
    var eventType := EventTypeBySlug(db.eventTypes, slug.value);
    if eventType.None? {
      return Error(NOT_FOUND, "Event type not found");
    }
    var availability := AvailabilityFor(db.availability, DEFAULT_USER_ID, dayOfWeek);
    if availability.None? {
      return Ok(OK, []);
    }
    var dayStart := StartOfDay(selectedDate);
    var meetings := MeetingsOnDay(db.meetings, eventType.value.id, dayStart);
    var currentSlotStart := WindowBound(selectedDate, availability.value.startTime);
    var dayEndsAt := WindowBound(selectedDate, availability.value.endTime);
    if currentSlotStart.None? || dayEndsAt.None? {
      return Ok(OK, []);
    }
    var slots := CollectSlots(meetings, currentSlotStart.value, dayEndsAt.value,
                              eventType.value.duration, eventType.value.bufferBefore, eventType.value.bufferAfter);
    return Ok(OK, slots);
  }

  /** The `while (currentSlotStart < dayEndsAt)` loop. */
  method CollectSlots(meetings: seq<Meeting>, start: Instant, dayEndsAt: Instant,
                      duration: int, bufferBefore: int, bufferAfter: int) returns (slots: seq<string>)
    ensures slots == Texts(Starts(meetings, start, dayEndsAt, duration, bufferBefore, bufferAfter))
  {
    slots := [];
    var currentSlotStart := start;
    while currentSlotStart < dayEndsAt
      invariant slots + Texts(Starts(meetings, currentSlotStart, dayEndsAt, duration, bufferBefore, bufferAfter))
             == Texts(Starts(meetings, start, dayEndsAt, duration, bufferBefore, bufferAfter))
      decreases dayEndsAt - currentSlotStart
    {
      var slotEnd := AddMinutes(currentSlotStart, duration + bufferAfter);
      var isBooked := IsBooked(meetings, currentSlotStart, slotEnd, bufferBefore, bufferAfter);
      var next := AddMinutes(currentSlotStart, STEP);
      ghost var later := Texts(Starts(meetings, next, dayEndsAt, duration, bufferBefore, bufferAfter));
      TextsStep(meetings, currentSlotStart, dayEndsAt, duration, bufferBefore, bufferAfter);
      if !isBooked && slotEnd <= dayEndsAt {
        var text := ClockOf(currentSlotStart);
        assert slots + [text] + later == slots + ([text] + later);
        slots := slots + [text];
      }
      currentSlotStart := next;
    }
  }

  /** One step of the walk: the texts from `current` on are the text of
      `current` when it is offered, then the texts from the next step on. */
  lemma TextsStep(booked: seq<Meeting>, current: Instant, dayEndsAt: Instant,
                  duration: int, bufferBefore: int, bufferAfter: int)
    requires current < dayEndsAt
    ensures Offered(booked, current, dayEndsAt, duration, bufferBefore, bufferAfter) ==>
      Texts(Starts(booked, current, dayEndsAt, duration, bufferBefore, bufferAfter))
      == [ClockOf(current)] + Texts(Starts(booked, AddMinutes(current, STEP), dayEndsAt, duration, bufferBefore, bufferAfter))
    ensures !Offered(booked, current, dayEndsAt, duration, bufferBefore, bufferAfter) ==>
      Texts(Starts(booked, current, dayEndsAt, duration, bufferBefore, bufferAfter))
      == Texts(Starts(booked, AddMinutes(current, STEP), dayEndsAt, duration, bufferBefore, bufferAfter))
  {
    var rest := Starts(booked, AddMinutes(current, STEP), dayEndsAt, duration, bufferBefore, bufferAfter);
    if Offered(booked, current, dayEndsAt, duration, bufferBefore, bufferAfter) {
      Seqs.MapCons(current, rest, ClockOf);
    }
  }

  /** Missing or empty `slug` or `date` gives 400; otherwise an unknown slug
      gives 404, and no availability for the weekday gives `[]`. */
  lemma GetSlotsOutcomes(eventTypes: seq<EventType>, availability: seq<Availability>, meetings: seq<Meeting>,
                         slug: Option<string>, date: Option<string>, selectedDate: Instant)
    ensures !Given(slug) || !Given(date) <==>
            GetSlots(eventTypes, availability, meetings, slug, date, selectedDate) == Error(BAD_REQUEST, "Missing parameters")
    ensures Given(slug) && Given(date) ==>
            (EventTypeBySlug(eventTypes, slug.value).None? <==>
             GetSlots(eventTypes, availability, meetings, slug, date, selectedDate) == Error(NOT_FOUND, "Event type not found"))
    ensures Given(slug) && Given(date) && EventTypeBySlug(eventTypes, slug.value).Some? &&
            AvailabilityFor(availability, DEFAULT_USER_ID, GetDayOfWeek(selectedDate)).None? ==>
            GetSlots(eventTypes, availability, meetings, slug, date, selectedDate) == Ok(OK, [])
  {
  }

  /** Re-formatting the availability fields and reading them back lands on the
      selected day at `60 * h + m` minutes past midnight. */
  lemma WindowBoundValue(selectedDate: Instant, time: string)
    ensures ClockText.ParseClock(time).None? ==> WindowBound(selectedDate, time).None?
    ensures ClockText.ParseClock(time).Some? ==>
      WindowBound(selectedDate, time) ==
        Some(AddMinutes(StartOfDay(selectedDate), ClockText.TimeToMinutes(time).value))
  {
    if ClockText.ParseClock(time).Some? {
      var (h, m) := ClockText.ParseClock(time).value;
      ClockText.ParseClockOfFormat(h, m);
    }
  }

  /** Candidate `x` of a loop started at `start`: a whole number of
      30-minute steps after it and before the window's end. */
  predicate OnGrid(x: Instant, start: Instant, dayEndsAt: Instant) {
    start <= x < dayEndsAt && (x - start) % (STEP * MS_PER_MINUTE) == 0
  }

  /** Every start the loop emits is an offered grid candidate. */
  lemma {:induction false} StartsSound(booked: seq<Meeting>, current: Instant, dayEndsAt: Instant,
                                       duration: int, bufferBefore: int, bufferAfter: int)
    ensures forall x :: x in Starts(booked, current, dayEndsAt, duration, bufferBefore, bufferAfter) ==>
      OnGrid(x, current, dayEndsAt) && Offered(booked, x, dayEndsAt, duration, bufferBefore, bufferAfter)
    decreases dayEndsAt - current
  {
    if current < dayEndsAt {
      var next := AddMinutes(current, STEP);
      StartsSound(booked, next, dayEndsAt, duration, bufferBefore, bufferAfter);
      forall x | x in Starts(booked, next, dayEndsAt, duration, bufferBefore, bufferAfter)
        ensures OnGrid(x, current, dayEndsAt)
      {
        assert x - current == (x - next) + STEP * MS_PER_MINUTE;
      }
    }
  }

  /** The emitted starts are strictly increasing and none precedes `current`. */
  lemma {:induction false} StartsIncreasing(booked: seq<Meeting>, current: Instant, dayEndsAt: Instant,
                                            duration: int, bufferBefore: int, bufferAfter: int)
    ensures forall i, j :: 0 <= i < j < |Starts(booked, current, dayEndsAt, duration, bufferBefore, bufferAfter)| ==>
      Starts(booked, current, dayEndsAt, duration, bufferBefore, bufferAfter)[i] < Starts(booked, current, dayEndsAt, duration, bufferBefore, bufferAfter)[j]
    ensures forall i :: 0 <= i < |Starts(booked, current, dayEndsAt, duration, bufferBefore, bufferAfter)| ==>
      current <= Starts(booked, current, dayEndsAt, duration, bufferBefore, bufferAfter)[i]
    decreases dayEndsAt - current
  {
    if current < dayEndsAt {
      var next := AddMinutes(current, STEP);
      StartsIncreasing(booked, next, dayEndsAt, duration, bufferBefore, bufferAfter);
      var rest := Starts(booked, next, dayEndsAt, duration, bufferBefore, bufferAfter);
      var head := if Offered(booked, current, dayEndsAt, duration, bufferBefore, bufferAfter) then [current] else [];
      assert Starts(booked, current, dayEndsAt, duration, bufferBefore, bufferAfter) == head + rest;
    }
  }

  /** A grid candidate is emitted exactly when it is offered: it is blocked iff
      some meeting `m` has `x < m.end + bufferAfter` and
      `x + duration + bufferAfter > m.start - bufferBefore`, and it is dropped
      when `x + duration + bufferAfter` passes the window's end. */
  lemma {:induction false} EmittedIffOffered(booked: seq<Meeting>, current: Instant, dayEndsAt: Instant,
                                             duration: int, bufferBefore: int, bufferAfter: int, x: Instant)
    requires OnGrid(x, current, dayEndsAt)
    ensures x in Starts(booked, current, dayEndsAt, duration, bufferBefore, bufferAfter)
            <==> Offered(booked, x, dayEndsAt, duration, bufferBefore, bufferAfter)
    decreases dayEndsAt - current
  {
    var next := AddMinutes(current, STEP);
    if x == current {
      StartsIncreasing(booked, next, dayEndsAt, duration, bufferBefore, bufferAfter);
    } else {
      assert x - next == (x - current) - STEP * MS_PER_MINUTE;
      assert OnGrid(x, next, dayEndsAt);
      EmittedIffOffered(booked, next, dayEndsAt, duration, bufferBefore, bufferAfter, x);
    }
  }

  /** A minute-aligned instant of the day starting at `dayStart` has as its
      minute of day the whole minutes elapsed since `dayStart`. */
  lemma MinuteOfAligned(dayStart: Instant, x: Instant)
    requires dayStart % MS_PER_DAY == 0
    requires dayStart <= x < dayStart + MS_PER_DAY
    requires (x - dayStart) % MS_PER_MINUTE == 0
    ensures MinuteOfDay(x) * MS_PER_MINUTE == x - dayStart
  {
    var k := (x - dayStart) / MS_PER_MINUTE;
    assert x == dayStart + k * MS_PER_MINUTE;
    WithinDay(dayStart, k);
  }

  /** The text of an instant is the five characters `HH:mm` of its minute
      of the day, zero-padded, and reads back through `timeToMinutes` as
      that minute. */
  lemma ClockOfReadsBack(d: Instant)
    ensures var h, m := MinuteOfDay(d) / 60, MinuteOfDay(d) % 60;
      ClockOf(d) == [ClockText.DigitChar(h / 10), ClockText.DigitChar(h % 10), ':',
                     ClockText.DigitChar(m / 10), ClockText.DigitChar(m % 10)]
    ensures ClockText.TimeToMinutes(ClockOf(d)) == Some(MinuteOfDay(d))
  {
    ClockText.MinutesToTimeShape(MinuteOfDay(d));
    ClockText.TimeRoundTrip(MinuteOfDay(d));
  }

  /** For a window that starts on the minute and ends by midnight, the
      emitted starts have strictly ascending minutes of the day, so their
      `HH:mm` texts ascend. */
  lemma OutputAscending(booked: seq<Meeting>, dayStart: Instant, start: Instant, dayEndsAt: Instant,
                        duration: int, bufferBefore: int, bufferAfter: int)
    requires dayStart % MS_PER_DAY == 0
    requires dayStart <= start && dayEndsAt <= dayStart + MS_PER_DAY
    requires (start - dayStart) % MS_PER_MINUTE == 0
    ensures forall i, j :: 0 <= i < j < |Starts(booked, start, dayEndsAt, duration, bufferBefore, bufferAfter)| ==>
      MinuteOfDay(Starts(booked, start, dayEndsAt, duration, bufferBefore, bufferAfter)[i]) <
      MinuteOfDay(Starts(booked, start, dayEndsAt, duration, bufferBefore, bufferAfter)[j])
  {
    var ds := Starts(booked, start, dayEndsAt, duration, bufferBefore, bufferAfter);
    StartsSound(booked, start, dayEndsAt, duration, bufferBefore, bufferAfter);
    StartsIncreasing(booked, start, dayEndsAt, duration, bufferBefore, bufferAfter);
    forall i | 0 <= i < |ds|
      ensures MinuteOfDay(ds[i]) * MS_PER_MINUTE == ds[i] - dayStart
    {
      assert ds[i] in ds;
      var k := (ds[i] - start) / (STEP * MS_PER_MINUTE);
      assert ds[i] - dayStart == (start - dayStart) + k * STEP * MS_PER_MINUTE;
      MinuteOfAligned(dayStart, ds[i]);
    }
  }

  /** The output texts of such a window read back through `timeToMinutes`
      as strictly ascending minutes of the day. */
  lemma OutputTextsAscending(booked: seq<Meeting>, dayStart: Instant, start: Instant, dayEndsAt: Instant,
                             duration: int, bufferBefore: int, bufferAfter: int, i: nat, j: nat)
    requires dayStart % MS_PER_DAY == 0
    requires dayStart <= start && dayEndsAt <= dayStart + MS_PER_DAY
    requires (start - dayStart) % MS_PER_MINUTE == 0
    requires i < j < |Texts(Starts(booked, start, dayEndsAt, duration, bufferBefore, bufferAfter))|
    ensures ClockText.TimeToMinutes(Texts(Starts(booked, start, dayEndsAt, duration, bufferBefore, bufferAfter))[i]).Some?
    ensures ClockText.TimeToMinutes(Texts(Starts(booked, start, dayEndsAt, duration, bufferBefore, bufferAfter))[j]).Some?
    ensures ClockText.TimeToMinutes(Texts(Starts(booked, start, dayEndsAt, duration, bufferBefore, bufferAfter))[i]).value
          < ClockText.TimeToMinutes(Texts(Starts(booked, start, dayEndsAt, duration, bufferBefore, bufferAfter))[j]).value
  {
    var ds := Starts(booked, start, dayEndsAt, duration, bufferBefore, bufferAfter);
    OutputAscending(booked, dayStart, start, dayEndsAt, duration, bufferBefore, bufferAfter);
    ClockOfReadsBack(ds[i]);
    ClockOfReadsBack(ds[j]);
  }
}
