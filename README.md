# Calendly-clone scheduling core in Dafny

This project models the scheduling core of a small Calendly-style booking
application. The application has two backends:

- an Express server under `src/`, whose event type, user and meeting ids are texts;
- Next.js route handlers under `app/api/`, whose default user is the number 1.

The core is **slot generation** and **booking-conflict detection**. The
repository has three slot generators, modelled separately:

- the Express slot service (`generateAvailableSlots`);
- the Express slot controller (`getAvailableSlots`);
- the Next.js `GET /api/slots`.

It also has three commit-time conflict checks, modelled separately:

- the Express `isSlotAvailable`;
- the Express `createMeeting`;
- the Next.js `POST /api/meetings`.

Around them sit the table handlers for event types, weekly availability and
meetings in both backends, the two Express validation middlewares, the
`HH:mm` clock-text codec and the minute arithmetic of `lib/utils.ts`.

Modules, one per source file, plus shared ones:

- `Common`: the shared values.
  - `Field<T>` is a JSON body field that is absent, `null` or given, so that `!x`, `x === undefined` and `x ?? 0` can be told apart.
  - `Reply<T>` is an HTTP status with a body or an error text.
- `Seqs`: the generic sequence operations the tables use.
- `ClockText`: `timeToMinutes` / `minutesToTime`, with `split(":").map(Number)` and `padStart` written out.
- `DateUtils`: `addMinutes`, `getDateAtTime`, `getDayOfWeek`, local midnight and minute-of-day, over integer milliseconds.
- `Store`: the three tables as a class `Db`.
  - Each table is a `seq` field that the handler methods reassign.
  - The store hands out the next id.
  - `Db.Valid()` states the store's keys: distinct ids, unique slugs and one availability row per `(user, dayOfWeek)`.
- One module per handler file: `SlotService`, `SlotController`, `SlotsRoute`, `MeetingsRoute`, `MeetingController`, `AvailabilityController`, `AvailabilityRoute`, `EventTypeController`, `EventTypesRoute` and `Validation`.
  - A handler that changes a table is a method with `modifies db`. It states its reply as a function of the old tables, and states the whole new state of every table.
  - Each loop is a method proved equal to a recursive specification function. The properties are lemmas about that function.
- `Comparisons`: where the three generators and the three checks agree and where they part.

Time is an integer count of milliseconds on the host's local clock, with a
fixed offset and no daylight-saving changes. Local midnight is therefore a
multiple of a day, and day 0 (1 January 1970) is a Thursday.

## Model

| member | source | states |
|---|---|---|
| ClockText.NumberOf | src/services/slotService.ts:5 | `Number(field)`: the empty text is 0; a value exists exactly when the text is all decimal digits, and otherwise the result is NaN |
| ClockText.FirstColon | src/services/slotService.ts:5 | `split(":")`: the first ':' position, or the length; no ':' occurs before it |
| ClockText.DecimalValue | src/controllers/slotController.ts:16 | `n.toString()` is a non-empty digit run whose value is `n`; one digit below 10, two below 100 |
| ClockText.PadStart2Shape | src/controllers/slotController.ts:16 | `padStart(2, "0")`: the text is kept as the suffix, the result is at least 2 long, and the prefix is zeros |
| ClockText.TimeToMinutesOfClock | src/services/slotService.ts:4-7 | `timeToMinutes("HH:mm") == 60*HH + mm` for a well-formed five-character text |
| ClockText.MinutesToTimeShape | src/controllers/slotController.ts:13-17 | `minutesToTime(m)` is the zero-padded `HH:mm` with `HH = m div 60` and `mm = m mod 60`, for m < 6000 |
| ClockText.TimeRoundTrip | src/controllers/slotController.ts:7-17 | `timeToMinutes(minutesToTime(m)) == m` for every `m >= 0` |
| ClockText.ParseClockOfFormat | app/api/slots/route.ts:59-69 | parsing the padded `${h}:${m}` text that the Next.js route rebuilds gives back `(h, m)` |
| ClockText.ParseClockOfFields | src/services/slotService.ts:5 | two colon-free fields joined by ':' split back into their numbers, or NaN |
| ClockText.PaddedDecimalValue | app/api/slots/route.ts:64 | a padded decimal reads back as its number and holds no ':' |
| ClockText.LeadingZero | app/api/slots/route.ts:64 | a leading zero added by `padStart` does not change a digit run's value |
| ClockText.TwoDigits | app/api/slots/route.ts:85-86 | below 100, the padded decimal is exactly the two digits |
| ClockText.ColonFree | src/services/slotService.ts:5 | the first ':' of a text that starts with a colon-free field is just after that field |
| DateUtils.StartOfDay | src/services/slotService.ts:37-38 | `setHours(0,0,0,0)`: a day-aligned instant at or before `d`, less than a day before it |
| DateUtils.GetDayOfWeek | lib/utils.ts:19-21 | `getDay()` is in 0..6 |
| DateUtils.WeekdayOfDay | lib/utils.ts:19-21 | every instant of local day `n` after 1 January 1970 has weekday `(n + 4) mod 7`, so it is Sunday (0) exactly when `n` is 3 (4 January 1970) plus a multiple of 7 |
| DateUtils.NextDayOfWeek | lib/utils.ts:19-21 | the day after has the next weekday, Saturday wrapping to Sunday (0) |
| DateUtils.MinuteOfDay | app/api/slots/route.ts:85-86 | `getHours()*60 + getMinutes()` is in 0..1439 |
| DateUtils.AddMinutesLaws | lib/utils.ts:15-17 | `addMinutes(addMinutes(d,a),b) == addMinutes(d,a+b)`, `addMinutes(d,0) == d`, it can be undone, and it is monotone in the minutes |
| DateUtils.WithinDay | lib/utils.ts:8-13 | an instant `k` minutes after a midnight, with `k` within the day, stays on that day with minute-of-day `k` and no seconds |
| DateUtils.DateAtTimeKeepsDay | lib/utils.ts:8-13 | `getDateAtTime` keeps the calendar day, its minute-of-day is `60*HH + mm` of the text, and seconds and ms are zero |
| Common.OrDefault | app/api/event-types/route.ts:50-51 | `x ?? 0`: a given value is kept (0 included), and null or absent becomes the default |
| Store.RemoveRow | src/controllers/meetingController.ts:80-85 | `delete({ where: { id } })` leaves exactly the rows with other ids, and the ids stay distinct and below the next id |
| Store.AppendKeepsOneRowPerDay | src/controllers/availabilityController.ts:27-47 | inserting a row for a `(user, day)` that has none keeps one row per key |
| Store.RemoveKeepsOneRowPerDay | src/controllers/availabilityController.ts:80-83 | removing a row keeps one row per key |
| Store.AppendKeepsUniqueSlugs | src/controllers/eventTypeController.ts:22-36 | inserting an event type with an unused slug keeps slugs unique |
| Store.RemoveKeepsUniqueSlugs | src/controllers/eventTypeController.ts:87-89 | removing an event type keeps slugs unique |
| SlotService.AnyBlocks | src/services/slotService.ts:75-77 | `bookedMeetings.some(...)` holds exactly when some booked meeting overlaps the buffered candidate (both comparisons strict) |
| SlotService.GenerateAvailableSlots | src/services/slotService.ts:10-85 | the service returns `Generate` of the tables: an error for an unknown id, else the slots the loop keeps |
| SlotService.CollectSlots | src/services/slotService.ts:50-84 | the `for` loop (15-minute step, bound `s + duration <= end`) pushes exactly `SlotsFrom` of its inputs |
| SlotService.GenerateOutcomes | src/services/slotService.ts:16-34 | an unknown event type id throws "Event type not found" exactly; no availability row for the weekday gives `[]` |
| SlotService.SlotsSound | src/services/slotService.ts:59-81 | every emitted slot is `startMinutes + 15k` with `startMinutes <= s` and `s + duration <= endMinutes`, and is free |
| SlotService.SlotsIncreasing | src/services/slotService.ts:59-81 | emitted slots are strictly increasing and none precedes the first candidate |
| SlotService.EmittedIffFree | src/services/slotService.ts:67-80 | a candidate is emitted iff no booked meeting has `s - bufferBefore < m.end && s + duration + bufferAfter > m.start` |
| SlotService.MoreMeetingsFewerSlots | src/services/slotService.ts:75-80 | with more booked meetings, every emitted slot was emitted before too |
| SlotService.NewMeetingOnlyRemovesSlots | src/services/slotService.ts:43-84 | appending a meeting to the table never adds a slot and never changes whether the call throws |
| SlotService.IsSlotAvailable | src/services/slotService.ts:88-104 | false iff some meeting of the event type starts in `[start,end)` or ends in `(start,end]`; buffers are not consulted |
| SlotController.NoneOverlaps | src/controllers/slotController.ts:90-92 | `!bookedMeetings.some(...)` holds iff no meeting has `bufferStart < m.end && bufferEnd > m.start` |
| SlotController.GetAvailableSlots | src/controllers/slotController.ts:19-103 | the handler's reply is `GetSlots` of the tables: 404, `[]`, or the slots the loop keeps |
| SlotController.CollectSlots | src/controllers/slotController.ts:66-97 | the `for` loop (15-minute step, bound `s + duration <= end`) pushes exactly `SlotsFrom` of its inputs |
| SlotController.GetSlotsOutcomes | src/controllers/slotController.ts:28-48 | an unknown slug gives 404 exactly; a missing availability row gives 200 with `[]` |
| SlotController.TooLongIsEmpty | src/controllers/slotController.ts:75 | when `duration > endMinutes - startMinutes` no slot is produced |
| SlotController.TouchingDoesNotBlock | src/controllers/slotController.ts:91 | the test is half-open: meetings that end at `bufferStart` or start at `bufferEnd` do not block |
| SlotsRoute.IsBooked | app/api/slots/route.ts:75-82 | `meetings.some(...)` iff some meeting has `start < m.end + bufferAfter && start + duration + bufferAfter > m.start - bufferBefore` |
| SlotsRoute.Get | app/api/slots/route.ts:7-98 | the handler's reply is `GetSlots` of the tables: 400, 404, `[]`, or the texts of the offered starts |
| SlotsRoute.CollectSlots | app/api/slots/route.ts:71-91 | the `while` loop (30-minute step, `start < dayEndsAt`) pushes exactly the texts of `Starts` |
| SlotsRoute.TextsStep | app/api/slots/route.ts:71-90 | one pass of the loop: the texts from the current candidate on are its `HH:mm` text when it is offered, followed by the texts from the next 30-minute step on |
| SlotsRoute.GetSlotsOutcomes | app/api/slots/route.ts:13-39 | a missing `slug` or `date` gives 400 exactly, then an unknown slug gives 404 exactly, then no availability gives `[]` |
| SlotsRoute.WindowBoundValue | app/api/slots/route.ts:59-69 | the rebuilt window bound is the selected day's midnight plus `timeToMinutes` of the field, or Invalid Date |
| SlotsRoute.StartsSound | app/api/slots/route.ts:62-90 | every emitted start is a whole number of 30-minute steps after the window start, before the window end, and offered |
| SlotsRoute.StartsIncreasing | app/api/slots/route.ts:71-90 | emitted starts are strictly increasing and none precedes the window start |
| SlotsRoute.EmittedIffOffered | app/api/slots/route.ts:72-84 | a grid candidate is emitted iff it is not booked and `start + duration + bufferAfter <= window end` |
| SlotsRoute.MinuteOfAligned | app/api/slots/route.ts:85-86 | a minute-aligned instant within the day has minute-of-day equal to its offset from midnight |
| SlotsRoute.ClockOfReadsBack | app/api/slots/route.ts:85-87 | the pushed text of an instant is exactly the five characters `HH:mm` of its hour and minute, zero-padded, and reads back through `timeToMinutes` as its minute-of-day |
| SlotsRoute.OutputAscending | app/api/slots/route.ts:71-90 | for a window within one day that starts on a whole minute, the emitted starts have strictly ascending minutes of the day |
| SlotsRoute.OutputTextsAscending | app/api/slots/route.ts:85-87 | for such a window, any two output entries read back through `timeToMinutes` as numbers, and the earlier entry's number is the smaller |
| MeetingsRoute.PostMeeting | app/api/meetings/route.ts:22-94 | the reply is `Post` of the old tables; only success appends its meeting and takes an id; every other table is unchanged |
| MeetingsRoute.List | app/api/meetings/route.ts:8-15 | `GET` lists each of the default user's meetings as often as the table holds it and no other row, by descending `startTime` |
| MeetingsRoute.PostOutcomes | app/api/meetings/route.ts:27-72 | 400 exactly on a falsy field, then 404 exactly on an unknown slug, then 409 iff a meeting of the event type has `m.start < end + bufferAfter && m.end > start - bufferBefore` |
| MeetingsRoute.PostCreates | app/api/meetings/route.ts:45-86 | the created meeting has the next id, the slug's event type, the day of `date` at `HH:mm` with zero seconds, `end = start + duration`, and no clash |
| MeetingsRoute.PostKeepsSeparated | app/api/meetings/route.ts:53-74 | if a table's meetings of an event type were all made by `POST`, no later meeting's buffered interval overlaps an earlier one's raw interval |
| MeetingController.AllMeetings | src/controllers/meetingController.ts:6-13 | each of the default user's meetings as often as the table holds it and no other row, by descending `startTime` |
| MeetingController.CreateMeeting | src/controllers/meetingController.ts:19-58 | the reply is `Create` of the old tables; only success appends one meeting with the times the date texts denote; nothing else changes |
| MeetingController.CreateOutcomes | src/controllers/meetingController.ts:23-54 | 400 exactly when a body field is absent, null or "", then 500 when a date text is an Invalid Date, then 409 iff a meeting of the event type starts in `[start,end)` or ends in `(start,end]`; success yields the denoted start and end |
| MeetingController.EnclosingIsNoConflict | src/controllers/meetingController.ts:28-36 | a meeting that strictly encloses the new interval, or ends where it starts, is no conflict |
| MeetingController.CancelMeeting | src/controllers/meetingController.ts:78-91 | removes exactly the row with that id and answers 204; an unknown id gives 404 and changes nothing |
| MeetingController.GetMeetingOutcomes | src/controllers/meetingController.ts:60-76 | 404 "Meeting not found" iff no row has the id; otherwise that row |
| AvailabilityController.List | src/controllers/availabilityController.ts:6-12 | each of the default user's rows as often as the table holds it and no other row, by ascending `dayOfWeek` |
| AvailabilityController.CreateAvailability | src/controllers/availabilityController.ts:18-53 | the reply is `Create` of the old table; only success appends one row and keeps one row per day |
| AvailabilityController.CreateOutcomes | src/controllers/availabilityController.ts:22-49 | 400 exactly on an absent day or a falsy time, 500 on a `null` day, then 400 iff the day already has a row and success otherwise; success stores the given fields and keeps one row per day |
| AvailabilityController.Patch | src/controllers/availabilityController.ts:60-66 | each time is overwritten only when truthy; `id`, `userId` and `dayOfWeek` never change |
| AvailabilityController.PatchIdempotent | src/controllers/availabilityController.ts:60-66 | patching twice is patching once; an empty patch changes nothing |
| AvailabilityController.UpdateAvailability | src/controllers/availabilityController.ts:55-75 | 404 iff no row has the id; else only that row is replaced by its patch |
| AvailabilityController.DeleteAvailability | src/controllers/availabilityController.ts:77-91 | removes exactly the row with that id (204), else 404; one row per day is kept |
| AvailabilityRoute.List | app/api/availability/route.ts:7-13 | each of the default user's rows as often as the table holds it and no other row, by ascending `dayOfWeek` |
| AvailabilityRoute.Post | app/api/availability/route.ts:20-56 | 400 on missing fields and nothing changes; otherwise the table becomes the upsert of the default user's `(day)` key |
| AvailabilityRoute.UpsertStores | app/api/availability/route.ts:32-46 | after an upsert the key has exactly one row holding the new times, and one row per key is kept |
| AvailabilityRoute.UpsertKeepsOtherDays | app/api/availability/route.ts:32-46 | rows of every other key are unchanged |
| AvailabilityRoute.UpsertIdempotent | app/api/availability/route.ts:32-46 | posting the same body twice leaves the table as posting it once |
| EventTypeController.LowerChar | src/controllers/eventTypeController.ts:27 | `toLowerCase` maps A-Z to a-z and keeps every other character |
| EventTypeController.Lower | src/controllers/eventTypeController.ts:27 | `slug.toLowerCase()` lowercases character by character |
| EventTypeController.LowerIdempotent | src/controllers/eventTypeController.ts:27 | lowercasing twice is lowercasing once and leaves no upper-case letter |
| EventTypeController.AllEventTypes | src/controllers/eventTypeController.ts:6-11 | each of the default user's rows as often as the table holds it, and no other row |
| EventTypeController.CreateEventType | src/controllers/eventTypeController.ts:17-41 | the reply is `Create` of the old table; only success appends one row and keeps slugs unique |
| EventTypeController.CreateOutcomes | src/controllers/eventTypeController.ts:19-36 | with fields present, 409 "Slug must be unique" iff the lowercased slug exists; success stores the lowercased slug and the buffers defaulted to 0 |
| EventTypeController.PatchMerges | src/controllers/eventTypeController.ts:63-73 | `name` and `duration` are written exactly when truthy (a truthy value is stored, a falsy one keeps the row's), the buffers whenever defined (0 included); `slug`, `userId` and `id` never change; idempotent |
| EventTypeController.UpdateEventType | src/controllers/eventTypeController.ts:60-82 | 404 iff no row has the id; else only that row is replaced by its merge; a null buffer answers 500 and changes nothing |
| EventTypeController.GetEventTypeOutcomes | src/controllers/eventTypeController.ts:43-58 | 404 iff no row has the id; otherwise that row |
| EventTypeController.DeleteEventType | src/controllers/eventTypeController.ts:84-98 | removes exactly the row with that id (204), else 404 |
| EventTypesRoute.PostEventType | app/api/event-types/route.ts:32-70 | the reply is `Post` of the old table; only success appends one row and keeps slugs unique |
| EventTypesRoute.GetBySlug | app/api/event-types/route.ts:12-18 | with a slug, a list of at most one element holding exactly the row with that slug |
| EventTypesRoute.ListNewestFirst | app/api/event-types/route.ts:20-25 | without a slug, each of the default user's rows as often as the table holds it and no other row, `createdAt` descending |
| EventTypesRoute.PostOutcomes | app/api/event-types/route.ts:37-62 | 400 exactly on a falsy name, duration or slug, then 409 "Slug already exists" iff the exact slug exists; success keeps the slug as given and applies `?? 0` |
| Validation.EventTypeInputVerdict | src/middlewares/validation.ts:3-19 | `next` iff name, duration and slug are truthy, duration positive and slug in `[a-z0-9-]+`; rejections come in the order missing, duration, slug |
| Validation.AcceptedSlugIsLower | src/middlewares/validation.ts:14 | a slug in `[a-z0-9-]*` is unchanged by the controller's `toLowerCase` |
| Validation.IndexOf | src/middlewares/validation.ts:28 | the first position of a character, or the length |
| Validation.CountOnce | src/middlewares/validation.ts:28 | a character present at `i` occurs exactly once iff no other position holds it |
| Validation.CountNone | src/middlewares/validation.ts:28 | a character's count is 0 iff it occurs nowhere |
| Validation.EmailShapeIsPattern | src/middlewares/validation.ts:28 | `^[^\s@]+@[^\s@]+\.[^\s@]+$` accepts iff the text has exactly one '@', no white space, a non-empty local part, and after the '@' a '.' with text on both sides |
| Validation.BookingInputVerdict | src/middlewares/validation.ts:21-33 | `next` iff the four fields are truthy (given and not "") and the email matches; a falsy field is "Missing required fields", and with the fields truthy a mismatch is "Invalid email format" |
| Comparisons.ExpressLoopsAgree | src/controllers/slotController.ts:75-97 | the controller's loop and the service's loop emit the same slots for the same inputs |
| Comparisons.ControllerMatchesService | src/controllers/slotController.ts:19-99 | with distinct ids, `GET /slots/:slug/:date` answers the service's slots for the slug's event type and the default user |
| Comparisons.CommitCheckMissesEnclosing | src/services/slotService.ts:88-104 | for proper intervals, real overlap iff the two-disjunct test or strict enclosure, so enclosure is exactly what the check misses |
| Comparisons.EnclosingMeetingAccepted | src/controllers/meetingController.ts:28-40 | a 09:00-11:00 meeting does not stop 10:00-10:30 from being accepted, though they overlap |
| Comparisons.ListedPassesCommit | src/services/slotService.ts:67-104 | with non-negative buffers and proper intervals, a slot the service lists passes `isSlotAvailable` against the same meetings |
| Comparisons.ClashMeansNotOffered | app/api/meetings/route.ts:53-65 | with `0 <= bufferBefore <= bufferAfter`, a meeting that makes `POST` answer 409 also makes `GET /api/slots` skip that start |
| Comparisons.OfferedButRefused | app/api/slots/route.ts:75-82 | with `bufferBefore > bufferAfter`, `GET /api/slots` lists a start that `POST` refuses with 409: over a 09:45-12:00 window, 10:45 is among the emitted `Starts` and clashes with a 10:00-10:30 meeting |
| Comparisons.BufferAfterTouching | app/api/meetings/route.ts:53-65 | after 10:00-10:30 with 15 minutes after, 10:30 is skipped by `GET /api/slots`, accepted by `POST` and listed by the Express service |

## Where the handlers disagree

The lemmas in `Comparisons` state each case below.

- **The 10:30 slot after a buffered meeting.** Take a 10:00-10:30 meeting of an event type with a 15-minute `bufferAfter` and no `bufferBefore`. `GET /api/slots` skips a 10:30 candidate, because it widens the meeting by `bufferAfter`. `POST /api/meetings` accepts a 10:30 booking, because it applies `bufferAfter` after the new meeting's end. The Express slot service lists 10:30, because it widens the candidate and not the meeting (`Comparisons.BufferAfterTouching`).
- **Validation before the Express commits.** `src/index.ts:28-29` puts `validateEventTypeInput` in front of `POST /api/event-types` and `validateBookingInput` in front of `POST /api/meetings`; a body they reject gets their 400 and never reaches `createEventType` or `createMeeting`. The middlewares are modelled as verdict functions (`Validation`), and the controllers as what runs after `next()`. Their composition is Express wiring and is left out.
- **Express commits ignore buffers.** The Express booking check (`createMeeting`, `isSlotAvailable`) consults no buffers. It also misses an existing meeting that strictly encloses the new one.
- **The Next.js listing and booking place buffers differently.** `GET /api/slots` widens each meeting by both buffers, while `POST /api/meetings` widens the new meeting. When `bufferBefore > bufferAfter` the listing can offer a start that the booking then refuses (`Comparisons.OfferedButRefused`).

## Left out

- MeetingsRoute.List, MeetingsRoute.PostMeeting, MeetingController.AllMeetings, MeetingController.CreateMeeting and MeetingController.GetMeetingOutcomes return bare `Meeting` rows. The replies of app/api/meetings/route.ts:12 and :83 and of src/controllers/meetingController.ts:10, :51 and :65 also embed the meeting's event type (`include: { eventType: true }`); that embedded `eventType` object is not modelled.
- The Express `createMeeting` reads its id and date fields as the texts the body carries. The row key an id text names and the instants `new Date(text)` gives (or an Invalid Date) are a parameter (`MeetingController.Parsed`); a JSON number in those fields is not modelled.
- Real `Date` behaviour is not modelled. This covers time zones, daylight-saving changes, `new Date(text)` parsing of the request's date text, and `getDay` on UTC-parsed dates. The instant the date text denotes is a parameter (`selectedDate`, `date`).
- The Express controller's `toISOString` rendering of each slot (src/controllers/slotController.ts:95) is not modelled. Slots are returned as instants.
- `Number(text)` is modelled for the texts the store holds: the empty text, a run of decimal digits, and NaN for anything else. Signs, decimals, exponents and surrounding white space are not modelled.
- `Number.parseInt` in the Express event-type creation (src/controllers/eventTypeController.ts:26-29) is modelled on integer inputs. Its prefix parsing of texts is not modelled.
- `toLowerCase` is modelled on ASCII A-Z only. Other letters are kept as they are.
- Prisma is modelled as in-memory tables. `P2002` is a unique-key collision and `P2025` a missing id. Query translation and type coercion are not modelled.
- Foreign-key effects on delete (cascades to meetings when an event type is deleted) are not modelled. The model removes only the named row.
- The generic `catch` paths that answer 500 for store or runtime failures are not modelled. Only the 500 outcomes that a JSON `null`, an absent required column or an Invalid Date determine are modelled.
- Concurrency is not modelled: the race between listing slots and committing a booking, and simultaneous requests.
- `cn`, `formatTime` and `formatDateTime` in lib/utils.ts are not modelled: they are class-name merging and locale formatting.
- The React components and pages, the Express wiring (`src/index.ts`, `src/routes`) and the seed scripts are not part of this model.
- The regular-expression tests are modelled for text inputs only. `RegExp.test` on a non-text value converts the value to a text first.
- The Express `getAvailableSlots`' own `minutesToTime` helper (src/controllers/slotController.ts:13-17) is not called by the handler. It is modelled as `ClockText.MinutesToTime`, which `GET /api/slots` uses for its `HH:mm` output.
