/** The record store the handlers share: three tables of rows, each row with a
    store-assigned id, and the store's unique keys (event-type slug, and
    availability `(userId, dayOfWeek)`). Queries are functions over the rows. */
module Store {
  import opened Common
  import opened DateUtils
  import Seqs

  type Id = nat

  /** The Express backend keys users by text, the Next.js backend by number. */
  datatype UserId = TextUser(text: string) | NumberUser(number: int)

  datatype EventType = EventType(
    id: Id, userId: UserId, name: string, duration: int, slug: string,
    bufferBefore: int, bufferAfter: int, createdAt: int)

  datatype Availability = Availability(
    id: Id, userId: UserId, dayOfWeek: int, startTime: string, endTime: string)

  datatype Meeting = Meeting(
    id: Id, userId: UserId, eventTypeId: Id, inviteeName: string, inviteeEmail: string,
    startTime: Instant, endTime: Instant)

  /** Ids in a table are distinct and below the next id to hand out. */
  ghost predicate EventTypeIds(rows: seq<EventType>, next: nat) {
    && (forall i :: 0 <= i < |rows| ==> rows[i].id < next)
    && (forall i, j :: 0 <= i < j < |rows| ==> rows[i].id != rows[j].id)
  }

  ghost predicate AvailabilityIds(rows: seq<Availability>, next: nat) {
    && (forall i :: 0 <= i < |rows| ==> rows[i].id < next)
    && (forall i, j :: 0 <= i < j < |rows| ==> rows[i].id != rows[j].id)
  }

  ghost predicate MeetingIds(rows: seq<Meeting>, next: nat) {
    && (forall i :: 0 <= i < |rows| ==> rows[i].id < next)
    && (forall i, j :: 0 <= i < j < |rows| ==> rows[i].id != rows[j].id)
  }

  /** The unique index on `slug`. */
  ghost predicate UniqueSlugs(rows: seq<EventType>) {
    forall i, j :: 0 <= i < j < |rows| ==> rows[i].slug != rows[j].slug
  }

  /** The unique index `userId_dayOfWeek`: at most one row per user and day. */
  ghost predicate OneRowPerDay(rows: seq<Availability>) {
    forall i, j :: 0 <= i < j < |rows| ==>
      rows[i].userId != rows[j].userId || rows[i].dayOfWeek != rows[j].dayOfWeek
  }

  class Db {
    var eventTypes: seq<EventType>
    var availability: seq<Availability>
    var meetings: seq<Meeting>
    var nextId: nat

    ghost predicate Valid()
      reads this
    {
      && EventTypeIds(eventTypes, nextId)
      && AvailabilityIds(availability, nextId)
      && MeetingIds(meetings, nextId)
      && UniqueSlugs(eventTypes)
      && OneRowPerDay(availability)
    }

    constructor ()
      ensures Valid()
      ensures eventTypes == [] && availability == [] && meetings == []
    {
      eventTypes, availability, meetings, nextId := [], [], [], 0;
    }
  }

  // Lookups, each a `findUnique` on one key.

  function EventTypeById(rows: seq<EventType>, id: Id): Option<EventType> {
    Seqs.Find(rows, (e: EventType) => e.id == id)
  }

  function EventTypeBySlug(rows: seq<EventType>, slug: string): Option<EventType> {
    Seqs.Find(rows, (e: EventType) => e.slug == slug)
  }

  function AvailabilityFor(rows: seq<Availability>, user: UserId, day: int): Option<Availability> {
    Seqs.Find(rows, (a: Availability) => a.userId == user && a.dayOfWeek == day)
  }

  function MeetingById(rows: seq<Meeting>, id: Id): Option<Meeting> {
    Seqs.Find(rows, (m: Meeting) => m.id == id)
  }

  function MeetingIndex(rows: seq<Meeting>, id: Id): Option<nat> {
    Seqs.FindIndex(rows, (m: Meeting) => m.id == id)
  }

  function EventTypeIndex(rows: seq<EventType>, id: Id): Option<nat> {
    Seqs.FindIndex(rows, (e: EventType) => e.id == id)
  }

  function AvailabilityIndex(rows: seq<Availability>, id: Id): Option<nat> {
    Seqs.FindIndex(rows, (a: Availability) => a.id == id)
  }

  function AvailabilityKeyIndex(rows: seq<Availability>, user: UserId, day: int): Option<nat> {
    Seqs.FindIndex(rows, (a: Availability) => a.userId == user && a.dayOfWeek == day)
  }

  /** Removing one row of a table whose ids (read by `id`) are distinct and
      below `next` leaves exactly the rows with other ids, and keeps the ids
      distinct and below `next`. */
  lemma RemoveRow<T>(rows: seq<T>, id: T -> Id, next: nat, k: nat)
    requires k < |rows|
    requires forall i :: 0 <= i < |rows| ==> id(rows[i]) < next
    requires forall i, j :: 0 <= i < j < |rows| ==> id(rows[i]) != id(rows[j])
    ensures forall i :: 0 <= i < |Seqs.RemoveAt(rows, k)| ==> id(Seqs.RemoveAt(rows, k)[i]) < next
    ensures forall i, j :: 0 <= i < j < |Seqs.RemoveAt(rows, k)| ==>
      id(Seqs.RemoveAt(rows, k)[i]) != id(Seqs.RemoveAt(rows, k)[j])
    ensures forall x :: x in Seqs.RemoveAt(rows, k) <==> x in rows && id(x) != id(rows[k])
  {
    var r := Seqs.RemoveAt(rows, k);
    forall i, j | 0 <= i < j < |r| ensures id(r[i]) != id(r[j]) {
      var i', j' := if i < k then i else i + 1, if j < k then j else j + 1;
      assert r[i] == rows[i'] && r[j] == rows[j'];
    }
    forall x ensures x in r <==> x in rows && id(x) != id(rows[k]) {
      if x in r {
        var i :| 0 <= i < |r| && r[i] == x;
        if i < k { assert rows[i] == x; } else { assert rows[i + 1] == x; }
      }
      if x in rows && id(x) != id(rows[k]) {
        var i :| 0 <= i < |rows| && rows[i] == x;
        if i < k { assert r[i] == x; } else { assert r[i - 1] == x; }
      }
    }
  }

  /** The row `a` for a `(userId, dayOfWeek)` no row has yet can be appended
      without breaking the unique index. */
  lemma AppendKeepsOneRowPerDay(rows: seq<Availability>, a: Availability)
    requires OneRowPerDay(rows)
    requires AvailabilityFor(rows, a.userId, a.dayOfWeek).None?
    ensures OneRowPerDay(rows + [a])
  {
    var all := rows + [a];
    forall i, j | 0 <= i < j < |all|
      ensures all[i].userId != all[j].userId || all[i].dayOfWeek != all[j].dayOfWeek
    {
      if j == |rows| {
        assert all[i] in rows;
      }
    }
  }

  /** Removing a row keeps at most one row per `(userId, dayOfWeek)`. */
  lemma RemoveKeepsOneRowPerDay(rows: seq<Availability>, k: nat)
    requires k < |rows| && OneRowPerDay(rows)
    ensures OneRowPerDay(Seqs.RemoveAt(rows, k))
  {
    var r := Seqs.RemoveAt(rows, k);
    forall i, j | 0 <= i < j < |r|
      ensures r[i].userId != r[j].userId || r[i].dayOfWeek != r[j].dayOfWeek
    {
      var i', j' := if i < k then i else i + 1, if j < k then j else j + 1;
      assert r[i] == rows[i'] && r[j] == rows[j'];
    }
  }

  /** A row whose slug no row has yet can be appended without breaking the
      unique index on `slug`. */
  lemma AppendKeepsUniqueSlugs(rows: seq<EventType>, e: EventType)
    requires UniqueSlugs(rows)
    requires EventTypeBySlug(rows, e.slug).None?
    ensures UniqueSlugs(rows + [e])
  {
    var all := rows + [e];
    forall i, j | 0 <= i < j < |all| ensures all[i].slug != all[j].slug {
      if j == |rows| {
        assert all[i] in rows;
      }
    }
  }

  /** Removing a row keeps slugs unique. */
  lemma RemoveKeepsUniqueSlugs(rows: seq<EventType>, k: nat)
    requires k < |rows| && UniqueSlugs(rows)
    ensures UniqueSlugs(Seqs.RemoveAt(rows, k))
  {
    var r := Seqs.RemoveAt(rows, k);
    forall i, j | 0 <= i < j < |r| ensures r[i].slug != r[j].slug {
      var i', j' := if i < k then i else i + 1, if j < k then j else j + 1;
      assert r[i] == rows[i'] && r[j] == rows[j'];
    }
  }
}
