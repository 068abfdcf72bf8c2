/** Events and RSVPs: creation with its defaults, creator-only edits and deletion, the RSVP
    update-or-insert on (event, user), the listing with its upcoming filter, and the attendee
    list (api/routes/events.js). */
module Events {
  import opened Common
  import opened Tables
  import opened Store
  import opened Sorting

  type EventRow = Row<Event>
  type AttendeeRow = Row<Attendee>

  /** An RSVP is identified by its event and its user. */
  function AttendeeKey(a: Attendee): (nat, nat) {
    (a.eventId, a.userId)
  }

  /** At most one RSVP per user and event. */
  ghost predicate Inv(es: Table<Event>, ats: Table<Attendee>) {
    es.Valid() && ats.Valid() && KeyUnique(ats.rows, AttendeeKey)
  }

  ghost predicate Consistent(db: Db)
    reads db
  {
    Inv(db.events, db.attendees)
  }

  // ---------------------------------------------------------------------------
  // POST /

  /** `maxAttendees || null`: an absent or zero limit is stored as null. */
  function NonZeroInt(n: Option<int>): (r: Option<int>)
    ensures r.Some? <==> n.Some? && n.value != 0
    ensures r.Some? ==> r == n
  {
    if n.Some? && n.value != 0 then n else None
  }

  /** A title and a start date are required; the optional columns are stored as null when
      absent, privacy defaults to 'public', and the creator is the requester. */
  method Create(db: Db, me: nat, title: Option<string>, description: Option<string>, location: Option<string>,
                startDate: Option<int>, endDate: Option<int>, groupId: Option<nat>, privacy: Option<string>,
                maxAttendees: Option<int>, coverUrl: Option<string>)
    returns (st: Status, eid: nat)
    requires Consistent(db)
    modifies db`events
    ensures Consistent(db)
    ensures !Given(title) || startDate.None? ==> st == BadRequest && db.events == old(db.events)
    ensures Given(title) && startDate.Some? ==>
      && st == Created && eid == old(db.events.next)
      && db.events.rows == old(db.events.rows)
           + [Row(eid, Event(title.value, OrNull(description), OrNull(location), startDate.value, endDate, me,
                             NonZero(groupId), OrElse(privacy, "public"), NonZeroInt(maxAttendees), OrNull(coverUrl)))]
  {
    if !Given(title) || startDate.None? {
      return BadRequest, 0;
    }
    eid := db.events.next;
    db.events := db.events.Insert(Event(title.value, OrNull(description), OrNull(location), startDate.value, endDate, me,
                                        NonZero(groupId), OrElse(privacy, "public"), NonZeroInt(maxAttendees), OrNull(coverUrl)));
    st := Created;
  }

  // ---------------------------------------------------------------------------
  // PUT /:id

  /** The fields of a PUT body; `None` is a field the body leaves out, and a nullable
      column's field may also carry `null`. */
  datatype EventPatch = EventPatch(
    title: Option<string>,
    description: Nullable<string>,
    location: Nullable<string>,
    startDate: Option<int>,
    endDate: Nullable<int>,
    privacy: Option<string>,
    maxAttendees: Nullable<int>,
    coverUrl: Nullable<string>)

  const NoChange := EventPatch(None, None, None, None, None, None, None, None)

  /** The `updateData` of PUT /:id applied to an event: each supplied field is written (a
      `null` clears a nullable column), and neither the creator nor the group ever changes. */
  function ApplyPatch(e: Event, d: EventPatch): (r: Event)
    ensures r.createdBy == e.createdBy && r.groupId == e.groupId
    ensures r.title == d.title.GetOr(e.title) && r.startDate == d.startDate.GetOr(e.startDate)
    ensures r.privacy == d.privacy.GetOr(e.privacy)
    ensures d.description.Some? ==> r.description == d.description.value
    ensures d.description.None? ==> r.description == e.description
    ensures d.location.Some? ==> r.location == d.location.value
    ensures d.location.None? ==> r.location == e.location
    ensures d.endDate.Some? ==> r.endDate == d.endDate.value
    ensures d.endDate.None? ==> r.endDate == e.endDate
    ensures d.maxAttendees.Some? ==> r.maxAttendees == d.maxAttendees.value
    ensures d.maxAttendees.None? ==> r.maxAttendees == e.maxAttendees
    ensures d.coverUrl.Some? ==> r.coverUrl == d.coverUrl.value
    ensures d.coverUrl.None? ==> r.coverUrl == e.coverUrl
  {
    Event(d.title.GetOr(e.title), Over(d.description, e.description), Over(d.location, e.location),
          d.startDate.GetOr(e.startDate), Over(d.endDate, e.endDate), e.createdBy, e.groupId,
          d.privacy.GetOr(e.privacy), Over(d.maxAttendees, e.maxAttendees), Over(d.coverUrl, e.coverUrl))
  }

  function Patch(d: EventPatch): Event -> Event {
    (e: Event) => ApplyPatch(e, d)
  }

  /** The later of two bodies wins on every field it supplies. */
  function Then(d1: EventPatch, d2: EventPatch): EventPatch {
    EventPatch(Later(d2.title, d1.title), Later(d2.description, d1.description), Later(d2.location, d1.location),
               Later(d2.startDate, d1.startDate), Later(d2.endDate, d1.endDate), Later(d2.privacy, d1.privacy),
               Later(d2.maxAttendees, d1.maxAttendees), Later(d2.coverUrl, d1.coverUrl))
  }

  /** A body with no fields changes nothing. */
  lemma EmptyPatch(e: Event)
    ensures ApplyPatch(e, NoChange) == e
  {
  }

  /** Two edits in a row are one edit with the later body's fields taking precedence; in
      particular sending the same body twice is the same as sending it once. */
  lemma PatchTwice(e: Event, d1: EventPatch, d2: EventPatch)
    ensures ApplyPatch(ApplyPatch(e, d1), d2) == ApplyPatch(e, Then(d1, d2))
    ensures ApplyPatch(ApplyPatch(e, d1), d1) == ApplyPatch(e, d1)
  {
  }

  /** The creator of the existing event `eid`. */
  predicate CreatedBy(rows: seq<EventRow>, eid: nat, me: nat) {
    HasId(rows, eid) && GetIn(rows, eid).value.createdBy == me
  }

  /** PUT /:id: a missing event is 404, someone else's is 403, and only the creator's event
      is edited, in the supplied fields only. */
  method Update(db: Db, me: nat, eid: nat, d: EventPatch) returns (st: Status)
    requires Consistent(db)
    modifies db`events
    ensures Consistent(db)
    ensures !HasId(old(db.events.rows), eid) ==> st == NotFound
    ensures HasId(old(db.events.rows), eid) && !CreatedBy(old(db.events.rows), eid, me) ==> st == Forbidden
    ensures st != Ok ==> db.events == old(db.events)
    ensures CreatedBy(old(db.events.rows), eid, me) ==>
      st == Ok && db.events == old(db.events).WithRows(Modify(old(db.events.rows), IdIs(eid), Patch(d)))
  {
    var existing := db.events.Get(eid);
    if existing.None? {
      return NotFound;
    }
    if existing.value.createdBy != me {
      return Forbidden;
    }
    ModifyKeepsIds(db.events.rows, IdIs(eid), Patch(d), db.events.next);
    db.events := db.events.WithRows(Modify(db.events.rows, IdIs(eid), Patch(d)));
    st := Ok;
  }

  /** An edit changes the event `eid` as `ApplyPatch` says, keeps its creator, and changes no
      other event. */
  lemma PatchOnlyThatEvent(es: Table<Event>, eid: nat, e: Event, d: EventPatch)
    requires es.Valid() && es.Get(eid) == Some(e)
    ensures var r := es.WithRows(Modify(es.rows, IdIs(eid), Patch(d)));
      && r.Get(eid) == Some(ApplyPatch(e, d))
      && CreatedBy(r.rows, eid, e.createdBy)
      && forall h :: h != eid ==> r.Get(h) == es.Get(h)
  {
    ModifyOne(es.rows, eid, Patch(d), e);
  }

  // ---------------------------------------------------------------------------
  // DELETE /:id

  /** DELETE /:id: the same checks as an edit; only the event row itself is deleted. */
  method Delete(db: Db, me: nat, eid: nat) returns (st: Status)
    requires Consistent(db)
    modifies db`events
    ensures Consistent(db)
    ensures !HasId(old(db.events.rows), eid) ==> st == NotFound
    ensures HasId(old(db.events.rows), eid) && !CreatedBy(old(db.events.rows), eid, me) ==> st == Forbidden
    ensures st != Ok ==> db.events == old(db.events)
    ensures CreatedBy(old(db.events.rows), eid, me) ==>
      st == Ok && db.events == old(db.events).WithRows(Without(old(db.events.rows), eid))
  {
    var existing := db.events.Get(eid);
    if existing.None? {
      return NotFound;
    }
    if existing.value.createdBy != me {
      return Forbidden;
    }
    db.events := db.events.WithRows(Without(db.events.rows, eid));
    st := Ok;
  }

  /** A successful delete removes exactly that event and leaves every other one. */
  lemma DeleteOnlyThatEvent(es: Table<Event>, eid: nat)
    requires es.Valid() && HasId(es.rows, eid)
    ensures var r := Without(es.rows, eid);
      && !HasId(r, eid)
      && |r| == |es.rows| - 1
      && forall h :: h != eid ==> GetIn(r, h) == GetIn(es.rows, h)
  {
    WithoutOthers(es.rows, eid);
  }

  // ---------------------------------------------------------------------------
  // POST /:id/rsvp

  /** `['going', 'maybe', 'not_going'].includes(status)` */
  predicate ValidRsvp(status: Option<string>) {
    status.Some? && (status.value == "going" || status.value == "maybe" || status.value == "not_going")
  }

  function SetRsvp(s: string): Attendee -> Attendee {
    (a: Attendee) => a.(status := s)
  }

  /** `where: { event_id, user_id }` on `event_attendees` */
  function RsvpOf(eid: nat, u: nat): AttendeeRow -> bool {
    KeyIs(AttendeeKey, (eid, u))
  }

  /** The attendee table after user `u` answers `s` for event `eid`: the existing RSVP gets the
      new status, or, when there is none, one RSVP is inserted. Afterwards the pair has exactly
      one RSVP and its status is `s`; every other RSVP is as before. */
  function RsvpRows(t: Table<Attendee>, eid: nat, u: nat, s: string): (r: Table<Attendee>)
    requires t.Valid() && KeyUnique(t.rows, AttendeeKey)
    ensures r.Valid() && KeyUnique(r.rows, AttendeeKey)
    ensures Count(r.rows, RsvpOf(eid, u)) == 1
    ensures forall x :: x in r.rows && x.val.eventId == eid && x.val.userId == u ==> x.val.status == s
    ensures forall x :: x in r.rows && AttendeeKey(x.val) != (eid, u) <==> x in t.rows && AttendeeKey(x.val) != (eid, u)
    ensures (forall x :: x in t.rows ==> AttendeeKey(x.val) != (eid, u)) ==> r == t.Insert(Attendee(eid, u, s))
    ensures forall x :: x in t.rows && AttendeeKey(x.val) == (eid, u) ==> Row(x.id, x.val.(status := s)) in r.rows
  {
    var r := Upsert(t, AttendeeKey, (eid, u), SetRsvp(s), Attendee(eid, u, s));
    assert forall x :: x in r.rows && x.val.eventId == eid && x.val.userId == u ==> x.val.status == s by {
      forall x | x in r.rows && x.val.eventId == eid && x.val.userId == u ensures x.val.status == s {
        RsvpRowHasStatus(t, eid, u, s, x);
      }
    }
    r
  }

  lemma RsvpRowHasStatus(t: Table<Attendee>, eid: nat, u: nat, s: string, x: AttendeeRow)
    requires t.Valid() && KeyUnique(t.rows, AttendeeKey)
    requires x in Upsert(t, AttendeeKey, (eid, u), SetRsvp(s), Attendee(eid, u, s)).rows
    requires x.val.eventId == eid && x.val.userId == u
    ensures x.val.status == s
  {
    var r := Upsert(t, AttendeeKey, (eid, u), SetRsvp(s), Attendee(eid, u, s));
    match First(t.rows, KeyIs(AttendeeKey, (eid, u)))
    case None =>
      assert Row(t.next, Attendee(eid, u, s)) in r.rows;
      KeyDeterminesRow(r.rows, AttendeeKey, x, Row(t.next, Attendee(eid, u, s)));
    case Some(y) =>
      assert Row(y.id, SetRsvp(s)(y.val)) in r.rows;
      KeyDeterminesRow(r.rows, AttendeeKey, x, Row(y.id, SetRsvp(s)(y.val)));
  }

  /** POST /:id/rsvp: the status is validated before the event is looked up; then the
      requester's RSVP for the event is updated or inserted. */
  method Rsvp(db: Db, me: nat, eid: nat, status: Option<string>) returns (st: Status)
    requires Consistent(db)
    modifies db`attendees
    ensures Consistent(db)
    ensures !ValidRsvp(status) ==> st == BadRequest
    ensures ValidRsvp(status) && !HasId(db.events.rows, eid) ==> st == NotFound
    ensures st == Ok <==> ValidRsvp(status) && HasId(db.events.rows, eid)
    ensures st != Ok ==> db.attendees == old(db.attendees)
    ensures st == Ok ==> db.attendees == RsvpRows(old(db.attendees), eid, me, status.value)
  {
    if !ValidRsvp(status) {
      return BadRequest;
    }
    if db.events.Get(eid).None? {
      return NotFound;
    }
    ghost var before := db.attendees;
    var s := status.value;
    var existing := First(db.attendees.rows, RsvpOf(eid, me));
    if existing.Some? {
      db.attendees := db.attendees.WithRows(Modify(db.attendees.rows, IdIs(existing.value.id), SetRsvp(s)));
    } else {
      db.attendees := db.attendees.Insert(Attendee(eid, me, s));
    }
    assert db.attendees == Upsert(before, AttendeeKey, (eid, me), SetRsvp(s), Attendee(eid, me, s));
    st := Ok;
  }

  /** Answering twice leaves the table as answering once with the second answer: the second
      RSVP overwrites the first. */
  lemma LastRsvpWins(t: Table<Attendee>, eid: nat, u: nat, s1: string, s2: string)
    requires t.Valid() && KeyUnique(t.rows, AttendeeKey)
    ensures RsvpRows(RsvpRows(t, eid, u, s1), eid, u, s2) == RsvpRows(t, eid, u, s2)
  {
    match First(t.rows, RsvpOf(eid, u))
    case None =>
      AnswerAgainAfterInsert(t, eid, u, s1, s2);
    case Some(x) =>
      AnswerAgainAfterUpdate(t, eid, u, s1, s2, x);
  }

  /** Upsert on a key some row already holds updates the first such row. */
  lemma UpsertAt(t: Table<Attendee>, eid: nat, u: nat, s: string, y: AttendeeRow)
    requires t.Valid() && KeyUnique(t.rows, AttendeeKey)
    requires First(t.rows, RsvpOf(eid, u)) == Some(y)
    ensures RsvpRows(t, eid, u, s) == t.WithRows(Modify(t.rows, IdIs(y.id), SetRsvp(s)))
  {
  }

  lemma AnswerAgainAfterInsert(t: Table<Attendee>, eid: nat, u: nat, s1: string, s2: string)
    requires t.Valid() && KeyUnique(t.rows, AttendeeKey)
    requires First(t.rows, RsvpOf(eid, u)).None?
    ensures RsvpRows(RsvpRows(t, eid, u, s1), eid, u, s2) == RsvpRows(t, eid, u, s2)
  {
    var r1 := RsvpRows(t, eid, u, s1);
    var n := Row(t.next, Attendee(eid, u, s1));
    assert r1 == t.Insert(Attendee(eid, u, s1));
    var y := First(r1.rows, RsvpOf(eid, u)).value;
    assert n in r1.rows;
    KeyDeterminesRow(r1.rows, AttendeeKey, y, n);
    UpsertAt(r1, eid, u, s2, y);
    ModifyLast(t.rows, t.next, Attendee(eid, u, s1), SetRsvp(s2));
  }

  lemma AnswerAgainAfterUpdate(t: Table<Attendee>, eid: nat, u: nat, s1: string, s2: string, x: AttendeeRow)
    requires t.Valid() && KeyUnique(t.rows, AttendeeKey)
    requires First(t.rows, RsvpOf(eid, u)) == Some(x)
    ensures RsvpRows(RsvpRows(t, eid, u, s1), eid, u, s2) == RsvpRows(t, eid, u, s2)
  {
    UpsertAt(t, eid, u, s1, x);
    UpsertAt(t, eid, u, s2, x);
    var r1 := RsvpRows(t, eid, u, s1);
    var x1 := Row(x.id, SetRsvp(s1)(x.val));
    assert x1 in r1.rows;
    var y := First(r1.rows, RsvpOf(eid, u)).value;
    KeyDeterminesRow(r1.rows, AttendeeKey, y, x1);
    UpsertAt(r1, eid, u, s2, y);
    ModifyTwice(t.rows, x.id, SetRsvp(s1), SetRsvp(s2), SetRsvp(s2));
  }

  /** Repeating an RSVP changes nothing. */
  lemma RsvpIdempotent(t: Table<Attendee>, eid: nat, u: nat, s: string)
    requires t.Valid() && KeyUnique(t.rows, AttendeeKey)
    ensures RsvpRows(RsvpRows(t, eid, u, s), eid, u, s) == RsvpRows(t, eid, u, s)
  {
    LastRsvpWins(t, eid, u, s, s);
  }

  // ---------------------------------------------------------------------------
  // GET / and GET /:id

  function StartOf(x: EventRow): int {
    x.val.startDate
  }

  /** `where: { group_id: groupId }` when a group is asked for, every event otherwise. */
  function InGroup(groupId: Option<nat>): EventRow -> bool {
    (x: EventRow) => groupId.None? || x.val.groupId == groupId
  }

  /** `new Date(event.start_date) >= now` */
  function StartsFrom(now: int): EventRow -> bool {
    (x: EventRow) => x.val.startDate >= now
  }

  datatype EventPaging = EventPaging(page: int, limit: int, total: nat)

  /** GET /: the page of events (of one group, when asked) in start order, cut by limit and
      offset in the store; with `upcoming` the page is then filtered to the events starting at
      or after `now`, keeping their order, and `total` counts what is returned. */
  function ListEvents(rows: seq<EventRow>, page: Option<int>, limit: Option<int>, groupId: Option<nat>, upcoming: bool, now: int)
    : (r: (seq<EventRow>, EventPaging))
    ensures forall x :: x in r.0 ==> x in rows && InGroup(groupId)(x)
    ensures upcoming ==> forall x :: x in r.0 ==> x.val.startDate >= now
    ensures SortedAsc(r.0, StartOf)
    ensures var p := PagingOf(page, limit);
      && r.1.page == p.page && r.1.limit == p.limit
      && |r.0| <= (if p.limit < 0 then 0 else p.limit)
      && (!upcoming && p.offset == 0 && p.limit >= Count(rows, InGroup(groupId)) ==>
            multiset(r.0) == multiset(Select(rows, InGroup(groupId))))
    ensures r.1.total == |r.0|
  {
    var p := PagingOf(page, limit);
    var matching := Select(rows, InGroup(groupId));
    var sorted := SortAsc(matching, StartOf);
    var w := Window(sorted, p.offset, p.limit);
    WindowMembers(sorted, p.offset, p.limit);
    WindowAll(sorted, matching, p.offset, p.limit);
    WindowAsc(sorted, StartOf, p.offset, p.limit);
    SameMembers(sorted, matching);
    var shown := if upcoming then Select(w, StartsFrom(now)) else w;
    SelectAsc(w, StartsFrom(now), StartOf);
    (shown, EventPaging(p.page, p.limit, |shown|))
  }

  /** The upcoming filter keeps exactly the events of the page that start at or after `now`. */
  lemma UpcomingExactly(rows: seq<EventRow>, page: Option<int>, limit: Option<int>, groupId: Option<nat>, now: int)
    ensures var all := ListEvents(rows, page, limit, groupId, false, now).0;
      forall x :: x in ListEvents(rows, page, limit, groupId, true, now).0 <==> x in all && x.val.startDate >= now
  {
  }

  /** Without the upcoming filter, a page of events is the window that the page selects of
      the matching events in start order. */
  lemma EventsPage(rows: seq<EventRow>, page: Option<int>, limit: Option<int>, groupId: Option<nat>, now: int)
    ensures var p := PagingOf(page, limit);
      ListEvents(rows, page, limit, groupId, false, now).0 == Window(SortAsc(Select(rows, InGroup(groupId)), StartOf), p.offset, p.limit)
  {
  }

  /** With a positive limit and no upcoming filter, every matching event is on one of the
      pages 1 to `ceil(count / limit)`. */
  lemma EveryEventOnSomePage(rows: seq<EventRow>, limit: int, groupId: Option<nat>, now: int, x: EventRow)
    requires limit > 0 && x in rows && InGroup(groupId)(x)
    ensures exists page :: 1 <= page <= TotalPages(Count(rows, InGroup(groupId)), limit)
                        && x in ListEvents(rows, Some(page), Some(limit), groupId, false, now).0
  {
    var matching := Select(rows, InGroup(groupId));
    var sorted := SortAsc(matching, StartOf);
    SameMembers(sorted, matching);
    assert |sorted| == |multiset(sorted)| == |matching|;
    OnSomePage(sorted, limit, x);
    var page :| 1 <= page <= TotalPages(|sorted|, limit) && x in Window(sorted, PagingOf(Some(page), Some(limit)).offset, limit);
    EventsPage(rows, Some(page), Some(limit), groupId, now);
    assert PagingOf(Some(page), Some(limit)).limit == limit;
    assert x in ListEvents(rows, Some(page), Some(limit), groupId, false, now).0;
  }

  /** GET /:id: the event with this id, or 404. */
  function GetEvent(rows: seq<EventRow>, eid: nat): (r: (Status, Option<EventRow>))
    ensures r.0 == NotFound <==> !HasId(rows, eid)
    ensures r.0 == Ok <==> HasId(rows, eid)
    ensures r.1.Some? <==> r.0 == Ok
    ensures r.1.Some? ==> r.1.value in rows && r.1.value.id == eid
  {
    match GetIn(rows, eid)
    case None => (NotFound, None)
    case Some(v) => (Ok, Some(Row(eid, v)))
  }

  // ---------------------------------------------------------------------------
  // GET /:id/attendees

  /** `where: { event_id }`, plus `status` when the query gives one. */
  function AttendeeFilter(eid: nat, status: Option<string>): AttendeeRow -> bool {
    (x: AttendeeRow) => x.val.eventId == eid && (Given(status) ==> x.val.status == status.value)
  }

  /** GET /:id/attendees: 404 for a missing event; otherwise its RSVPs, restricted to the
      given status when one is supplied, in the order they were made. */
  function Attendees(es: seq<EventRow>, ats: seq<AttendeeRow>, eid: nat, status: Option<string>): (r: (Status, seq<AttendeeRow>))
    ensures r.0 == NotFound <==> !HasId(es, eid)
    ensures r.0 != NotFound ==> r.0 == Ok
    ensures r.0 == NotFound ==> r.1 == []
    ensures HasId(es, eid) ==> forall x :: x in r.1 <==>
      x in ats && x.val.eventId == eid && (Given(status) ==> x.val.status == status.value)
    ensures IdsIncreasing(ats) ==> IdsIncreasing(r.1)
  {
    if !HasId(es, eid) then (NotFound, [])
    else (Ok, Select(ats, AttendeeFilter(eid, status)))
  }

  function StatusIs(s: string): AttendeeRow -> bool {
    (x: AttendeeRow) => x.val.status == s
  }

  /** Without a status filter every RSVP of the event is listed; with one, exactly those of
      the full list that carry that status. */
  lemma AttendeesByStatus(es: seq<EventRow>, ats: seq<AttendeeRow>, eid: nat, s: string)
    requires HasId(es, eid) && s != ""
    ensures var all := Attendees(es, ats, eid, None).1;
      Attendees(es, ats, eid, Some(s)).1 == Select(all, StatusIs(s))
  {
    SelectSelect(ats, AttendeeFilter(eid, None), StatusIs(s), AttendeeFilter(eid, Some(s)));
  }
}
