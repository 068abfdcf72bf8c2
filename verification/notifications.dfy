/** Notifications: every route sees only the requester's own rows. The list, the unread
    count, marking one or all as read, deleting one, and the internal `createNotification`
    (api/routes/notifications.js). */
module Notifications {
  import opened Common
  import opened Tables
  import opened Store
  import opened Sorting

  type NoteRow = Row<Notification>

  /** `.eq('recipient_id', me)` */
  function ToMe(me: nat): NoteRow -> bool {
    (x: NoteRow) => x.val.recipientId == me
  }

  /** `.eq('recipient_id', me).eq('is_read', false)` */
  function UnreadToMe(me: nat): NoteRow -> bool {
    (x: NoteRow) => x.val.recipientId == me && !x.val.isRead
  }

  /** `.eq('id', id).eq('recipient_id', me)` */
  function MineWithId(id: nat, me: nat): NoteRow -> bool {
    (x: NoteRow) => x.id == id && x.val.recipientId == me
  }

  function NotMineWithId(id: nat, me: nat): NoteRow -> bool {
    (x: NoteRow) => !(x.id == id && x.val.recipientId == me)
  }

  /** `update({ is_read: true })` */
  function MarkedRead(): Notification -> Notification {
    (n: Notification) => n.(isRead := true)
  }

  function NoteTime(x: NoteRow): int {
    x.val.createdAt
  }

  /** Notification `id` exists and is addressed to `me`. */
  predicate Addressed(rows: seq<NoteRow>, id: nat, me: nat) {
    HasId(rows, id) && GetIn(rows, id).value.recipientId == me
  }

  /** The query on id and recipient finds a row exactly when the notification is the
      requester's; on the requester's own notification it picks that row alone. */
  lemma AddressedQuery(rows: seq<NoteRow>, id: nat, me: nat)
    requires IdsIncreasing(rows)
    ensures First(rows, MineWithId(id, me)).Some? <==> Addressed(rows, id, me)
    ensures Addressed(rows, id, me) ==> forall i :: 0 <= i < |rows| ==> MineWithId(id, me)(rows[i]) == IdIs(id)(rows[i])
  {
    var q := First(rows, MineWithId(id, me));
    if q.Some? {
      IdDeterminesRow(rows, q.value, Row(id, GetIn(rows, id).value));
    }
    if Addressed(rows, id, me) {
      var n := GetIn(rows, id).value;
      assert MineWithId(id, me)(Row(id, n));
      forall i | 0 <= i < |rows| ensures MineWithId(id, me)(rows[i]) == IdIs(id)(rows[i]) {
        if rows[i].id == id {
          IdDeterminesRow(rows, rows[i], Row(id, n));
        }
      }
    }
  }

  // ---------------------------------------------------------------------------
  // GET / and GET /unread-count

  /** GET /: the requester's notifications, newest first. */
  function ListFor(rows: seq<NoteRow>, me: nat): (r: seq<NoteRow>)
    ensures forall x :: x in r <==> x in rows && x.val.recipientId == me
    ensures |r| == Count(rows, ToMe(me))
    ensures SortedDesc(r, NoteTime)
  {
    var mine := Select(rows, ToMe(me));
    var sorted := SortDesc(mine, NoteTime);
    SameMembers(sorted, mine);
    sorted
  }

  /** GET /unread-count: the requester's notifications not yet read. */
  function UnreadCount(rows: seq<NoteRow>, me: nat): (n: nat)
    ensures n <= Count(rows, ToMe(me))
    ensures n == 0 <==> forall x :: x in rows && x.val.recipientId == me ==> x.val.isRead
  {
    var unread := Select(rows, UnreadToMe(me));
    SelectSelect(rows, ToMe(me), (x: NoteRow) => !x.val.isRead, UnreadToMe(me));
    assert unread != [] ==> unread[0] in unread;
    |unread|
  }

  // ---------------------------------------------------------------------------
  // PUT /:id/read

  /** PUT /:id/read: the requester's own notification is marked read; for any other id the
      single-row update finds nothing and the route answers 500. */
  method MarkRead(db: Db, me: nat, id: nat) returns (st: Status)
    requires db.notifications.Valid()
    modifies db`notifications
    ensures db.notifications.Valid()
    ensures !Addressed(old(db.notifications.rows), id, me) ==> st == ServerError && db.notifications == old(db.notifications)
    ensures Addressed(old(db.notifications.rows), id, me) ==>
      st == Ok && db.notifications == old(db.notifications).WithRows(Modify(old(db.notifications.rows), IdIs(id), MarkedRead()))
  {
    var found := First(db.notifications.rows, MineWithId(id, me));
    AddressedQuery(db.notifications.rows, id, me);
    if found.None? {
      return ServerError;
    }
    ModifyExt(db.notifications.rows, MineWithId(id, me), IdIs(id), MarkedRead());
    ModifyKeepsIds(db.notifications.rows, MineWithId(id, me), MarkedRead(), db.notifications.next);
    db.notifications := db.notifications.WithRows(Modify(db.notifications.rows, MineWithId(id, me), MarkedRead()));
    st := Ok;
  }

  /** Marking one notification read changes that notification alone, and only its read flag. */
  lemma MarkReadOnlyThat(t: Table<Notification>, id: nat, n: Notification)
    requires t.Valid() && t.Get(id) == Some(n)
    ensures var r := Modify(t.rows, IdIs(id), MarkedRead());
      && GetIn(r, id) == Some(n.(isRead := true))
      && forall h :: h != id ==> GetIn(r, h) == GetIn(t.rows, h)
  {
    ModifyOne(t.rows, id, MarkedRead(), n);
  }

  // ---------------------------------------------------------------------------
  // PUT /mark-all-read

  /** The requester's unread notifications marked read; every row keeps its place and id. */
  function AllRead(rows: seq<NoteRow>, me: nat): (r: seq<NoteRow>)
    ensures |r| == |rows|
    ensures forall i :: 0 <= i < |rows| ==> r[i].id == rows[i].id
    ensures forall i :: 0 <= i < |rows| && rows[i].val.recipientId != me ==> r[i] == rows[i]
    ensures forall i :: 0 <= i < |rows| && rows[i].val.recipientId == me ==> r[i].val == rows[i].val.(isRead := true)
  {
    Modify(rows, UnreadToMe(me), MarkedRead())
  }

  /** PUT /mark-all-read */
  method MarkAllRead(db: Db, me: nat) returns (st: Status)
    requires db.notifications.Valid()
    modifies db`notifications
    ensures db.notifications.Valid()
    ensures st == Ok && db.notifications == old(db.notifications).WithRows(AllRead(old(db.notifications.rows), me))
  {
    ModifyKeepsIds(db.notifications.rows, UnreadToMe(me), MarkedRead(), db.notifications.next);
    db.notifications := db.notifications.WithRows(Modify(db.notifications.rows, UnreadToMe(me), MarkedRead()));
    st := Ok;
  }

  /** Afterwards the requester has nothing unread. */
  lemma AllReadLeavesNoUnread(rows: seq<NoteRow>, me: nat)
    ensures UnreadCount(AllRead(rows, me), me) == 0
  {
    var r := AllRead(rows, me);
    forall x | x in r && x.val.recipientId == me ensures x.val.isRead {
      var i :| 0 <= i < |r| && r[i] == x;
      assert rows[i].val.recipientId == me;
    }
  }

  /** Marking all read twice is the same as once. */
  lemma AllReadIdempotent(rows: seq<NoteRow>, me: nat)
    ensures AllRead(AllRead(rows, me), me) == AllRead(rows, me)
  {
    var r := AllRead(rows, me);
    forall i | 0 <= i < |r| ensures !UnreadToMe(me)(r[i]) {
      if rows[i].val.recipientId == me {
        assert r[i].val.isRead;
      }
    }
    ModifyNone(r, UnreadToMe(me), MarkedRead());
  }

  /** Other users' unread counts are untouched. */
  lemma AllReadKeepsOthers(rows: seq<NoteRow>, me: nat, other: nat)
    requires other != me
    ensures Select(AllRead(rows, me), ToMe(other)) == Select(rows, ToMe(other))
    ensures UnreadCount(AllRead(rows, me), other) == UnreadCount(rows, other)
  {
    var r := AllRead(rows, me);
    SelectMatching(r, rows, ToMe(other));
    SelectMatching(r, rows, UnreadToMe(other));
  }

  /** Two tables that agree row by row wherever either satisfies `p` select the same rows. */
  lemma {:induction false} SelectMatching(a: seq<NoteRow>, b: seq<NoteRow>, p: NoteRow -> bool)
    requires |a| == |b|
    requires forall i :: 0 <= i < |a| && (p(a[i]) || p(b[i])) ==> a[i] == b[i]
    requires forall i :: 0 <= i < |a| ==> p(a[i]) == p(b[i])
    ensures Select(a, p) == Select(b, p)
  {
    if a != [] {
      SelectMatching(a[1..], b[1..], p);
    }
  }

  // ---------------------------------------------------------------------------
  // DELETE /:id

  /** DELETE /:id: removes the notification when it is the requester's; for any other id
      nothing matches, nothing changes, and the route still answers 200. */
  method Delete(db: Db, me: nat, id: nat) returns (st: Status)
    requires db.notifications.Valid()
    modifies db`notifications
    ensures db.notifications.Valid()
    ensures st == Ok
    ensures !Addressed(old(db.notifications.rows), id, me) ==> db.notifications == old(db.notifications)
    ensures Addressed(old(db.notifications.rows), id, me) ==>
      db.notifications == old(db.notifications).WithRows(Without(old(db.notifications.rows), id))
  {
    DeleteMatches(db.notifications.rows, id, me);
    db.notifications := db.notifications.WithRows(Select(db.notifications.rows, NotMineWithId(id, me)));
    st := Ok;
  }

  /** The delete filter removes the row with this id when it is the requester's, and no row
      otherwise. */
  lemma DeleteMatches(rows: seq<NoteRow>, id: nat, me: nat)
    requires IdsIncreasing(rows)
    ensures Addressed(rows, id, me) ==> Select(rows, NotMineWithId(id, me)) == Without(rows, id)
    ensures !Addressed(rows, id, me) ==> Select(rows, NotMineWithId(id, me)) == rows
  {
    AddressedQuery(rows, id, me);
    if Addressed(rows, id, me) {
      forall x | x in rows ensures NotMineWithId(id, me)(x) == IdIsNot(id)(x) {
        var i :| 0 <= i < |rows| && rows[i] == x;
        assert MineWithId(id, me)(rows[i]) == IdIs(id)(rows[i]);
      }
      SelectExt(rows, NotMineWithId(id, me), IdIsNot(id));
    } else {
      SelectAll(rows, NotMineWithId(id, me));
    }
  }

  // ---------------------------------------------------------------------------
  // createNotification

  /** Inserts an unread notification and returns it; when the store refuses the insert
      (`fails`), nothing is written and the result is null instead of an error. */
  method CreateNotification(db: Db, recipientId: nat, senderId: nat, kind: string, content: string,
                            relatedId: Option<nat>, now: int, fails: bool)
    returns (r: Option<NoteRow>)
    requires db.notifications.Valid()
    modifies db`notifications
    ensures db.notifications.Valid()
    ensures fails ==> r.None? && db.notifications == old(db.notifications)
    ensures !fails ==>
      && r == Some(Row(old(db.notifications.next), Notification(recipientId, senderId, kind, content, relatedId, false, now)))
      && db.notifications.rows == old(db.notifications.rows) + [r.value]
  {
    if fails {
      return None;
    }
    var n := Notification(recipientId, senderId, kind, content, relatedId, false, now);
    r := Some(Row(db.notifications.next, n));
    db.notifications := db.notifications.Insert(n);
  }

  /** A new notification adds one to its recipient's unread count and to nobody else's. */
  lemma CreateCountsUnread(t: Table<Notification>, n: Notification, u: nat)
    requires !n.isRead
    ensures UnreadCount(t.Insert(n).rows, u) == UnreadCount(t.rows, u) + (if n.recipientId == u then 1 else 0)
  {
    SelectAppend(t.rows, [Row(t.next, n)], UnreadToMe(u));
  }
}
