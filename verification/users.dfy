/** Friendships between users: requests, accepting and rejecting them, the friends list,
    removal in both directions, blocking, and the private-profile rule (api/routes/users.js). */
module Users {
  import opened Common
  import opened Tables
  import opened Store

  type FriendRow = Row<Friendship>

  /** A friendship row is directed: it is keyed by the ordered pair (user, friend). */
  function PairKey(f: Friendship): (nat, nat) {
    (f.userId, f.friendId)
  }

  /** `where: { user_id: a, friend_id: b }` */
  function FromTo(a: nat, b: nat): FriendRow -> bool {
    KeyIs(PairKey, (a, b))
  }

  /** `where: { user_id: from, friend_id: to, status: 'pending' }` */
  function PendingFromTo(from: nat, to: nat): FriendRow -> bool {
    (x: FriendRow) => x.val.userId == from && x.val.friendId == to && x.val.status == Pending
  }

  lemma FromToMeans(a: nat, b: nat)
    ensures forall x :: FromTo(a, b)(x) <==> x.val.userId == a && x.val.friendId == b
  {
    forall x: FriendRow ensures FromTo(a, b)(x) <==> x.val.userId == a && x.val.friendId == b {
      assert FromTo(a, b)(x) == KeyIs(PairKey, (a, b))(x);
      assert KeyIs(PairKey, (a, b))(x) == (PairKey(x.val) == (a, b));
    }
  }

  /** Some row goes from `a` to `b`. */
  predicate Linked(rows: seq<FriendRow>, a: nat, b: nat) {
    exists x :: x in rows && x.val.userId == a && x.val.friendId == b
  }

  /** The invariant the routes keep: at most one row per ordered pair. */
  ghost predicate FriendsInv(t: Table<Friendship>) {
    t.Valid() && KeyUnique(t.rows, PairKey)
  }

  function SetStatus(s: FriendStatus): Friendship -> Friendship {
    (f: Friendship) => f.(status := s)
  }

  /** `{ status: 'accepted', accepted_at: now }` */
  function AcceptAt(now: int): Friendship -> Friendship {
    (f: Friendship) => f.(status := Accepted, acceptedAt := Some(now))
  }

  // ---------------------------------------------------------------------------
  // POST /:id/friend-request

  /** Asking oneself is refused before any lookup; an unknown user is 404; a second request
      for the same ordered pair is refused; otherwise one pending row is added. */
  method SendRequest(db: Db, me: nat, friendId: nat) returns (st: Status)
    requires FriendsInv(db.friendships)
    modifies db`friendships
    ensures FriendsInv(db.friendships)
    ensures me == friendId ==> st == BadRequest
    ensures me != friendId && !HasId(db.users.rows, friendId) ==> st == NotFound
    ensures me != friendId && HasId(db.users.rows, friendId) && Linked(old(db.friendships.rows), me, friendId) ==> st == BadRequest
    ensures st != Ok ==> db.friendships == old(db.friendships)
    ensures st == Ok <==> me != friendId && HasId(db.users.rows, friendId) && !Linked(old(db.friendships.rows), me, friendId)
    ensures st == Ok ==> db.friendships == old(db.friendships).Insert(Friendship(me, friendId, Pending, None))
  {
    if me == friendId {
      return BadRequest;
    }
    if db.users.Get(friendId).None? {
      return NotFound;
    }
    var existing := First(db.friendships.rows, FromTo(me, friendId));
    if existing.Some? {
      var x := existing.value;
      assert PairKey(x.val) == (me, friendId) by {
        assert FromTo(me, friendId)(x);
      }
      assert x in old(db.friendships.rows) && x.val.userId == me && x.val.friendId == friendId;
      return BadRequest;
    }
    UniqueAppend(db.friendships.rows, Row(db.friendships.next, Friendship(me, friendId, Pending, None)), PairKey);
    db.friendships := db.friendships.Insert(Friendship(me, friendId, Pending, None));
    st := Ok;
  }

  /** After a request is sent, the pair holds exactly one row, and it is pending. */
  lemma RequestLeavesOnePending(t: Table<Friendship>, me: nat, friendId: nat)
    requires FriendsInv(t) && !Linked(t.rows, me, friendId)
    ensures var r := t.Insert(Friendship(me, friendId, Pending, None)).rows;
      && Count(r, FromTo(me, friendId)) == 1
      && Select(r, FromTo(me, friendId)) == Select(r, PendingFromTo(me, friendId))
  {
    var row := Row(t.next, Friendship(me, friendId, Pending, None));
    var r := t.rows + [row];
    FromToMeans(me, friendId);
    forall x | x in t.rows ensures !FromTo(me, friendId)(x) && !PendingFromTo(me, friendId)(x) {
    }
    SelectNone(t.rows, FromTo(me, friendId));
    SelectNone(t.rows, PendingFromTo(me, friendId));
    SelectAppend(t.rows, [row], FromTo(me, friendId));
    SelectAppend(t.rows, [row], PendingFromTo(me, friendId));
    assert FromTo(me, friendId)(row) && PendingFromTo(me, friendId)(row);
    assert Select([row], FromTo(me, friendId)) == [row];
    assert Select([row], PendingFromTo(me, friendId)) == [row];
  }

  // ---------------------------------------------------------------------------
  // PUT /:id/friend-request

  predicate IsAction(action: Option<string>) {
    action.Some? && (action.value == "accept" || action.value == "reject")
  }

  /** The action is checked first; then there must be a pending row from `friendId` to `me`.
      Accepting stamps that row accepted; rejecting deletes it; no other row changes. */
  method Respond(db: Db, me: nat, friendId: nat, action: Option<string>, now: int) returns (st: Status)
    requires FriendsInv(db.friendships)
    modifies db`friendships
    ensures FriendsInv(db.friendships)
    ensures !IsAction(action) ==> st == BadRequest
    ensures IsAction(action) && First(old(db.friendships.rows), PendingFromTo(friendId, me)).None? ==> st == NotFound
    ensures st != Ok ==> db.friendships == old(db.friendships)
    ensures st == Ok ==>
      var x := First(old(db.friendships.rows), PendingFromTo(friendId, me)).value;
      && IsAction(action)
      && (action.value == "accept" ==> db.friendships == old(db.friendships).WithRows(Modify(old(db.friendships.rows), IdIs(x.id), AcceptAt(now))))
      && (action.value == "reject" ==> db.friendships == old(db.friendships).WithRows(Without(old(db.friendships.rows), x.id)))
    ensures IsAction(action) && First(old(db.friendships.rows), PendingFromTo(friendId, me)).Some? ==> st == Ok
  {
    if !IsAction(action) {
      return BadRequest;
    }
    var request := First(db.friendships.rows, PendingFromTo(friendId, me));
    if request.None? {
      return NotFound;
    }
    var id := request.value.id;
    if action.value == "accept" {
      ModifyKeepsIds(db.friendships.rows, IdIs(id), AcceptAt(now), db.friendships.next);
      UniqueModify(db.friendships.rows, IdIs(id), AcceptAt(now), PairKey);
      db.friendships := db.friendships.WithRows(Modify(db.friendships.rows, IdIs(id), AcceptAt(now)));
    } else {
      UniqueWithout(db.friendships.rows, id, PairKey);
      db.friendships := db.friendships.WithRows(Without(db.friendships.rows, id));
    }
    st := Ok;
  }

  /** Accepting moves the pair from pending to accepted: afterwards no pending row from
      `friendId` to `me` is left and an accepted one is there, stamped with the time. */
  lemma AcceptLeavesAccepted(t: Table<Friendship>, me: nat, friendId: nat, now: int)
    requires FriendsInv(t) && First(t.rows, PendingFromTo(friendId, me)).Some?
    ensures var x := First(t.rows, PendingFromTo(friendId, me)).value;
      var r := Modify(t.rows, IdIs(x.id), AcceptAt(now));
      && First(r, PendingFromTo(friendId, me)).None?
      && Row(x.id, Friendship(friendId, me, Accepted, Some(now))) in r
  {
    var x := First(t.rows, PendingFromTo(friendId, me)).value;
    var r := Modify(t.rows, IdIs(x.id), AcceptAt(now));
    var i :| 0 <= i < |t.rows| && t.rows[i] == x;
    assert r[i] == Row(x.id, Friendship(friendId, me, Accepted, Some(now)));
    forall y | y in r ensures !PendingFromTo(friendId, me)(y) {
      var j :| 0 <= j < |r| && r[j] == y;
      if t.rows[j].val.userId == friendId && t.rows[j].val.friendId == me {
        KeyDeterminesRow(t.rows, PairKey, t.rows[j], x);
      }
    }
  }

  /** Rejecting leaves no row at all from `friendId` to `me`. */
  lemma RejectLeavesNone(t: Table<Friendship>, me: nat, friendId: nat)
    requires FriendsInv(t) && First(t.rows, PendingFromTo(friendId, me)).Some?
    ensures var x := First(t.rows, PendingFromTo(friendId, me)).value;
      !Linked(Without(t.rows, x.id), friendId, me)
  {
    var x := First(t.rows, PendingFromTo(friendId, me)).value;
    forall y | y in Without(t.rows, x.id) ensures !(y.val.userId == friendId && y.val.friendId == me) {
      if y.val.userId == friendId && y.val.friendId == me {
        KeyDeterminesRow(t.rows, PairKey, y, x);
      }
    }
  }

  // ---------------------------------------------------------------------------
  // GET /:id/friends

  function AcceptedOf(u: nat): FriendRow -> bool {
    (x: FriendRow) => x.val.userId == u && x.val.status == Accepted
  }

  /** The answer for a user that exists: one page of the accepted rows whose `user_id` is `u`,
      in table order, at most `limit` of them; the status is 404 when the user does not exist. */
  function Friends(users: seq<Row<User>>, rows: seq<FriendRow>, u: nat, page: Option<int>, limit: Option<int>): (r: (Status, seq<FriendRow>))
    ensures r.0 == NotFound <==> !HasId(users, u)
    ensures r.0 != NotFound ==> r.0 == Ok
    ensures r.0 == NotFound ==> r.1 == []
    ensures forall x :: x in r.1 ==> x in rows && x.val.userId == u && x.val.status == Accepted
    ensures var p := PagingOf(page, limit);
      && |r.1| <= (if p.limit < 0 then 0 else p.limit)
      && (HasId(users, u) && p.offset == 0 && p.limit >= Count(rows, AcceptedOf(u)) ==> r.1 == Select(rows, AcceptedOf(u)))
  {
    if !HasId(users, u) then (NotFound, [])
    else
      var p := PagingOf(page, limit);
      var all := Select(rows, AcceptedOf(u));
      var w := Window(all, p.offset, p.limit);
      WindowMembers(all, p.offset, p.limit);
      (Ok, w)
  }

  /** The friends of a page are the window that the page selects of the user's accepted rows. */
  lemma FriendsPage(users: seq<Row<User>>, rows: seq<FriendRow>, u: nat, page: Option<int>, limit: Option<int>)
    requires HasId(users, u)
    ensures var p := PagingOf(page, limit);
      Friends(users, rows, u, page, limit).1 == Window(Select(rows, AcceptedOf(u)), p.offset, p.limit)
  {
  }

  /** With a positive limit, every accepted row from an existing user is on one of the pages 1
      to `ceil(count / limit)`. */
  lemma EveryFriendOnSomePage(users: seq<Row<User>>, rows: seq<FriendRow>, u: nat, limit: int, x: FriendRow)
    requires HasId(users, u) && limit > 0 && x in rows && x.val.userId == u && x.val.status == Accepted
    ensures exists page :: 1 <= page <= TotalPages(Count(rows, AcceptedOf(u)), limit)
                        && x in Friends(users, rows, u, Some(page), Some(limit)).1
  {
    var all := Select(rows, AcceptedOf(u));
    OnSomePage(all, limit, x);
    var page :| 1 <= page <= TotalPages(|all|, limit) && x in Window(all, PagingOf(Some(page), Some(limit)).offset, limit);
    FriendsPage(users, rows, u, Some(page), Some(limit));
  }

  // ---------------------------------------------------------------------------
  // DELETE /:id/friend

  /** The first row from `me` to `f` is deleted, then the first row from `f` to `me`. */
  function RemoveBoth(rows: seq<FriendRow>, me: nat, f: nat): (r: seq<FriendRow>)
    ensures forall x :: x in r ==> x in rows
    ensures IdsIncreasing(rows) ==> IdsIncreasing(r)
    ensures forall b: nat :: IdsBelow(rows, b) ==> IdsBelow(r, b)
    ensures KeyUnique(rows, PairKey) ==> KeyUnique(r, PairKey)
  {
    var first := First(rows, FromTo(me, f));
    var once := if first.Some? then Without(rows, first.value.id) else rows;
    var second := First(once, FromTo(f, me));
    var r := if second.Some? then Without(once, second.value.id) else once;
    assert KeyUnique(rows, PairKey) ==> KeyUnique(r, PairKey) by {
      if KeyUnique(rows, PairKey) {
        if first.Some? {
          UniqueWithout(rows, first.value.id, PairKey);
        }
        if second.Some? {
          UniqueWithout(once, second.value.id, PairKey);
        }
      }
    }
    r
  }

  /** With one row per ordered pair, removal leaves no row in either direction and keeps
      every row between other pairs. */
  lemma RemoveBothClears(rows: seq<FriendRow>, me: nat, f: nat)
    requires IdsIncreasing(rows) && KeyUnique(rows, PairKey)
    ensures !Linked(RemoveBoth(rows, me, f), me, f) && !Linked(RemoveBoth(rows, me, f), f, me)
    ensures forall x :: x in rows && PairKey(x.val) != (me, f) && PairKey(x.val) != (f, me) ==> x in RemoveBoth(rows, me, f)
  {
    var first := First(rows, FromTo(me, f));
    var once := if first.Some? then Without(rows, first.value.id) else rows;
    FromToMeans(me, f);
    FromToMeans(f, me);
    if first.Some? {
      UniqueWithoutKey(rows, PairKey, first.value);
      UniqueWithout(rows, first.value.id, PairKey);
    }
    assert forall y :: y in once ==> PairKey(y.val) != (me, f);
    var second := First(once, FromTo(f, me));
    if second.Some? {
      UniqueWithoutKey(once, PairKey, second.value);
    }
    forall x | x in rows && PairKey(x.val) != (me, f) && PairKey(x.val) != (f, me)
      ensures x in RemoveBoth(rows, me, f)
    {
      if first.Some? {
        DistinctIds(rows, x, first.value);
      }
      if second.Some? {
        DistinctIds(once, x, second.value);
      }
    }
  }

  /** Removal answers 200 whether or not any row existed. */
  method RemoveFriend(db: Db, me: nat, friendId: nat) returns (st: Status)
    requires FriendsInv(db.friendships)
    modifies db`friendships
    ensures FriendsInv(db.friendships)
    ensures st == Ok
    ensures db.friendships == old(db.friendships).WithRows(RemoveBoth(old(db.friendships.rows), me, friendId))
  {
    var rows := db.friendships.rows;
    var friendships := First(rows, FromTo(me, friendId));
    if friendships.Some? {
      rows := Without(rows, friendships.value.id);
    }
    var reverse := First(rows, FromTo(friendId, me));
    if reverse.Some? {
      rows := Without(rows, reverse.value.id);
    }
    assert rows == RemoveBoth(db.friendships.rows, me, friendId);
    db.friendships := db.friendships.WithRows(rows);
    st := Ok;
  }

  // ---------------------------------------------------------------------------
  // POST /:id/block

  /** The row from `me` to `u` becomes blocked, or a blocked row is inserted. */
  function BlockRows(t: Table<Friendship>, me: nat, u: nat): (r: Table<Friendship>)
    requires FriendsInv(t)
    ensures FriendsInv(r)
    ensures Count(r.rows, FromTo(me, u)) == 1
    ensures forall x :: x in r.rows && x.val.userId == me && x.val.friendId == u ==> x.val.status == Blocked
    ensures forall x :: x in r.rows && PairKey(x.val) != (me, u) <==> x in t.rows && PairKey(x.val) != (me, u)
  {
    var r := Upsert(t, PairKey, (me, u), SetStatus(Blocked), Friendship(me, u, Blocked, None));
    assert forall x :: x in r.rows && x.val.userId == me && x.val.friendId == u ==> x.val.status == Blocked by {
      forall x | x in r.rows && x.val.userId == me && x.val.friendId == u ensures x.val.status == Blocked {
        BlockedRowIsBlocked(t, me, u, x);
      }
    }
    r
  }

  lemma BlockedRowIsBlocked(t: Table<Friendship>, me: nat, u: nat, x: FriendRow)
    requires FriendsInv(t)
    requires x in Upsert(t, PairKey, (me, u), SetStatus(Blocked), Friendship(me, u, Blocked, None)).rows
    requires x.val.userId == me && x.val.friendId == u
    ensures x.val.status == Blocked
  {
    var r := Upsert(t, PairKey, (me, u), SetStatus(Blocked), Friendship(me, u, Blocked, None));
    match First(t.rows, KeyIs(PairKey, (me, u)))
    case None =>
      assert Row(t.next, Friendship(me, u, Blocked, None)) in r.rows;
      KeyDeterminesRow(r.rows, PairKey, x, Row(t.next, Friendship(me, u, Blocked, None)));
    case Some(y) =>
      assert Row(y.id, SetStatus(Blocked)(y.val)) in r.rows;
      KeyDeterminesRow(r.rows, PairKey, x, Row(y.id, SetStatus(Blocked)(y.val)));
  }

  /** Blocking oneself is refused; an unknown user is 404; otherwise the pair ends up with
      exactly one row, and it is blocked. */
  method Block(db: Db, me: nat, u: nat) returns (st: Status)
    requires FriendsInv(db.friendships)
    modifies db`friendships
    ensures FriendsInv(db.friendships)
    ensures me == u ==> st == BadRequest
    ensures me != u && !HasId(db.users.rows, u) ==> st == NotFound
    ensures st == Ok <==> me != u && HasId(db.users.rows, u)
    ensures st != Ok ==> db.friendships == old(db.friendships)
    ensures st == Ok ==> db.friendships == BlockRows(old(db.friendships), me, u)
  {
    if me == u {
      return BadRequest;
    }
    if db.users.Get(u).None? {
      return NotFound;
    }
    ghost var before := db.friendships;
    var existing := First(db.friendships.rows, FromTo(me, u));
    if existing.Some? {
      db.friendships := db.friendships.WithRows(Modify(db.friendships.rows, IdIs(existing.value.id), SetStatus(Blocked)));
    } else {
      db.friendships := db.friendships.Insert(Friendship(me, u, Blocked, None));
    }
    assert db.friendships == Upsert(before, PairKey, (me, u), SetStatus(Blocked), Friendship(me, u, Blocked, None));
    st := Ok;
  }

  // ---------------------------------------------------------------------------
  // GET /:id: the private-profile rule

  function ProfileOfUser(u: nat): Row<Profile> -> bool {
    (x: Row<Profile>) => x.val.userId == u
  }

  /** A private profile is hidden from everyone but its owner (and from anonymous viewers). */
  predicate HiddenFrom(profile: Option<Profile>, owner: nat, viewer: Option<nat>) {
    profile.Some? && profile.value.privacy == "private" && (viewer.None? || viewer.value != owner)
  }

  /** The status GET /:id answers: 404 for an unknown user, 403 when the user's (first)
      profile is private and the viewer is anonymous or someone else, 200 otherwise. */
  function ViewUser(users: seq<Row<User>>, profiles: seq<Row<Profile>>, u: nat, viewer: Option<nat>): (st: Status)
    ensures st == NotFound <==> !HasId(users, u)
    ensures st == Forbidden <==>
      && HasId(users, u) && viewer != Some(u)
      && First(profiles, ProfileOfUser(u)).Some? && First(profiles, ProfileOfUser(u)).value.val.privacy == "private"
    ensures st == NotFound || st == Forbidden || st == Ok
    ensures st == Forbidden ==> exists p :: p in profiles && p.val.userId == u && p.val.privacy == "private"
    ensures viewer == Some(u) ==> st != Forbidden
    ensures HasId(users, u) && (forall p :: p in profiles && p.val.userId == u ==> p.val.privacy != "private") ==> st == Ok
  {
    if !HasId(users, u) then NotFound
    else
      var profile := First(profiles, ProfileOfUser(u));
      if HiddenFrom(if profile.Some? then Some(profile.value.val) else None, u, viewer) then Forbidden
      else Ok
  }
}
