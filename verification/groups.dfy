/** Groups and their memberships: creation with the creator as owner, owner/admin edits,
    owner-only deletion, join, leave, role changes, member removal and the secret-group
    rule (api/routes/groups.js). */
module Groups {
  import opened Common
  import opened Tables
  import opened Store

  type GroupRow = Row<Group>
  type MemberRow = Row<Membership>

  function InGroup(g: nat): MemberRow -> bool {
    (x: MemberRow) => x.val.groupId == g
  }

  /** `where: { group_id: g, user_id: u }` */
  function MemberOf(g: nat, u: nat): MemberRow -> bool {
    (x: MemberRow) => x.val.groupId == g && x.val.userId == u
  }

  /** `where: { group_id: g, user_id: u, role: 'owner' }` */
  function OwnerRowOf(g: nat, u: nat): MemberRow -> bool {
    (x: MemberRow) => x.val.groupId == g && x.val.userId == u && x.val.role == OwnerRole
  }

  /** `membership[0]` of the membership query for `u` in `g`. */
  function MembershipOf(ms: seq<MemberRow>, g: nat, u: nat): (m: Option<MemberRow>)
    ensures m.Some? ==> m.value in ms && m.value.val.groupId == g && m.value.val.userId == u
    ensures m.None? <==> forall x :: x in ms ==> !(x.val.groupId == g && x.val.userId == u)
  {
    First(ms, MemberOf(g, u))
  }

  /** `['owner', 'admin'].includes(membership[0].role)` */
  predicate Manages(ms: seq<MemberRow>, g: nat, u: nat) {
    var m := MembershipOf(ms, g, u);
    m.Some? && (m.value.val.role == OwnerRole || m.value.val.role == AdminRole)
  }

  // ---------------------------------------------------------------------------
  // The invariant the routes keep

  function MemberKey(m: Membership): (nat, nat) {
    (m.groupId, m.userId)
  }

  /** At most one membership per (group, user). */
  ghost predicate OneMembershipEach(ms: seq<MemberRow>) {
    KeyUnique(ms, MemberKey)
  }

  function MemberCount(g: Group): int {
    g.memberCount
  }

  /** The invariant over the two tables. */
  ghost predicate Inv(gs: Table<Group>, ms: Table<Membership>) {
    && gs.Valid() && ms.Valid()
    && OneMembershipEach(ms.rows)
    && RefersBelow(ms.rows, InGroup, gs.next)
    && CountsAgree(gs.rows, MemberCount, ms.rows, InGroup)
  }

  ghost predicate Consistent(db: Db)
    reads db
  {
    Inv(db.groups, db.memberships)
  }

  /** With the invariant, `member_count` is never negative. */
  lemma CountNeverNegative(db: Db, x: GroupRow)
    requires Consistent(db) && x in db.groups.rows
    ensures x.val.memberCount >= 0
  {
  }

  // ---------------------------------------------------------------------------
  // Field updates

  function SetMemberCount(n: int): Group -> Group {
    (g: Group) => g.(memberCount := n)
  }

  function SetRoleTo(role: string): Membership -> Membership {
    (m: Membership) => m.(role := role)
  }

  /** The `updateData` of PUT /:id: each field is written only when the body supplies it, and
      a `null` description or cover clears the column. */
  function ApplyPatch(g: Group, name: Option<string>, description: Nullable<string>, privacy: Option<string>, coverUrl: Nullable<string>): (r: Group)
    ensures r.createdBy == g.createdBy && r.memberCount == g.memberCount && r.postCount == g.postCount
    ensures r.name == name.GetOr(g.name) && r.privacy == privacy.GetOr(g.privacy)
    ensures description.None? ==> r.description == g.description
    ensures description.Some? ==> r.description == description.value
    ensures coverUrl.None? ==> r.coverUrl == g.coverUrl
    ensures coverUrl.Some? ==> r.coverUrl == coverUrl.value
    ensures name.None? && description.None? && privacy.None? && coverUrl.None? ==> r == g
  {
    g.(name := name.GetOr(g.name), description := Over(description, g.description),
       privacy := privacy.GetOr(g.privacy), coverUrl := Over(coverUrl, g.coverUrl))
  }

  function Patch(name: Option<string>, description: Nullable<string>, privacy: Option<string>, coverUrl: Nullable<string>): Group -> Group {
    (g: Group) => ApplyPatch(g, name, description, privacy, coverUrl)
  }

  // ---------------------------------------------------------------------------
  // Lemmas the routes use to keep the invariant

  lemma CountPositive(ms: seq<MemberRow>, x: MemberRow)
    requires x in ms
    ensures Count(ms, InGroup(x.val.groupId)) >= 1
  {
    assert x in Select(ms, InGroup(x.val.groupId));
  }

  /** `update('groups', gid, { member_count: n })` */
  function WithMemberCount(gs: Table<Group>, gid: nat, n: int): Table<Group> {
    gs.WithRows(Modify(gs.rows, IdIs(gid), SetMemberCount(n)))
  }

  /** Adding a membership of group `gid` adds one to that group's count and no other. */
  lemma CountsAppendMember(ms: seq<MemberRow>, row: MemberRow)
    ensures forall h :: Count(ms + [row], InGroup(h)) == Count(ms, InGroup(h)) + (if h == row.val.groupId then 1 else 0)
  {
    forall h ensures Count(ms + [row], InGroup(h)) == Count(ms, InGroup(h)) + (if h == row.val.groupId then 1 else 0) {
      CountAppend(ms, row, InGroup(h));
    }
  }

  // ---------------------------------------------------------------------------
  // Each route's write keeps the invariant

  lemma CreateKeeps(gs: Table<Group>, ms: Table<Membership>, g: Group, me: nat)
    requires Inv(gs, ms) && g.memberCount == 1
    ensures Inv(gs.Insert(g), ms.Insert(Membership(gs.next, me, OwnerRole)))
    ensures Select(ms.Insert(Membership(gs.next, me, OwnerRole)).rows, InGroup(gs.next)) == [Row(ms.next, Membership(gs.next, me, OwnerRole))]
  {
    var gid := gs.next;
    var owner := Row(ms.next, Membership(gid, me, OwnerRole));
    var gs2 := gs.Insert(g);
    var ms2 := ms.Insert(owner.val);
    CountFresh(ms.rows, InGroup, gid);
    SelectAppend(ms.rows, [owner], InGroup(gid));
    assert Select(ms.rows, InGroup(gid)) == [];
    CountsAppendMember(ms.rows, owner);
    assert CountsAgree(gs2.rows, MemberCount, ms2.rows, InGroup) by {
      forall y | y in gs2.rows ensures MemberCount(y.val) == Count(ms2.rows, InGroup(y.id)) {
        if y != Row(gid, g) {
          var i :| 0 <= i < |gs2.rows| && gs2.rows[i] == y;
          assert y in gs.rows;
        }
      }
    }
    assert RefersBelow(ms2.rows, InGroup, gs2.next) by {
      forall x, h: nat | x in ms2.rows && InGroup(h)(x) ensures h < gs2.next {
        if x != owner {
          assert x in ms.rows;
        }
      }
    }
    forall x | x in ms.rows ensures !(x.val.groupId == gid && x.val.userId == me) {
      assert InGroup(x.val.groupId)(x);
    }
    UniqueAppend(ms.rows, owner, MemberKey);
  }

  lemma PatchKeeps(gs: Table<Group>, ms: Table<Membership>, gid: nat, f: Group -> Group)
    requires Inv(gs, ms)
    requires forall g :: f(g).memberCount == g.memberCount
    ensures Inv(gs.WithRows(Modify(gs.rows, IdIs(gid), f)), ms)
  {
    ModifyKeepsIds(gs.rows, IdIs(gid), f, gs.next);
    CountsAfterPatch(gs.rows, MemberCount, f, gid, ms.rows, InGroup);
  }

  lemma DeleteKeeps(gs: Table<Group>, ms: Table<Membership>, gid: nat)
    requires Inv(gs, ms)
    ensures Inv(gs.WithRows(Without(gs.rows, gid)), ms)
  {
    CountsAfterDelete(gs.rows, MemberCount, gid, ms.rows, InGroup);
  }

  lemma JoinKeeps(gs: Table<Group>, ms: Table<Membership>, gid: nat, g: Group, me: nat)
    requires Inv(gs, ms) && Row(gid, g) in gs.rows
    requires MembershipOf(ms.rows, gid, me).None?
    ensures Inv(WithMemberCount(gs, gid, g.memberCount + 1), ms.Insert(Membership(gid, me, MemberRole)))
    ensures Count(ms.Insert(Membership(gid, me, MemberRole)).rows, InGroup(gid)) == Count(ms.rows, InGroup(gid)) + 1
  {
    var row := Row(ms.next, Membership(gid, me, MemberRole));
    var ms2 := ms.Insert(row.val);
    var gs2 := WithMemberCount(gs, gid, g.memberCount + 1);
    assert ms2.rows == ms.rows + [row];
    assert gs2.Valid() by {
      ModifyKeepsIds(gs.rows, IdIs(gid), SetMemberCount(g.memberCount + 1), gs.next);
    }
    CountsAppendMember(ms.rows, row);
    assert CountsAgree(gs2.rows, MemberCount, ms2.rows, InGroup) by {
      CountsAfter(gs.rows, MemberCount, SetMemberCount(g.memberCount + 1), g.memberCount + 1, ms.rows, ms2.rows, InGroup, Row(gid, g));
    }
    assert OneMembershipEach(ms2.rows) by {
      UniqueAppend(ms.rows, row, MemberKey);
    }
    assert RefersBelow(ms2.rows, InGroup, gs2.next) by {
      var i :| 0 <= i < |gs.rows| && gs.rows[i] == Row(gid, g);
      RefersAppend(ms.rows, InGroup, gs.next, row);
    }
  }

  lemma RemoveKeeps(gs: Table<Group>, ms: Table<Membership>, gid: nat, g: Group, m: MemberRow)
    requires Inv(gs, ms) && Row(gid, g) in gs.rows
    requires m in ms.rows && m.val.groupId == gid
    ensures Inv(WithMemberCount(gs, gid, Max0(g.memberCount - 1)), ms.WithRows(Without(ms.rows, m.id)))
    ensures g.memberCount >= 1
    ensures Count(Without(ms.rows, m.id), InGroup(gid)) == Count(ms.rows, InGroup(gid)) - 1
  {
    CountPositive(ms.rows, m);
    forall h ensures Count(Without(ms.rows, m.id), InGroup(h)) == Count(ms.rows, InGroup(h)) - (if h == gid then 1 else 0) {
      CountWithout(ms.rows, m, InGroup(h));
    }
    UniqueWithout(ms.rows, m.id, MemberKey);
    RefersWithout(ms.rows, InGroup, gs.next, m.id);
    ModifyKeepsIds(gs.rows, IdIs(gid), SetMemberCount(Max0(g.memberCount - 1)), gs.next);
    CountsAfter(gs.rows, MemberCount, SetMemberCount(Max0(g.memberCount - 1)), Max0(g.memberCount - 1),
                ms.rows, Without(ms.rows, m.id), InGroup, Row(gid, g));
  }

  lemma RoleKeeps(gs: Table<Group>, ms: Table<Membership>, id: nat, role: string)
    requires Inv(gs, ms)
    ensures Inv(gs, ms.WithRows(Modify(ms.rows, IdIs(id), SetRoleTo(role))))
  {
    var ms2 := Modify(ms.rows, IdIs(id), SetRoleTo(role));
    ModifyKeepsIds(ms.rows, IdIs(id), SetRoleTo(role), ms.next);
    UniqueModify(ms.rows, IdIs(id), SetRoleTo(role), MemberKey);
    forall h ensures Count(ms2, InGroup(h)) == Count(ms.rows, InGroup(h)) {
      CountModify(ms.rows, IdIs(id), SetRoleTo(role), InGroup(h));
    }
    assert RefersBelow(ms2, InGroup, gs.next) by {
      forall x, h: nat | x in ms2 && InGroup(h)(x) ensures h < gs.next {
        var i :| 0 <= i < |ms2| && ms2[i] == x;
        assert InGroup(h)(ms.rows[i]);
        assert ms.rows[i] in ms.rows;
      }
    }
  }

  // ---------------------------------------------------------------------------
  // Routes

  /** POST /: a name is required; the group starts with one member, the creator, as owner. */
  method Create(db: Db, me: nat, name: Option<string>, description: Option<string>, privacy: Option<string>, coverUrl: Option<string>)
    returns (st: Status, gid: nat)
    requires Consistent(db)
    modifies db`groups, db`memberships
    ensures Consistent(db)
    ensures !Given(name) ==> st == BadRequest && db.groups == old(db.groups) && db.memberships == old(db.memberships)
    ensures Given(name) ==>
      && st == Created && gid == old(db.groups.next)
      && db.groups.rows == old(db.groups.rows) + [Row(gid, Group(name.value, OrNull(description), OrNull(coverUrl), OrElse(privacy, "public"), me, 1, 0))]
      && db.memberships.rows == old(db.memberships.rows) + [Row(old(db.memberships.next), Membership(gid, me, OwnerRole))]
      && Select(db.memberships.rows, InGroup(gid)) == [Row(old(db.memberships.next), Membership(gid, me, OwnerRole))]
  {
    if !Given(name) {
      return BadRequest, 0;
    }
    gid := db.groups.next;
    var group := Group(name.value, OrNull(description), OrNull(coverUrl), OrElse(privacy, "public"), me, 1, 0);
    CreateKeeps(db.groups, db.memberships, group, me);
    db.groups := db.groups.Insert(group);
    db.memberships := db.memberships.Insert(Membership(gid, me, OwnerRole));
    st := Created;
  }

  /** PUT /:id: only an owner or admin may edit, and only the supplied fields change. */
  method Update(db: Db, me: nat, gid: nat, name: Option<string>, description: Nullable<string>, privacy: Option<string>, coverUrl: Nullable<string>)
    returns (st: Status)
    requires Consistent(db)
    modifies db`groups
    ensures Consistent(db)
    ensures !HasId(old(db.groups.rows), gid) ==> st == NotFound
    ensures HasId(old(db.groups.rows), gid) && !Manages(db.memberships.rows, gid, me) ==> st == Forbidden
    ensures st != Ok ==> db.groups == old(db.groups)
    ensures HasId(old(db.groups.rows), gid) && Manages(db.memberships.rows, gid, me) ==>
      st == Ok && db.groups == old(db.groups).WithRows(Modify(old(db.groups.rows), IdIs(gid), Patch(name, description, privacy, coverUrl)))
  {
    var existing := db.groups.Get(gid);
    if existing.None? {
      return NotFound;
    }
    if !Manages(db.memberships.rows, gid, me) {
      return Forbidden;
    }
    var f := Patch(name, description, privacy, coverUrl);
    PatchKeeps(db.groups, db.memberships, gid, f);
    db.groups := db.groups.WithRows(Modify(db.groups.rows, IdIs(gid), f));
    st := Ok;
  }

  /** DELETE /:id: only a member with the owner role may delete the group. */
  method Delete(db: Db, me: nat, gid: nat) returns (st: Status)
    requires Consistent(db)
    modifies db`groups
    ensures Consistent(db)
    ensures !HasId(old(db.groups.rows), gid) ==> st == NotFound
    ensures HasId(old(db.groups.rows), gid) && First(db.memberships.rows, OwnerRowOf(gid, me)).None? ==> st == Forbidden
    ensures st != Ok ==> db.groups == old(db.groups)
    ensures HasId(old(db.groups.rows), gid) && First(db.memberships.rows, OwnerRowOf(gid, me)).Some? ==>
      st == Ok && db.groups == old(db.groups).WithRows(Without(old(db.groups.rows), gid))
  {
    var existing := db.groups.Get(gid);
    if existing.None? {
      return NotFound;
    }
    var owner := First(db.memberships.rows, OwnerRowOf(gid, me));
    if owner.None? {
      return Forbidden;
    }
    DeleteKeeps(db.groups, db.memberships, gid);
    db.groups := db.groups.WithRows(Without(db.groups.rows, gid));
    st := Ok;
  }

  /** The status of a route and the two tables after it. */
  datatype Step = Step(st: Status, groups: Table<Group>, memberships: Table<Membership>)

  // ---------------------------------------------------------------------------
  // POST /:id/join

  /** Secret groups (403) and existing members (400) are turned away; otherwise one member row
      is added and `member_count` goes up by one. */
  function JoinStep(gs: Table<Group>, ms: Table<Membership>, gid: nat, me: nat): (r: Step)
    requires Inv(gs, ms)
    ensures Inv(r.groups, r.memberships)
    ensures r.st != Ok ==> r.groups == gs && r.memberships == ms
  {
    match gs.Get(gid)
    case None => Step(NotFound, gs, ms)
    case Some(g) =>
      if g.privacy == "secret" then Step(Forbidden, gs, ms)
      else if MembershipOf(ms.rows, gid, me).Some? then Step(BadRequest, gs, ms)
      else
        JoinKeeps(gs, ms, gid, g, me);
        Step(Ok, WithMemberCount(gs, gid, g.memberCount + 1), ms.Insert(Membership(gid, me, MemberRole)))
  }

  /** The checks of a join, in order. */
  lemma JoinChecks(gs: Table<Group>, ms: Table<Membership>, gid: nat, me: nat)
    requires Inv(gs, ms)
    ensures var r := JoinStep(gs, ms, gid, me);
      && (r.st == NotFound <==> !HasId(gs.rows, gid))
      && (r.st == Forbidden <==> HasId(gs.rows, gid) && GetIn(gs.rows, gid).value.privacy == "secret")
      && (r.st == BadRequest <==> (HasId(gs.rows, gid) && GetIn(gs.rows, gid).value.privacy != "secret"
                                   && MembershipOf(ms.rows, gid, me).Some?))
      && (r.st == Ok <==> (HasId(gs.rows, gid) && GetIn(gs.rows, gid).value.privacy != "secret"
                           && MembershipOf(ms.rows, gid, me).None?))
  {
  }

  /** A successful join adds exactly the new member row, and the group's stored count is the new
      number of its members. */
  lemma JoinAddsMember(gs: Table<Group>, ms: Table<Membership>, gid: nat, me: nat, g: Group)
    requires Inv(gs, ms) && gs.Get(gid) == Some(g) && g.privacy != "secret"
    requires MembershipOf(ms.rows, gid, me).None?
    ensures var r := JoinStep(gs, ms, gid, me);
      && r.st == Ok
      && r.memberships.rows == ms.rows + [Row(ms.next, Membership(gid, me, MemberRole))]
      && Count(r.memberships.rows, InGroup(gid)) == Count(ms.rows, InGroup(gid)) + 1
      && r.groups.Get(gid) == Some(g.(memberCount := g.memberCount + 1))
      && r.groups.Get(gid).value.memberCount == Count(r.memberships.rows, InGroup(gid))
      && (forall h :: h != gid ==> r.groups.Get(h) == gs.Get(h))
  {
    var ms2 := ms.Insert(Membership(gid, me, MemberRole));
    var gs2 := WithMemberCount(gs, gid, g.memberCount + 1);
    assert JoinStep(gs, ms, gid, me) == Step(Ok, gs2, ms2);
    JoinKeeps(gs, ms, gid, g, me);
    WithMemberCountAt(gs, gid, g, g.memberCount + 1);
    CountsOfMember(gs2, ms2, gid);
  }

  method Join(db: Db, me: nat, gid: nat) returns (st: Status)
    requires Consistent(db)
    modifies db`groups, db`memberships
    ensures Consistent(db)
    ensures Step(st, db.groups, db.memberships) == JoinStep(old(db.groups), old(db.memberships), gid, me)
  {
    var group := db.groups.Get(gid);
    if group.None? {
      return NotFound;
    }
    if group.value.privacy == "secret" {
      return Forbidden;
    }
    var existing := MembershipOf(db.memberships.rows, gid, me);
    if existing.Some? {
      return BadRequest;
    }
    JoinKeeps(db.groups, db.memberships, gid, group.value, me);
    assert JoinStep(db.groups, db.memberships, gid, me)
      == Step(Ok, WithMemberCount(db.groups, gid, group.value.memberCount + 1), db.memberships.Insert(Membership(gid, me, MemberRole)));
    db.memberships := db.memberships.Insert(Membership(gid, me, MemberRole));
    db.groups := WithMemberCount(db.groups, gid, group.value.memberCount + 1);
    st := Ok;
  }

  /** Under the invariant, the stored count of an existing group is the number of its members. */
  lemma CountsOfMember(gs: Table<Group>, ms: Table<Membership>, gid: nat)
    requires Inv(gs, ms) && HasId(gs.rows, gid)
    ensures GetIn(gs.rows, gid).value.memberCount == Count(ms.rows, InGroup(gid))
  {
    assert Row(gid, GetIn(gs.rows, gid).value) in gs.rows;
  }

  // ---------------------------------------------------------------------------
  // POST /:id/leave and DELETE /:id/members/:userId share their last step

  /** Delete the membership `m`, then store `max(0, count - 1)` as the group's count. */
  function RemoveStep(gs: Table<Group>, ms: Table<Membership>, gid: nat, g: Group, m: MemberRow): (r: Step)
    requires Inv(gs, ms) && Row(gid, g) in gs.rows
    requires m in ms.rows && m.val.groupId == gid
    ensures Inv(r.groups, r.memberships)
    ensures r.st == Ok
    ensures r.memberships.rows == Without(ms.rows, m.id) && |r.memberships.rows| == |ms.rows| - 1
    ensures g.memberCount >= 1
    ensures r.groups.Get(gid) == Some(g.(memberCount := g.memberCount - 1))
    ensures forall h :: h != gid ==> r.groups.Get(h) == gs.Get(h)
  {
    var gs2 := WithMemberCount(gs, gid, Max0(g.memberCount - 1));
    var ms2 := ms.WithRows(Without(ms.rows, m.id));
    assert Inv(gs2, ms2) && g.memberCount >= 1 && |ms2.rows| == |ms.rows| - 1 by {
      RemoveKeeps(gs, ms, gid, g, m);
    }
    assert Max0(g.memberCount - 1) == g.memberCount - 1;
    WithMemberCountAt(gs, gid, g, Max0(g.memberCount - 1));
    Step(Ok, gs2, ms2)
  }

  method RemoveMembership(db: Db, gid: nat, g: Group, m: MemberRow) returns (st: Status)
    requires Consistent(db)
    requires Row(gid, g) in db.groups.rows && m in db.memberships.rows && m.val.groupId == gid
    modifies db`groups, db`memberships
    ensures Consistent(db)
    ensures Step(st, db.groups, db.memberships) == RemoveStep(old(db.groups), old(db.memberships), gid, g, m)
  {
    RemoveKeeps(db.groups, db.memberships, gid, g, m);
    db.memberships := db.memberships.WithRows(Without(db.memberships.rows, m.id));
    db.groups := WithMemberCount(db.groups, gid, Max0(g.memberCount - 1));
    st := Ok;
  }

  /** Non-members (400) and the owner (400) cannot leave; anyone else's membership is removed. */
  function LeaveStep(gs: Table<Group>, ms: Table<Membership>, gid: nat, me: nat): (r: Step)
    requires Inv(gs, ms)
    ensures Inv(r.groups, r.memberships)
    ensures r.st != Ok ==> r.groups == gs && r.memberships == ms
  {
    match gs.Get(gid)
    case None => Step(NotFound, gs, ms)
    case Some(g) =>
      match MembershipOf(ms.rows, gid, me)
      case None => Step(BadRequest, gs, ms)
      case Some(m) =>
        if m.val.role == OwnerRole then Step(BadRequest, gs, ms)
        else RemoveStep(gs, ms, gid, g, m)
  }

  /** The checks of a leave, in order; the owner can never leave. */
  lemma LeaveChecks(gs: Table<Group>, ms: Table<Membership>, gid: nat, me: nat)
    requires Inv(gs, ms)
    ensures var r := LeaveStep(gs, ms, gid, me);
      && (r.st == NotFound <==> !HasId(gs.rows, gid))
      && (r.st == BadRequest <==> (HasId(gs.rows, gid)
           && (MembershipOf(ms.rows, gid, me).None? || MembershipOf(ms.rows, gid, me).value.val.role == OwnerRole)))
      && (r.st == Ok ==> MembershipOf(ms.rows, gid, me).Some? && MembershipOf(ms.rows, gid, me).value.val.role != OwnerRole)
      && (r.st == Ok || r.st == NotFound || r.st == BadRequest)
  {
  }

  /** A leave that passes the checks is the removal of the leaver's own membership. */
  lemma LeaveRemovesMember(gs: Table<Group>, ms: Table<Membership>, gid: nat, me: nat, g: Group, m: MemberRow)
    requires Inv(gs, ms) && gs.Get(gid) == Some(g)
    requires MembershipOf(ms.rows, gid, me) == Some(m) && m.val.role != OwnerRole
    ensures LeaveStep(gs, ms, gid, me) == RemoveStep(gs, ms, gid, g, m)
  {
  }

  /** Storing count `n` for group `gid` changes that group's count and nothing else. */
  lemma WithMemberCountAt(gs: Table<Group>, gid: nat, g: Group, n: int)
    requires gs.Valid() && Row(gid, g) in gs.rows
    ensures WithMemberCount(gs, gid, n).Get(gid) == Some(g.(memberCount := n))
    ensures forall h :: h != gid ==> WithMemberCount(gs, gid, n).Get(h) == gs.Get(h)
  {
    ModifyOne(gs.rows, gid, SetMemberCount(n), g);
  }

  method Leave(db: Db, me: nat, gid: nat) returns (st: Status)
    requires Consistent(db)
    modifies db`groups, db`memberships
    ensures Consistent(db)
    ensures Step(st, db.groups, db.memberships) == LeaveStep(old(db.groups), old(db.memberships), gid, me)
  {
    var group := db.groups.Get(gid);
    if group.None? {
      return NotFound;
    }
    var membership := MembershipOf(db.memberships.rows, gid, me);
    if membership.None? {
      return BadRequest;
    }
    if membership.value.val.role == OwnerRole {
      return BadRequest;
    }
    assert LeaveStep(db.groups, db.memberships, gid, me) == RemoveStep(db.groups, db.memberships, gid, group.value, membership.value);
    st := RemoveMembership(db, gid, group.value, membership.value);
  }

  // ---------------------------------------------------------------------------
  // PUT /:id/members/:userId/role

  predicate IsRole(role: Option<string>) {
    role.Some? && (role.value == OwnerRole || role.value == AdminRole || role.value == MemberRole)
  }

  /** The role is validated before any lookup (400); the group must exist (404); only an owner
      or admin may change roles (403); the target must be a member (404). */
  function SetRoleStep(gs: Table<Group>, ms: Table<Membership>, gid: nat, me: nat, target: nat, role: Option<string>): (r: Step)
    requires Inv(gs, ms)
    ensures Inv(r.groups, r.memberships)
    ensures r.groups == gs
    ensures r.st != Ok ==> r.memberships == ms
  {
    if !IsRole(role) then Step(BadRequest, gs, ms)
    else if gs.Get(gid).None? then Step(NotFound, gs, ms)
    else if !Manages(ms.rows, gid, me) then Step(Forbidden, gs, ms)
    else
      match MembershipOf(ms.rows, gid, target)
      case None => Step(NotFound, gs, ms)
      case Some(t) =>
        RoleKeeps(gs, ms, t.id, role.value);
        Step(Ok, gs, ms.WithRows(Modify(ms.rows, IdIs(t.id), SetRoleTo(role.value))))
  }

  lemma SetRoleChecks(gs: Table<Group>, ms: Table<Membership>, gid: nat, me: nat, target: nat, role: Option<string>)
    requires Inv(gs, ms)
    ensures var r := SetRoleStep(gs, ms, gid, me, target, role);
      && (!IsRole(role) ==> r.st == BadRequest)
      && (IsRole(role) && !HasId(gs.rows, gid) ==> r.st == NotFound)
      && (IsRole(role) && HasId(gs.rows, gid) && !Manages(ms.rows, gid, me) ==> r.st == Forbidden)
      && (r.st == Ok <==> (IsRole(role) && HasId(gs.rows, gid) && Manages(ms.rows, gid, me)
                           && MembershipOf(ms.rows, gid, target).Some?))
  {
  }

  /** A successful role change rewrites the target's role and nothing else: every membership
      keeps its id, group and user, and every other membership keeps its role. */
  lemma SetRoleOnlyTarget(gs: Table<Group>, ms: Table<Membership>, gid: nat, me: nat, target: nat, role: Option<string>, t: MemberRow)
    requires Inv(gs, ms) && IsRole(role) && HasId(gs.rows, gid) && Manages(ms.rows, gid, me)
    requires MembershipOf(ms.rows, gid, target) == Some(t)
    ensures var r := SetRoleStep(gs, ms, gid, me, target, role);
      && r.st == Ok
      && |r.memberships.rows| == |ms.rows|
      && (forall i :: 0 <= i < |ms.rows| ==>
            (r.memberships.rows[i].id == ms.rows[i].id && MemberKey(r.memberships.rows[i].val) == MemberKey(ms.rows[i].val)))
      && (forall i :: 0 <= i < |ms.rows| && ms.rows[i].id != t.id ==> r.memberships.rows[i] == ms.rows[i])
      && Row(t.id, Membership(gid, target, role.value)) in r.memberships.rows
  {
    assert SetRoleStep(gs, ms, gid, me, target, role)
      == Step(Ok, gs, ms.WithRows(Modify(ms.rows, IdIs(t.id), SetRoleTo(role.value))));
    RoleRowsOnlyTarget(ms.rows, t, role.value);
  }

  /** Rewriting one membership's role keeps every row's id, group and user, and every other row. */
  lemma RoleRowsOnlyTarget(rows: seq<MemberRow>, t: MemberRow, role: string)
    requires t in rows
    ensures var r := Modify(rows, IdIs(t.id), SetRoleTo(role));
      && |r| == |rows|
      && (forall i :: 0 <= i < |rows| ==> (r[i].id == rows[i].id && MemberKey(r[i].val) == MemberKey(rows[i].val)))
      && (forall i :: 0 <= i < |rows| && rows[i].id != t.id ==> r[i] == rows[i])
      && Row(t.id, t.val.(role := role)) in r
  {
    var r := Modify(rows, IdIs(t.id), SetRoleTo(role));
    ModifyAt(rows, t.id, SetRoleTo(role));
    forall i | 0 <= i < |rows|
      ensures MemberKey(r[i].val) == MemberKey(rows[i].val)
    {
      assert SetRoleTo(role)(rows[i].val) == rows[i].val.(role := role);
    }
    var i :| 0 <= i < |rows| && rows[i] == t;
    assert r[i] == Row(t.id, SetRoleTo(role)(t.val));
  }

  /** Applies the role change to the store. */
  method SetRole(db: Db, me: nat, gid: nat, target: nat, role: Option<string>) returns (st: Status)
    requires Consistent(db)
    modifies db`memberships
    ensures Consistent(db)
    ensures Step(st, db.groups, db.memberships) == SetRoleStep(db.groups, old(db.memberships), gid, me, target, role)
  {
    var r := SetRoleStep(db.groups, db.memberships, gid, me, target, role);
    db.memberships := r.memberships;
    st := r.st;
  }

  // ---------------------------------------------------------------------------
  // DELETE /:id/members/:userId

  /** Only an owner or admin may remove (403), the target must be a member (404), and the owner
      is never removed (400). */
  function RemoveMemberStep(gs: Table<Group>, ms: Table<Membership>, gid: nat, me: nat, target: nat): (r: Step)
    requires Inv(gs, ms)
    ensures Inv(r.groups, r.memberships)
    ensures r.st != Ok ==> r.groups == gs && r.memberships == ms
  {
    match gs.Get(gid)
    case None => Step(NotFound, gs, ms)
    case Some(g) =>
      if !Manages(ms.rows, gid, me) then Step(Forbidden, gs, ms)
      else
        match MembershipOf(ms.rows, gid, target)
        case None => Step(NotFound, gs, ms)
        case Some(t) =>
          if t.val.role == OwnerRole then Step(BadRequest, gs, ms)
          else RemoveStep(gs, ms, gid, g, t)
  }

  lemma RemoveMemberChecks(gs: Table<Group>, ms: Table<Membership>, gid: nat, me: nat, target: nat)
    requires Inv(gs, ms)
    ensures var r := RemoveMemberStep(gs, ms, gid, me, target);
      && (!HasId(gs.rows, gid) ==> r.st == NotFound)
      && (HasId(gs.rows, gid) && !Manages(ms.rows, gid, me) ==> r.st == Forbidden)
      && (HasId(gs.rows, gid) && Manages(ms.rows, gid, me) && MembershipOf(ms.rows, gid, target).None? ==> r.st == NotFound)
      && (r.st == Ok <==> (HasId(gs.rows, gid) && Manages(ms.rows, gid, me) && MembershipOf(ms.rows, gid, target).Some?
                           && MembershipOf(ms.rows, gid, target).value.val.role != OwnerRole))
  {
  }

  /** A removal that passes the checks deletes the target's membership, and an owner is never
      removed: every owner membership is still there afterwards. */
  lemma RemoveMemberKeepsOwners(gs: Table<Group>, ms: Table<Membership>, gid: nat, me: nat, target: nat, g: Group, t: MemberRow)
    requires Inv(gs, ms) && gs.Get(gid) == Some(g) && Manages(ms.rows, gid, me)
    requires MembershipOf(ms.rows, gid, target) == Some(t) && t.val.role != OwnerRole
    ensures RemoveMemberStep(gs, ms, gid, me, target) == RemoveStep(gs, ms, gid, g, t)
    ensures forall x :: x in ms.rows && x.val.role == OwnerRole ==> x in RemoveMemberStep(gs, ms, gid, me, target).memberships.rows
  {
    var r := RemoveStep(gs, ms, gid, g, t);
    assert RemoveMemberStep(gs, ms, gid, me, target) == r;
    forall x | x in ms.rows && x.val.role == OwnerRole
      ensures x in r.memberships.rows
    {
      DistinctIds(ms.rows, x, t);
    }
  }

  method RemoveMember(db: Db, me: nat, gid: nat, target: nat) returns (st: Status)
    requires Consistent(db)
    modifies db`groups, db`memberships
    ensures Consistent(db)
    ensures Step(st, db.groups, db.memberships) == RemoveMemberStep(old(db.groups), old(db.memberships), gid, me, target)
  {
    var group := db.groups.Get(gid);
    if group.None? {
      return NotFound;
    }
    if !Manages(db.memberships.rows, gid, me) {
      return Forbidden;
    }
    var targetRow := MembershipOf(db.memberships.rows, gid, target);
    if targetRow.None? {
      return NotFound;
    }
    if targetRow.value.val.role == OwnerRole {
      return BadRequest;
    }
    assert RemoveMemberStep(db.groups, db.memberships, gid, me, target)
      == RemoveStep(db.groups, db.memberships, gid, group.value, targetRow.value);
    st := RemoveMembership(db, gid, group.value, targetRow.value);
  }

  // ---------------------------------------------------------------------------
  // GET /:id visibility

  /** `isGroupMember(userId, memberships)`: `memberships.some(m => m.user_id === userId)`. */
  function IsGroupMember(u: nat, members: seq<MemberRow>): (b: bool)
    ensures b <==> exists x :: x in members && x.val.userId == u
  {
    if members == [] then false
    else if members[0].val.userId == u then true
    else
      assert forall x :: x in members[1..] ==> x in members;
      assert forall x :: x in members && x != members[0] ==> x in members[1..] by {
        assert members == [members[0]] + members[1..];
      }
      IsGroupMember(u, members[1..])
  }

  /** The status GET /:id answers for `viewer` (None when not signed in). */
  function ViewGroup(gs: seq<GroupRow>, ms: seq<MemberRow>, gid: nat, viewer: Option<nat>): (st: Status)
    ensures !HasId(gs, gid) ==> st == NotFound
    ensures HasId(gs, gid) ==> (st == Ok || st == Forbidden)
    ensures HasId(gs, gid) && GetIn(gs, gid).value.privacy != "secret" ==> st == Ok
    ensures HasId(gs, gid) && GetIn(gs, gid).value.privacy == "secret" ==>
      (st == Ok <==> viewer.Some? && exists x :: x in ms && x.val.groupId == gid && x.val.userId == viewer.value)
  {
    match GetIn(gs, gid)
    case None => NotFound
    case Some(g) =>
      var members := Select(ms, InGroup(gid));
      if g.privacy == "secret" && (viewer.None? || !IsGroupMember(viewer.value, members)) then Forbidden
      else Ok
  }
}
