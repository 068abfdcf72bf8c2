/** Direct messages between two users: the conversation list, a thread and its read marks,
    sending, the unread total and sender-only deletion (api/routes/messages.js). */
module Messages {
  import opened Common
  import opened Tables
  import opened Sorting
  import opened Store

  type MsgRow = Row<Message>

  // ---------------------------------------------------------------------------
  // Filters over the message table

  /** `m` went from `a` to `b` or from `b` to `a`. */
  predicate IsBetween(m: Message, a: nat, b: nat) {
    (m.senderId == a && m.receiverId == b) || (m.senderId == b && m.receiverId == a)
  }

  function Between(a: nat, b: nat): MsgRow -> bool {
    (x: MsgRow) => IsBetween(x.val, a, b)
  }

  /** `m` went from `from` to `to` and has not been read. */
  predicate IsUnreadFrom(m: Message, from: nat, to: nat) {
    m.senderId == from && m.receiverId == to && !m.isRead
  }

  function UnreadFrom(from: nat, to: nat): MsgRow -> bool {
    (x: MsgRow) => IsUnreadFrom(x.val, from, to)
  }

  function UnreadTo(to: nat): MsgRow -> bool {
    (x: MsgRow) => x.val.receiverId == to && !x.val.isRead
  }

  function CreatedAt(x: MsgRow): int {
    x.val.createdAt
  }

  // ---------------------------------------------------------------------------
  // GET /conversation/:userId (the select) and its symmetry

  /** The messages exchanged by `me` and `other`, oldest first. */
  function Thread(rows: seq<MsgRow>, me: nat, other: nat): (r: seq<MsgRow>)
    ensures forall x :: x in r <==> x in rows && IsBetween(x.val, me, other)
    ensures SortedAsc(r, CreatedAt)
    ensures multiset(r) == multiset(Select(rows, Between(me, other)))
  {
    var s := Select(rows, Between(me, other));
    var r := SortAsc(s, CreatedAt);
    SameMembers(r, s);
    r
  }

  /** Both users see the same thread. */
  lemma ThreadSymmetric(rows: seq<MsgRow>, a: nat, b: nat)
    ensures Thread(rows, a, b) == Thread(rows, b, a)
  {
    SelectExt(rows, Between(a, b), Between(b, a));
  }

  // ---------------------------------------------------------------------------
  // Read marks: the UPDATE of GET /conversation/:userId and PUT /read/:userId

  function SetRead(m: Message): Message {
    m.(isRead := true)
  }

  /** `UPDATE messages SET is_read = true WHERE sender_id = other AND receiver_id = me AND is_read = false` */
  function MarkRead(rows: seq<MsgRow>, other: nat, me: nat): (r: seq<MsgRow>)
    ensures |r| == |rows|
    ensures forall i :: 0 <= i < |rows| ==> r[i].id == rows[i].id
  {
    Modify(rows, UnreadFrom(other, me), SetRead)
  }

  /** Only the partner's unread messages to `me` change, and they change only in `isRead`. */
  lemma MarkReadOnlyThose(rows: seq<MsgRow>, other: nat, me: nat)
    ensures var r := MarkRead(rows, other, me);
      forall i :: 0 <= i < |rows| ==>
        if IsUnreadFrom(rows[i].val, other, me) then r[i].val == rows[i].val.(isRead := true)
        else r[i] == rows[i]
  {
  }

  /** After the update no unread message from the partner to `me` is left. */
  lemma {:induction false} MarkReadClears(rows: seq<MsgRow>, other: nat, me: nat)
    ensures Count(MarkRead(rows, other, me), UnreadFrom(other, me)) == 0
  {
    var r := MarkRead(rows, other, me);
    forall x | x in r ensures !UnreadFrom(other, me)(x) {
      var i :| 0 <= i < |r| && r[i] == x;
    }
    SelectNone(r, UnreadFrom(other, me));
  }

  /** A second call changes nothing. */
  lemma {:induction false} MarkReadIdempotent(rows: seq<MsgRow>, other: nat, me: nat)
    ensures MarkRead(MarkRead(rows, other, me), other, me) == MarkRead(rows, other, me)
  {
    var r := MarkRead(rows, other, me);
    var rr := MarkRead(r, other, me);
    assert forall i :: 0 <= i < |r| ==> rr[i] == r[i];
  }

  /** The user's unread total drops by exactly the partner's unread count. */
  lemma {:induction false} MarkReadUnreadTotal(rows: seq<MsgRow>, other: nat, me: nat)
    ensures UnreadTotal(MarkRead(rows, other, me), me) == UnreadTotal(rows, me) - Count(rows, UnreadFrom(other, me))
  {
    if rows != [] {
      MarkReadUnreadTotal(rows[1..], other, me);
      var r := MarkRead(rows, other, me);
      assert r == [r[0]] + MarkRead(rows[1..], other, me);
      assert r[1..] == MarkRead(rows[1..], other, me);
    }
  }

  // ---------------------------------------------------------------------------
  // GET /unread-count

  /** The messages addressed to `me` that are still unread. */
  function UnreadTotal(rows: seq<MsgRow>, me: nat): (n: nat)
    ensures n <= |rows|
    ensures n == 0 <==> forall x :: x in rows ==> x.val.receiverId != me || x.val.isRead
  {
    var s := Select(rows, UnreadTo(me));
    assert s != [] ==> s[0] in s;
    |s|
  }

  // ---------------------------------------------------------------------------
  // GET /conversations

  /** `CASE WHEN sender_id = me THEN receiver_id ELSE sender_id END` */
  function PartnerOf(m: Message, me: nat): nat {
    if m.senderId == me then m.receiverId else m.senderId
  }

  /** The partner expression over the rows `me` sent or received selects exactly the users
      `me` has exchanged a message with. */
  lemma PartnerOfBetween(m: Message, me: nat, p: nat)
    ensures ((m.senderId == me || m.receiverId == me) && PartnerOf(m, me) == p) <==> IsBetween(m, me, p)
  {
  }

  /** `me` and `p` have exchanged at least one message. */
  predicate Talked(rows: seq<MsgRow>, me: nat, p: nat) {
    exists x :: x in rows && IsBetween(x.val, me, p)
  }

  /** The distinct conversation partners of `me`. */
  function Partners(rows: seq<MsgRow>, me: nat): (ps: seq<nat>)
    ensures forall p :: p in ps <==> Talked(rows, me, p)
    ensures forall i, j :: 0 <= i < j < |ps| ==> ps[i] != ps[j]
  {
    if rows == [] then []
    else
      var tail := Partners(rows[1..], me);
      var m := rows[0].val;
      assert forall x :: x in rows <==> x == rows[0] || x in rows[1..] by {
        assert rows == [rows[0]] + rows[1..];
      }
      PartnerOfBetween(m, me, PartnerOf(m, me));
      forall p ensures IsBetween(m, me, p) ==> p == PartnerOf(m, me) {
        PartnerOfBetween(m, me, p);
      }
      if (m.senderId == me || m.receiverId == me) && PartnerOf(m, me) !in tail then [PartnerOf(m, me)] + tail
      else tail
  }

  /** One entry of the conversation list. */
  datatype Conversation = Conversation(partner: nat, lastMessage: string, lastMessageTime: int, unreadCount: nat)

  function LastTime(c: Conversation): int {
    c.lastMessageTime
  }

  /** `ORDER BY created_at DESC LIMIT 1` over some messages. */
  function Latest(s: seq<MsgRow>): (r: Option<MsgRow>)
    ensures r.None? <==> s == []
    ensures r.Some? ==> r.value in s && forall x :: x in s ==> CreatedAt(x) <= CreatedAt(r.value)
  {
    var sorted := SortDesc(s, CreatedAt);
    if sorted == [] then None
    else
      assert sorted[0] in multiset(sorted);
      assert forall x :: x in s ==> x in multiset(sorted);
      Some(sorted[0])
  }

  /** The conversation entry for partner `p`: the last message and its time come from the single
      most recent message between the two, and the unread count is the partner's unread messages to `me`. */
  function Summary(rows: seq<MsgRow>, me: nat, p: nat): (c: Conversation)
    ensures c.partner == p
  {
    var unread := Count(rows, UnreadFrom(p, me));
    match Latest(Select(rows, Between(me, p)))
    case Some(x) => Conversation(p, x.val.content, x.val.createdAt, unread)
    case None => Conversation(p, "", 0, unread)
  }

  /** The conversation list of `me`, latest conversation first. */
  function Conversations(rows: seq<MsgRow>, me: nat): (cs: seq<Conversation>)
    ensures SortedDesc(cs, LastTime)
    ensures |cs| == |Partners(rows, me)|
    ensures forall c :: c in cs ==> c == Summary(rows, me, c.partner)
    ensures forall p :: Listed(cs, p) <==> Talked(rows, me, p)
  {
    var ps := Partners(rows, me);
    var summaries := seq(|ps|, i requires 0 <= i < |ps| => Summary(rows, me, ps[i]));
    var cs := SortDesc(summaries, LastTime);
    SameMembers(cs, summaries);
    SummariesCover(rows, me, ps, summaries);
    cs
  }

  /** One summary per partner: each is the summary of a partner, and every partner has one. */
  lemma SummariesCover(rows: seq<MsgRow>, me: nat, ps: seq<nat>, summaries: seq<Conversation>)
    requires ps == Partners(rows, me)
    requires |summaries| == |ps| && forall i :: 0 <= i < |ps| ==> summaries[i] == Summary(rows, me, ps[i])
    ensures forall c :: c in summaries ==> c == Summary(rows, me, c.partner) && Talked(rows, me, c.partner)
    ensures forall p :: Talked(rows, me, p) ==> Listed(summaries, p)
  {
    forall c | c in summaries
      ensures c == Summary(rows, me, c.partner) && Talked(rows, me, c.partner)
    {
      var i :| 0 <= i < |summaries| && summaries[i] == c;
      assert ps[i] in ps;
    }
    forall p | Talked(rows, me, p)
      ensures Listed(summaries, p)
    {
      var i :| 0 <= i < |ps| && ps[i] == p;
      assert summaries[i] in summaries;
    }
  }

  /** `p` has an entry in the conversation list `cs`. */
  predicate Listed(cs: seq<Conversation>, p: nat) {
    exists c :: c in cs && c.partner == p
  }

  /** Each entry's last message is the most recent message between the two users, in either direction. */
  lemma SummaryLast(rows: seq<MsgRow>, me: nat, p: nat)
    requires Talked(rows, me, p)
    ensures var c := Summary(rows, me, p);
      && (exists x :: x in rows && IsBetween(x.val, me, p) && x.val.content == c.lastMessage && x.val.createdAt == c.lastMessageTime)
      && (forall x :: x in rows && IsBetween(x.val, me, p) ==> x.val.createdAt <= c.lastMessageTime)
  {
    var x :| x in rows && IsBetween(x.val, me, p);
    assert x in Select(rows, Between(me, p));
  }

  /** Only the partner's unread messages to `me` are counted: messages `me` sent are never part of it. */
  lemma SummaryUnread(rows: seq<MsgRow>, me: nat, p: nat)
    requires p != me
    ensures Summary(rows, me, p).unreadCount == |Select(rows, UnreadFrom(p, me))|
    ensures forall x :: x in Select(rows, UnreadFrom(p, me)) ==> x.val.senderId != me && !x.val.isRead
  {
  }

  /** Sending `me` another message of one's own leaves every partner's unread count as it was. */
  lemma {:induction false} OwnMessageNotCounted(rows: seq<MsgRow>, me: nat, p: nat, x: MsgRow)
    requires p != me && x.val.senderId == me
    ensures Summary(rows + [x], me, p).unreadCount == Summary(rows, me, p).unreadCount
  {
    SelectAppend(rows, [x], UnreadFrom(p, me));
  }

  // ---------------------------------------------------------------------------
  // Routes that change the table

  /** GET /conversation/:userId: answers the thread as it was, then marks the partner's messages read. */
  method OpenThread(db: Db, me: nat, other: nat) returns (st: Status, thread: seq<MsgRow>)
    requires db.Valid()
    modifies db`messages
    ensures db.Valid()
    ensures other == 0 ==> st == BadRequest && thread == [] && db.messages == old(db.messages)
    ensures other != 0 ==> st == Ok && thread == Thread(old(db.messages.rows), me, other)
    ensures other != 0 ==> db.messages == old(db.messages).WithRows(MarkRead(old(db.messages.rows), other, me))
  {
    if other == 0 {
      return BadRequest, [];
    }
    thread := Thread(db.messages.rows, me, other);
    MarkAllFrom(db, other, me);
    st := Ok;
  }

  /** PUT /read/:userId */
  method ReadFrom(db: Db, me: nat, other: nat) returns (st: Status)
    requires db.Valid()
    modifies db`messages
    ensures db.Valid()
    ensures other == 0 ==> st == BadRequest && db.messages == old(db.messages)
    ensures other != 0 ==> st == Ok && db.messages == old(db.messages).WithRows(MarkRead(old(db.messages.rows), other, me))
  {
    if other == 0 {
      return BadRequest;
    }
    MarkAllFrom(db, other, me);
    st := Ok;
  }

  /** The shared UPDATE of the two routes above. */
  method MarkAllFrom(db: Db, other: nat, me: nat)
    requires db.Valid()
    modifies db`messages
    ensures db.Valid()
    ensures db.messages == old(db.messages).WithRows(MarkRead(old(db.messages.rows), other, me))
  {
    var rows := db.messages.rows;
    ModifyKeepsIds(rows, UnreadFrom(other, me), SetRead, db.messages.next);
    db.messages := db.messages.WithRows(MarkRead(rows, other, me));
  }

  /** POST /send: the checks run in order and a failing one leaves the table as it was;
      on success exactly one unread message with the trimmed content is appended. */
  method Send(db: Db, me: nat, receiverId: nat, content: Option<string>, now: int) returns (st: Status, sent: Option<MsgRow>)
    requires db.Valid()
    modifies db`messages
    ensures db.Valid()
    ensures st == BadRequest <==> receiverId == 0 || !Given(content) || me == receiverId
    ensures st == NotFound <==> receiverId != 0 && Given(content) && me != receiverId && !HasId(db.users.rows, receiverId)
    ensures st != Created ==> db.messages == old(db.messages) && sent == None
    ensures st == Created || st == BadRequest || st == NotFound
    ensures st == Created ==>
      && sent == Some(Row(old(db.messages.next), Message(me, receiverId, Trim(content.value), false, now)))
      && db.messages.rows == old(db.messages.rows) + [sent.value]
      && db.messages.next == old(db.messages.next) + 1
  {
    if receiverId == 0 || !Given(content) {
      return BadRequest, None;
    }
    if me == receiverId {
      return BadRequest, None;
    }
    if db.users.Get(receiverId).None? {
      return NotFound, None;
    }
    var row := Row(db.messages.next, Message(me, receiverId, Trim(content.value), false, now));
    db.messages := db.messages.Insert(row.val);
    return Created, Some(row);
  }

  /** Content made only of spaces passes the presence check and is stored empty. */
  lemma BlankContentStoredEmpty(content: string)
    requires content != [] && forall k :: 0 <= k < |content| ==> IsSpace(content[k])
    ensures Given(Some(content)) && Trim(content) == []
  {
  }

  /** The row `id` exists and was sent by `me`. */
  predicate SentBy(rows: seq<MsgRow>, id: nat, me: nat) {
    exists x :: x in rows && x.id == id && x.val.senderId == me
  }

  /** DELETE /:messageId: only the sender may delete; a missing message and someone else's
      message answer alike; only that message is removed. */
  method Delete(db: Db, me: nat, messageId: nat) returns (st: Status)
    requires db.Valid()
    modifies db`messages
    ensures db.Valid()
    ensures messageId == 0 ==> st == BadRequest
    ensures messageId != 0 && !SentBy(old(db.messages.rows), messageId, me) ==> st == NotFound
    ensures messageId != 0 && SentBy(old(db.messages.rows), messageId, me) ==> st == Ok
    ensures st != Ok ==> db.messages == old(db.messages)
    ensures st == Ok ==> db.messages == old(db.messages).WithRows(Without(old(db.messages.rows), messageId))
    ensures st == Ok ==> |db.messages.rows| == |old(db.messages.rows)| - 1
  {
    if messageId == 0 {
      return BadRequest;
    }
    var mine := First(db.messages.rows, OwnRow(messageId, me));
    if mine.None? {
      return NotFound;
    }
    assert HasId(db.messages.rows, messageId) by {
      var x := mine.value;
      var i :| 0 <= i < |db.messages.rows| && db.messages.rows[i] == x;
    }
    db.messages := db.messages.WithRows(Without(db.messages.rows, messageId));
    st := Ok;
  }

  function OwnRow(id: nat, me: nat): MsgRow -> bool {
    (x: MsgRow) => x.id == id && x.val.senderId == me
  }
}
