/** The home feed page (public/assets/js/index.js): the relative times it prints, the unread
    badge and the five newest notifications, the friend-request label, and the lists the page
    keeps in its fields and updates after each successful call to the API. */
module IndexPage {
  import opened Common

  /** A post card as the page holds it. `likesCount` is `None` when the value is `undefined`. */
  datatype FeedPost = FeedPost(id: nat, content: string, isLiked: bool, likesCount: Option<int>)

  /** A pending friend request. */
  datatype FriendRequest = FriendRequest(id: nat, userName: string, mutualFriends: nat)

  /** A notification in the header list. */
  datatype PageNote = PageNote(id: nat, content: string, isRead: bool, createdAt: int)

  /** The body of a successful like toggle: `{ liked }` and nothing else. */
  datatype LikeResponse = LikeResponse(liked: bool)

  // ---------------------------------------------------------------------------
  // getTimeAgo

  /** The relative time of `past` as seen at `now`, both in milliseconds; `date` stands for
      `toLocaleDateString()`. The difference is first rounded down to whole seconds
      (`Math.floor`, which Dafny's division by a positive number matches). */
  function TimeAgo(now: int, past: int, date: string): string {
    var seconds := (now - past) / 1000;
    if seconds < 60 then "just now"
    else if seconds < 3600 then NatToString(seconds / 60) + "m ago"
    else if seconds < 86400 then NatToString(seconds / 3600) + "h ago"
    else if seconds < 2592000 then NatToString(seconds / 86400) + "d ago"
    else date
  }

  /** The buckets in milliseconds: under a minute (and any time in the future) is "just now";
      then whole minutes, whole hours and whole days, each between 1 and its unit's limit; thirty
      days or more shows the date. */
  lemma TimeAgoBuckets(now: int, past: int, date: string)
    ensures var d := now - past; var r := TimeAgo(now, past, date);
      && (d < 60000 ==> r == "just now")
      && (60000 <= d < 3600000 ==> 1 <= d / 60000 < 60 && r == NatToString(d / 60000) + "m ago")
      && (3600000 <= d < 86400000 ==> 1 <= d / 3600000 < 24 && r == NatToString(d / 3600000) + "h ago")
      && (86400000 <= d < 2592000000 ==> 1 <= d / 86400000 < 30 && r == NatToString(d / 86400000) + "d ago")
      && (2592000000 <= d ==> r == date)
  {
    var d := now - past;
    MinutesFromSeconds(d);
    HoursFromSeconds(d);
    DaysFromSeconds(d);
  }

  lemma MinutesFromSeconds(d: int)
    ensures d / 1000 / 60 == d / 60000
  {
  }

  lemma HoursFromSeconds(d: int)
    ensures d / 1000 / 3600 == d / 3600000
  {
  }

  lemma DaysFromSeconds(d: int)
    ensures d / 1000 / 86400 == d / 86400000
  {
  }

  // ---------------------------------------------------------------------------
  // renderNotifications and renderFriendRequests

  /** `notifications.filter(n => !n.is_read).length` */
  function UnreadCount(ns: seq<PageNote>): (n: nat)
    ensures n <= |ns|
    ensures n == 0 <==> forall x :: x in ns ==> x.isRead
  {
    if ns == [] then 0
    else
      assert forall x :: x in ns <==> x == ns[0] || x in ns[1..];
      (if ns[0].isRead then 0 else 1) + UnreadCount(ns[1..])
  }

  /** The badge is shown exactly when some notification is unread. */
  predicate BadgeVisible(ns: seq<PageNote>) {
    UnreadCount(ns) > 0
  }

  /** The badge shows while something is unread; reading every notification hides it. */
  lemma BadgeShowsUnread(ns: seq<PageNote>)
    ensures BadgeVisible(ns) <==> exists x :: x in ns && !x.isRead
    ensures !BadgeVisible(seq(|ns|, i requires 0 <= i < |ns| => ns[i].(isRead := true)))
  {
    var all := seq(|ns|, i requires 0 <= i < |ns| => ns[i].(isRead := true));
    forall x | x in all ensures x.isRead {
      var i :| 0 <= i < |all| && all[i] == x;
    }
  }

  /** A new unread notification adds one to the badge. */
  lemma {:induction false} UnreadCountAppend(a: seq<PageNote>, b: seq<PageNote>)
    ensures UnreadCount(a + b) == UnreadCount(a) + UnreadCount(b)
  {
    if a == [] {
      assert a + b == b;
    } else {
      assert (a + b)[1..] == a[1..] + b;
      UnreadCountAppend(a[1..], b);
    }
  }

  /** `notifications.slice(0, 5)`: the first five, or all of them when there are fewer. */
  function Shown(ns: seq<PageNote>): (r: seq<PageNote>)
    ensures |r| <= 5
    ensures |ns| <= 5 ==> r == ns
    ensures |ns| > 5 ==> |r| == 5
    ensures forall i :: 0 <= i < |r| ==> r[i] == ns[i]
  {
    if |ns| <= 5 then ns else ns[..5]
  }

  /** `${n} mutual friend${n !== 1 ? 's' : ''}` */
  function MutualFriendsLabel(n: nat): (s: string)
    ensures NatToString(n) <= s
    ensures s[|s| - 1] == 's' <==> n != 1
  {
    NatToString(n) + " mutual friend" + (if n != 1 then "s" else "")
  }

  // ---------------------------------------------------------------------------
  // Lists filtered by id: accept, decline and delete

  /** `list.filter(x => x.id !== k)` */
  function Remove<T(!new)>(s: seq<T>, idOf: T -> nat, k: nat): (r: seq<T>)
    ensures forall x :: x in r <==> x in s && idOf(x) != k
    ensures |r| <= |s|
  {
    if s == [] then []
    else
      var rest := Remove(s[1..], idOf, k);
      assert forall x :: x in s <==> x == s[0] || x in s[1..];
      if idOf(s[0]) != k then [s[0]] + rest else rest
  }

  /** No two entries share an id. */
  predicate IdsUnique<T>(s: seq<T>, idOf: T -> nat) {
    forall i, j :: 0 <= i < j < |s| ==> idOf(s[i]) != idOf(s[j])
  }

  /** Filtering a list is filtering its two halves. */
  lemma {:induction false} RemoveAppend<T(!new)>(a: seq<T>, b: seq<T>, idOf: T -> nat, k: nat)
    ensures Remove(a + b, idOf, k) == Remove(a, idOf, k) + Remove(b, idOf, k)
  {
    if a == [] {
      assert a + b == b;
    } else {
      assert (a + b)[1..] == a[1..] + b;
      RemoveAppend(a[1..], b, idOf, k);
    }
  }

  /** An id that is not in the list removes nothing. */
  lemma {:induction false} RemoveAbsent<T(!new)>(s: seq<T>, idOf: T -> nat, k: nat)
    requires forall x :: x in s ==> idOf(x) != k
    ensures Remove(s, idOf, k) == s
  {
    if s != [] {
      assert forall x :: x in s[1..] ==> x in s;
      RemoveAbsent(s[1..], idOf, k);
      assert [s[0]] + s[1..] == s;
    }
  }

  /** With unique ids, removing the id of the entry at i leaves exactly the entries before it
      followed by the entries after it, in their order. */
  lemma RemoveAt<T(!new)>(s: seq<T>, idOf: T -> nat, i: nat)
    requires IdsUnique(s, idOf) && i < |s|
    ensures Remove(s, idOf, idOf(s[i])) == s[..i] + s[i + 1..]
    ensures |Remove(s, idOf, idOf(s[i]))| == |s| - 1
  {
    var k := idOf(s[i]);
    var before, after := s[..i], s[i + 1..];
    assert s == before + ([s[i]] + after);
    RemoveAppend(before, [s[i]] + after, idOf, k);
    RemoveAppend([s[i]], after, idOf, k);
    OthersHaveOtherIds(s, idOf, i);
    RemoveAbsent(before, idOf, k);
    RemoveAbsent(after, idOf, k);
    assert Remove([s[i]], idOf, k) == [];
  }

  /** With unique ids, no entry before or after position i carries the id of the entry at i. */
  lemma OthersHaveOtherIds<T(!new)>(s: seq<T>, idOf: T -> nat, i: nat)
    requires IdsUnique(s, idOf) && i < |s|
    ensures forall x :: x in s[..i] ==> idOf(x) != idOf(s[i])
    ensures forall x :: x in s[i + 1..] ==> idOf(x) != idOf(s[i])
  {
    forall x | x in s[..i] ensures idOf(x) != idOf(s[i]) {
      var j :| 0 <= j < i && s[j] == x;
    }
    forall x | x in s[i + 1..] ensures idOf(x) != idOf(s[i]) {
      var j :| i + 1 <= j < |s| && s[j] == x;
    }
  }

  function PostId(p: FeedPost): nat {
    p.id
  }

  function RequestId(r: FriendRequest): nat {
    r.id
  }

  // ---------------------------------------------------------------------------
  // toggleLike

  /** `posts.find(p => p.id === id)`, as the index of the first match. */
  function FindPost(s: seq<FeedPost>, id: nat): (r: Option<nat>)
    ensures r.None? <==> forall i :: 0 <= i < |s| ==> s[i].id != id
    ensures r.Some? ==> r.value < |s| && s[r.value].id == id && forall j :: 0 <= j < r.value ==> s[j].id != id
  {
    if s == [] then None
    else if s[0].id == id then Some(0)
    else
      var r := FindPost(s[1..], id);
      if r.Some? then Some(r.value + 1) else None
  }

  /** The first post with the id has its like flag flipped and its count replaced by `likes`;
      every other post is unchanged; no post with the id, nothing changes. */
  function Toggled(s: seq<FeedPost>, id: nat, likes: Option<int>): (r: seq<FeedPost>)
    ensures |r| == |s|
    ensures forall i :: 0 <= i < |s| && s[i].id != id ==> r[i] == s[i]
    ensures forall i :: 0 <= i < |s| ==> r[i].id == s[i].id && r[i].content == s[i].content
    ensures FindPost(s, id).None? ==> r == s
    ensures FindPost(s, id).Some? ==>
      var i := FindPost(s, id).value;
      r[i].isLiked == !s[i].isLiked && r[i].likesCount == likes
  {
    match FindPost(s, id)
    case None => s
    case Some(i) => s[i := s[i].(isLiked := !s[i].isLiked, likesCount := likes)]
  }

  /** With unique ids the toggle reaches every post with that id: its flag flips. */
  lemma ToggleOnlyThatPost(s: seq<FeedPost>, id: nat, likes: Option<int>)
    requires IdsUnique(s, PostId)
    ensures forall i :: 0 <= i < |s| && s[i].id == id ==>
      Toggled(s, id, likes)[i].isLiked == !s[i].isLiked && Toggled(s, id, likes)[i].likesCount == likes
  {
  }

  /** Toggling twice gives back every like flag. */
  lemma ToggleTwiceKeepsFlags(s: seq<FeedPost>, id: nat, likes: Option<int>)
    ensures var r := Toggled(Toggled(s, id, likes), id, likes);
      |r| == |s| && forall i :: 0 <= i < |s| ==> r[i].isLiked == s[i].isLiked
  {
    var t := Toggled(s, id, likes);
    assert forall i :: 0 <= i < |s| ==> (t[i].id == id <==> s[i].id == id);
    assert FindPost(t, id) == FindPost(s, id);
  }

  /** The count the card shows after a toggle: the body read as `response.data.likes_count`. The
      like route answers `{ liked }` alone, so the count is always `undefined`. */
  function CountFromResponse(resp: LikeResponse): (c: Option<int>)
    ensures c.None?
  {
    None
  }

  /** The card keeps the count it had, moved by one in the direction the server took. */
  function Resynced(s: seq<FeedPost>, id: nat, liked: bool): (r: seq<FeedPost>)
    ensures |r| == |s|
    ensures forall i :: 0 <= i < |s| && s[i].id != id ==> r[i] == s[i]
    ensures FindPost(s, id).Some? ==>
      var i := FindPost(s, id).value;
      r[i].isLiked == liked && r[i].likesCount == Resync(s[i].likesCount, liked)
  {
    match FindPost(s, id)
    case None => s
    case Some(i) => s[i := s[i].(isLiked := liked, likesCount := Resync(s[i].likesCount, liked))]
  }

  /** One more like, or `Math.max(0, n - 1)` for an unlike, as the server stores it. */
  function Resync(c: Option<int>, liked: bool): Option<int> {
    match c
    case None => None
    case Some(n) => Some(if liked then n + 1 else Max0(n - 1))
  }

  /** Liking then unliking a post that showed a count brings the card back as it was. */
  lemma LikeUnlikeRestores(s: seq<FeedPost>, id: nat)
    requires FindPost(s, id).Some?
    requires var p := s[FindPost(s, id).value]; !p.isLiked && p.likesCount.Some? && p.likesCount.value >= 0
    ensures Resynced(Resynced(s, id, true), id, false) == s
  {
    var i := FindPost(s, id).value;
    var t := Resynced(s, id, true);
    assert forall j :: 0 <= j < |s| ==> (t[j].id == id <==> s[j].id == id);
    assert FindPost(t, id) == Some(i);
  }

  /** As written, a like followed by an unlike does not bring the card back: a card that
      showed 3 likes shows `undefined` afterwards. */
  lemma AsWrittenLosesCount()
    ensures var s := [FeedPost(1, "", false, Some(3))];
      var r := LikeResponse(true);
      Toggled(Toggled(s, 1, CountFromResponse(r)), 1, CountFromResponse(r)) != s
  {
    var s := [FeedPost(1, "", false, Some(3))];
    assert Toggled(s, 1, None)[0].likesCount == None;
  }

  // ---------------------------------------------------------------------------
  // The page

  /** The lists the page keeps. Every update below takes `ok` for whether the API call
      succeeded; on failure the page shows an error and its lists stay as they were. */
  class Page {
    var posts: seq<FeedPost>
    var friendRequests: seq<FriendRequest>
    var notifications: seq<PageNote>

    /** A fresh page holds no posts, requests or notifications. */
    constructor ()
      ensures posts == [] && friendRequests == [] && notifications == []
    {
      posts := [];
      friendRequests := [];
      notifications := [];
    }

    /** createPost: the created post goes to the front of the feed. */
    method CreatePost(newPost: FeedPost, ok: bool)
      modifies this
      ensures ok ==> posts == [newPost] + old(posts)
      ensures !ok ==> posts == old(posts)
      ensures friendRequests == old(friendRequests) && notifications == old(notifications)
    {
      if ok {
        posts := [newPost] + posts;
      }
    }

    /** toggleLike: the first card with the id flips its like flag and takes the count read from
        the response; without such a card nothing changes. */
    method ToggleLike(postId: nat, ok: bool, resp: LikeResponse)
      modifies this
      ensures ok ==> posts == Toggled(old(posts), postId, CountFromResponse(resp))
      ensures !ok ==> posts == old(posts)
      ensures friendRequests == old(friendRequests) && notifications == old(notifications)
    {
      if ok {
        var found := FindPost(posts, postId);
        if found.Some? {
          var i := found.value;
          posts := posts[i := posts[i].(isLiked := !posts[i].isLiked, likesCount := CountFromResponse(resp))];
        }
      }
    }

    /** acceptFriendRequest: the request with the id leaves the list. */
    method AcceptFriendRequest(requestId: nat, ok: bool)
      modifies this
      ensures ok ==> friendRequests == Remove(old(friendRequests), RequestId, requestId)
      ensures !ok ==> friendRequests == old(friendRequests)
      ensures posts == old(posts) && notifications == old(notifications)
    {
      if ok {
        friendRequests := Remove(friendRequests, RequestId, requestId);
      }
    }

    /** declineFriendRequest: the same update as accepting; only the message differs. */
    method DeclineFriendRequest(requestId: nat, ok: bool)
      modifies this
      ensures ok ==> friendRequests == Remove(old(friendRequests), RequestId, requestId)
      ensures !ok ==> friendRequests == old(friendRequests)
      ensures posts == old(posts) && notifications == old(notifications)
    {
      if ok {
        friendRequests := Remove(friendRequests, RequestId, requestId);
      }
    }

    /** deletePost: asks first; when confirmed and deleted, the post with the id leaves the feed. */
    method DeletePost(postId: nat, confirmed: bool, ok: bool)
      modifies this
      ensures confirmed && ok ==> posts == Remove(old(posts), PostId, postId)
      ensures !(confirmed && ok) ==> posts == old(posts)
      ensures friendRequests == old(friendRequests) && notifications == old(notifications)
    {
      if !confirmed {
        return;
      }
      if ok {
        posts := Remove(posts, PostId, postId);
      }
    }
  }
}
