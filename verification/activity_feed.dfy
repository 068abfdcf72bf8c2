/** The activity tab of the profile page (public/assets/js/profile-activityfeed.js): posts and
    notifications merged into one feed, newest first, each notification labelled by its type,
    each entry with a relative time, and the search box that filters the feed by its text. */
module ActivityFeed {
  import opened Common
  import opened Sorting

  /** A post as the page receives it from the posts route. */
  datatype PostItem = PostItem(id: nat, content: Option<string>, createdAt: int)

  /** A notification as the page receives it from the notifications route. */
  datatype NoteItem = NoteItem(id: nat, kind: string, content: string, createdAt: int, relatedId: Option<nat>, sender: Option<nat>)

  /** The label, icon and sentence shown for an entry. */
  datatype Kind = Kind(kind: string, icon: string, text: string)

  /** One entry of the feed. `timeAgo` is fixed when the feed is built. */
  datatype Activity = Activity(
    id: string,
    kind: string,
    icon: string,
    text: string,
    content: Option<string>,
    timestamp: int,
    timeAgo: string,
    relatedId: Option<nat>,
    sender: Option<nat>)

  // ---------------------------------------------------------------------------
  // getActivityTypeFromNotification

  /** The known notification types and how each is shown. */
  const TypeMap: map<string, Kind> := map[
    "friend_request" := Kind("friend", "user-plus", "sent you a friend request"),
    "post_like" := Kind("like", "heart", "liked your post"),
    "post_comment" := Kind("comment", "message-circle", "commented on your post"),
    "photo_upload" := Kind("photo", "image", "uploaded a photo"),
    "event_invite" := Kind("event", "calendar", "invited you to an event"),
    "group_invite" := Kind("group", "users", "invited you to join a group")]

  /** How any other type is shown. */
  const General := Kind("general", "bell", "sent you a notification")

  /** The entry kind of a notification type: its entry in the map, or the general bell. */
  function TypeOf(t: string): (k: Kind)
    ensures t in TypeMap ==> k == TypeMap[t]
    ensures t !in TypeMap ==> k == General
    ensures k.kind == "general" <==> t !in TypeMap
  {
    if t in TypeMap then TypeMap[t] else General
  }

  /** Different known types are shown differently, so the type can be read back from the entry. */
  lemma KnownKindsDistinct(a: string, b: string)
    requires a in TypeMap && b in TypeMap && a != b
    ensures TypeOf(a).kind != TypeOf(b).kind
  {
  }

  // ---------------------------------------------------------------------------
  // getTimeAgo

  const MinuteMs := 60000

  /** The relative time of `timestamp` as seen at `now`, in milliseconds; `date` stands for
      `toLocaleDateString()` of the timestamp. Minutes, hours and days are rounded down, each
      unit from the previous one. */
  function TimeAgo(now: int, timestamp: int, date: string): string {
    var minutes := (now - timestamp) / MinuteMs;
    if minutes < 1 then "Just now"
    else if minutes < 60 then NatToString(minutes) + " minutes ago"
    else
      var hours := minutes / 60;
      if hours < 24 then NatToString(hours) + " hours ago"
      else
        var days := hours / 24;
        if days < 7 then NatToString(days) + " days ago"
        else date
  }

  /** The buckets in milliseconds: under a minute (and any time in the future) is "Just now";
      then whole minutes, whole hours and whole days, each shown between 1 and its unit's
      limit; a week or more shows the date. */
  lemma TimeAgoBuckets(now: int, timestamp: int, date: string)
    ensures var d := now - timestamp; var r := TimeAgo(now, timestamp, date);
      && (d < 60000 ==> r == "Just now")
      && (60000 <= d < 3600000 ==> 1 <= d / 60000 < 60 && r == NatToString(d / 60000) + " minutes ago")
      && (3600000 <= d < 86400000 ==> 1 <= d / 3600000 < 24 && r == NatToString(d / 3600000) + " hours ago")
      && (86400000 <= d < 604800000 ==> 1 <= d / 86400000 < 7 && r == NatToString(d / 86400000) + " days ago")
      && (604800000 <= d ==> r == date)
  {
    var d := now - timestamp;
    HoursFromMinutes(d);
    DaysFromHours(d);
  }

  /** Whole hours from whole minutes are whole hours from milliseconds. */
  lemma HoursFromMinutes(d: int)
    ensures d / 60000 / 60 == d / 3600000
  {
  }

  /** Whole days from whole hours are whole days from milliseconds. */
  lemma DaysFromHours(d: int)
    ensures d / 3600000 / 24 == d / 86400000
  {
  }

  // ---------------------------------------------------------------------------
  // formatActivities

  /** `'post-' + id` */
  function PostId(id: nat): string {
    "post-" + NatToString(id)
  }

  /** `'notification-' + id` */
  function NoteId(id: nat): string {
    "notification-" + NatToString(id)
  }

  /** Entry ids tell their source apart: different posts, different notifications, and a post
      and a notification never share one. */
  lemma ActivityIdsDistinct(a: nat, b: nat)
    ensures PostId(a) == PostId(b) ==> a == b
    ensures NoteId(a) == NoteId(b) ==> a == b
    ensures PostId(a) != NoteId(b)
  {
    if PostId(a) == PostId(b) {
      assert NatToString(a) == PostId(a)[5..] == PostId(b)[5..] == NatToString(b);
      NatToStringInjective(a, b);
    }
    if NoteId(a) == NoteId(b) {
      assert NatToString(a) == NoteId(a)[13..] == NoteId(b)[13..] == NatToString(b);
      NatToStringInjective(a, b);
    }
    assert PostId(a)[0] != NoteId(b)[0];
  }

  /** The entry for a post. */
  function PostActivity(p: PostItem, now: int, date: int -> string): (a: Activity)
    ensures a.id == PostId(p.id) && a.kind == "post" && a.timestamp == p.createdAt && a.relatedId == Some(p.id)
  {
    Activity(PostId(p.id), "post", "file-text", "created a new post", p.content, p.createdAt,
             TimeAgo(now, p.createdAt, date(p.createdAt)), Some(p.id), None)
  }

  /** The entry for a notification, labelled by its type. */
  function NoteActivity(n: NoteItem, now: int, date: int -> string): (a: Activity)
    ensures a.id == NoteId(n.id) && a.timestamp == n.createdAt && a.content == Some(n.content)
    ensures Kind(a.kind, a.icon, a.text) == TypeOf(n.kind)
  {
    var k := TypeOf(n.kind);
    Activity(NoteId(n.id), k.kind, k.icon, k.text, Some(n.content), n.createdAt,
             TimeAgo(now, n.createdAt, date(n.createdAt)), n.relatedId, n.sender)
  }

  function Timestamp(a: Activity): int {
    a.timestamp
  }

  /** The entries the two loops push, posts first, each list in its own order. */
  function Collected(notifications: seq<NoteItem>, posts: seq<PostItem>, now: int, date: int -> string): (r: seq<Activity>)
    ensures |r| == |posts| + |notifications|
    ensures forall k :: 0 <= k < |posts| ==> r[k] == PostActivity(posts[k], now, date)
    ensures forall k :: 0 <= k < |notifications| ==> r[|posts| + k] == NoteActivity(notifications[k], now, date)
  {
    seq(|posts|, k requires 0 <= k < |posts| => PostActivity(posts[k], now, date))
    + seq(|notifications|, k requires 0 <= k < |notifications| => NoteActivity(notifications[k], now, date))
  }

  /** formatActivities: one entry pushed per post, then one per notification, then the whole
      list sorted newest first. */
  method FormatActivities(notifications: seq<NoteItem>, posts: seq<PostItem>, now: int, date: int -> string)
    returns (r: seq<Activity>)
    ensures |r| == |posts| + |notifications|
    ensures SortedDesc(r, Timestamp)
    ensures multiset(r) == multiset(Collected(notifications, posts, now, date))
    ensures r == SortDesc(Collected(notifications, posts, now, date), Timestamp)
  {
    var activities: seq<Activity> := [];
    var i := 0;
    while i < |posts|
      invariant 0 <= i <= |posts|
      invariant |activities| == i
      invariant forall k :: 0 <= k < i ==> activities[k] == PostActivity(posts[k], now, date)
    {
      activities := activities + [PostActivity(posts[i], now, date)];
      i := i + 1;
    }
    var j := 0;
    while j < |notifications|
      invariant 0 <= j <= |notifications|
      invariant |activities| == |posts| + j
      invariant forall k :: 0 <= k < |posts| ==> activities[k] == PostActivity(posts[k], now, date)
      invariant forall k :: 0 <= k < j ==> activities[|posts| + k] == NoteActivity(notifications[k], now, date)
    {
      activities := activities + [NoteActivity(notifications[j], now, date)];
      j := j + 1;
    }
    var all := Collected(notifications, posts, now, date);
    assert activities == all by {
      forall k | 0 <= k < |all| ensures activities[k] == all[k] {
        if k >= |posts| {
          assert activities[|posts| + (k - |posts|)] == all[|posts| + (k - |posts|)];
        }
      }
    }
    r := SortDesc(activities, Timestamp);
  }

  /** Every post and every notification has its entry in the feed, and every entry comes from
      one of them. */
  lemma FeedHasEveryItem(notifications: seq<NoteItem>, posts: seq<PostItem>, now: int, date: int -> string)
    ensures var r := SortDesc(Collected(notifications, posts, now, date), Timestamp);
      && (forall p :: p in posts ==> PostActivity(p, now, date) in r)
      && (forall n :: n in notifications ==> NoteActivity(n, now, date) in r)
      && (forall a :: a in r ==>
            (exists p :: p in posts && a == PostActivity(p, now, date))
            || (exists n :: n in notifications && a == NoteActivity(n, now, date)))
  {
    var all := Collected(notifications, posts, now, date);
    var r := SortDesc(all, Timestamp);
    SameMembers(r, all);
    EveryItemIn(notifications, posts, now, date, r);
    OnlyItemsIn(notifications, posts, now, date, r);
  }

  /** A list holding every collected entry holds the entry of every post and notification. */
  lemma EveryItemIn(notifications: seq<NoteItem>, posts: seq<PostItem>, now: int, date: int -> string, r: seq<Activity>)
    requires forall a :: a in Collected(notifications, posts, now, date) ==> a in r
    ensures forall p :: p in posts ==> PostActivity(p, now, date) in r
    ensures forall n :: n in notifications ==> NoteActivity(n, now, date) in r
  {
    var all := Collected(notifications, posts, now, date);
    forall p | p in posts ensures PostActivity(p, now, date) in r {
      var k :| 0 <= k < |posts| && posts[k] == p;
      assert all[k] == PostActivity(p, now, date);
    }
    forall n | n in notifications ensures NoteActivity(n, now, date) in r {
      var k :| 0 <= k < |notifications| && notifications[k] == n;
      assert all[|posts| + k] == NoteActivity(n, now, date);
    }
  }

  /** A list holding only collected entries holds only entries of posts and notifications. */
  lemma OnlyItemsIn(notifications: seq<NoteItem>, posts: seq<PostItem>, now: int, date: int -> string, r: seq<Activity>)
    requires forall a :: a in r ==> a in Collected(notifications, posts, now, date)
    ensures forall a :: a in r ==>
      (exists p :: p in posts && a == PostActivity(p, now, date))
      || (exists n :: n in notifications && a == NoteActivity(n, now, date))
  {
    var all := Collected(notifications, posts, now, date);
    forall a | a in r
      ensures (exists p :: p in posts && a == PostActivity(p, now, date))
              || (exists n :: n in notifications && a == NoteActivity(n, now, date))
    {
      var k :| 0 <= k < |all| && all[k] == a;
      if k < |posts| {
        assert posts[k] in posts;
      } else {
        assert notifications[k - |posts|] in notifications;
        assert all[|posts| + (k - |posts|)] == a;
      }
    }
  }

  // ---------------------------------------------------------------------------
  // filterActivity

  /** `text.toLowerCase().includes(searchTerm.toLowerCase())` */
  predicate Matches(a: Activity, term: string) {
    Contains(Lower(a.text), Lower(term))
  }

  /** filterActivity: the entries whose text contains the search term, ignoring case, in feed
      order. */
  function FilterActivity(activities: seq<Activity>, term: string): (r: seq<Activity>)
    ensures forall a :: a in r <==> a in activities && Matches(a, term)
    ensures |r| <= |activities|
  {
    if activities == [] then []
    else
      var rest := FilterActivity(activities[1..], term);
      assert forall a :: a in activities <==> a == activities[0] || a in activities[1..];
      if Matches(activities[0], term) then [activities[0]] + rest else rest
  }

  /** The search keeps a single entry exactly when it matches. */
  lemma FilterOne(a: Activity, term: string)
    ensures FilterActivity([a], term) == if Matches(a, term) then [a] else []
  {
    assert [a][1..] == [];
  }

  /** Searching a feed is searching its two halves and joining the results: the kept entries
      stay in feed order, each as often as it occurs. */
  lemma {:induction false} FilterAppend(a: seq<Activity>, b: seq<Activity>, term: string)
    ensures FilterActivity(a + b, term) == FilterActivity(a, term) + FilterActivity(b, term)
  {
    if a == [] {
      assert a + b == b;
    } else {
      assert (a + b)[1..] == a[1..] + b;
      FilterAppend(a[1..], b, term);
    }
  }

  /** An empty search shows the whole feed. */
  lemma {:induction false} EmptySearchKeepsAll(activities: seq<Activity>)
    ensures FilterActivity(activities, "") == activities
  {
    if activities != [] {
      assert OccursAt(Lower(activities[0].text), Lower(""), 0);
      EmptySearchKeepsAll(activities[1..]);
      assert activities == [activities[0]] + activities[1..];
    }
  }

  /** Searching the filtered feed again for the same term changes nothing. */
  lemma {:induction false} FilterIdempotent(activities: seq<Activity>, term: string)
    ensures FilterActivity(FilterActivity(activities, term), term) == FilterActivity(activities, term)
  {
    if activities != [] {
      FilterIdempotent(activities[1..], term);
    }
  }
}
