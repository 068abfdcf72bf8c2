/** Posts, likes and comments: creation, author-only edits and deletion, the like toggle
    with its `likes_count`, comments with their `comments_count`, and the paged listings
    (api/routes/posts.js). */
module Posts {
  import opened Common
  import opened Tables
  import opened Store
  import opened Sorting

  type PostRow = Row<Post>
  type LikeRow = Row<Like>
  type CommentRow = Row<Comment>

  /** `where: { post_id: p }` on `likes` */
  function LikeOn(p: nat): LikeRow -> bool {
    (x: LikeRow) => x.val.postId == p
  }

  /** `where: { user_id: u, post_id: p }` on `likes` */
  function LikeBy(u: nat, p: nat): LikeRow -> bool {
    (x: LikeRow) => x.val.userId == u && x.val.postId == p
  }

  /** `where: { post_id: p }` on `comments` */
  function CommentOn(p: nat): CommentRow -> bool {
    (x: CommentRow) => x.val.postId == p
  }

  function LikeKey(l: Like): (nat, nat) {
    (l.userId, l.postId)
  }

  function LikesCount(p: Post): int {
    p.likesCount
  }

  function CommentsCount(p: Post): int {
    p.commentsCount
  }

  /** The likes as a set of (user, post) records, ignoring their ids. */
  function LikeSet(rows: seq<LikeRow>): set<Like> {
    set x | x in rows :: x.val
  }

  // ---------------------------------------------------------------------------
  // The invariant the routes keep

  /** One like per (user, post); likes and comments point at ids the posts table handed out;
      each post's stored counters equal the number of its likes and of its comments. */
  ghost predicate Inv(ps: Table<Post>, ls: Table<Like>, cs: Table<Comment>) {
    && ps.Valid() && ls.Valid() && cs.Valid()
    && KeyUnique(ls.rows, LikeKey)
    && RefersBelow(ls.rows, LikeOn, ps.next)
    && RefersBelow(cs.rows, CommentOn, ps.next)
    && CountsAgree(ps.rows, LikesCount, ls.rows, LikeOn)
    && CountsAgree(ps.rows, CommentsCount, cs.rows, CommentOn)
  }

  ghost predicate Consistent(db: Db)
    reads db
  {
    Inv(db.posts, db.likes, db.comments)
  }

  /** With the invariant, a stored count is never negative. */
  lemma CountsNeverNegative(db: Db, x: PostRow)
    requires Consistent(db) && x in db.posts.rows
    ensures x.val.likesCount >= 0 && x.val.commentsCount >= 0
  {
  }

  // ---------------------------------------------------------------------------
  // POST /

  lemma CreateKeeps(ps: Table<Post>, ls: Table<Like>, cs: Table<Comment>, p: Post)
    requires Inv(ps, ls, cs) && p.likesCount == 0 && p.commentsCount == 0
    ensures Inv(ps.Insert(p), ls, cs)
    ensures Count(ls.rows, LikeOn(ps.next)) == 0 && Count(cs.rows, CommentOn(ps.next)) == 0
  {
    CountsAfterInsert(ps, LikesCount, p, ls.rows, LikeOn);
    CountsAfterInsert(ps, CommentsCount, p, cs.rows, CommentOn);
    CountFresh(ls.rows, LikeOn, ps.next);
    CountFresh(cs.rows, CommentOn, ps.next);
  }

  /** Content or a media URL is required; the post starts with no likes, comments or shares,
      and privacy defaults to 'public'. */
  method Create(db: Db, me: nat, content: Option<string>, groupId: Option<nat>, privacy: Option<string>, mediaUrl: Option<string>, now: int)
    returns (st: Status, pid: nat)
    requires Consistent(db)
    modifies db`posts
    ensures Consistent(db)
    ensures !Given(content) && !Given(mediaUrl) ==> st == BadRequest && db.posts == old(db.posts)
    ensures Given(content) || Given(mediaUrl) ==>
      && st == Created && pid == old(db.posts.next)
      && db.posts.rows == old(db.posts.rows)
           + [Row(pid, Post(me, OrNull(content), NonZero(groupId), OrElse(privacy, "public"), OrNull(mediaUrl), 0, 0, 0, now))]
      && Count(db.likes.rows, LikeOn(pid)) == 0 && Count(db.comments.rows, CommentOn(pid)) == 0
  {
    if !Given(content) && !Given(mediaUrl) {
      return BadRequest, 0;
    }
    pid := db.posts.next;
    var post := Post(me, OrNull(content), NonZero(groupId), OrElse(privacy, "public"), OrNull(mediaUrl), 0, 0, 0, now);
    CreateKeeps(db.posts, db.likes, db.comments, post);
    db.posts := db.posts.Insert(post);
    st := Created;
  }

  // ---------------------------------------------------------------------------
  // PUT /:id and DELETE /:id

  /** The `updateData` of PUT /:id: content and privacy, each only when supplied; a `null`
      content clears it. */
  function EditPost(p: Post, content: Nullable<string>, privacy: Option<string>): (r: Post)
    ensures r.(content := p.content, privacy := p.privacy) == p
    ensures content.None? ==> r.content == p.content
    ensures content.Some? ==> r.content == content.value
    ensures r.privacy == privacy.GetOr(p.privacy)
    ensures content.None? && privacy.None? ==> r == p
  {
    p.(content := Over(content, p.content), privacy := privacy.GetOr(p.privacy))
  }

  function Edit(content: Nullable<string>, privacy: Option<string>): Post -> Post {
    (p: Post) => EditPost(p, content, privacy)
  }

  lemma PatchKeeps(ps: Table<Post>, ls: Table<Like>, cs: Table<Comment>, pid: nat, f: Post -> Post)
    requires Inv(ps, ls, cs)
    requires forall p :: f(p).likesCount == p.likesCount && f(p).commentsCount == p.commentsCount
    ensures Inv(ps.WithRows(Modify(ps.rows, IdIs(pid), f)), ls, cs)
  {
    ModifyKeepsIds(ps.rows, IdIs(pid), f, ps.next);
    CountsAfterPatch(ps.rows, LikesCount, f, pid, ls.rows, LikeOn);
    CountsAfterPatch(ps.rows, CommentsCount, f, pid, cs.rows, CommentOn);
  }

  /** The author of the existing post `pid` (404 before 403). */
  predicate WrittenBy(rows: seq<PostRow>, pid: nat, me: nat) {
    HasId(rows, pid) && GetIn(rows, pid).value.userId == me
  }

  /** PUT /:id: a missing post is 404, someone else's is 403, and only the author's post is
      edited, in content and privacy only. */
  method Update(db: Db, me: nat, pid: nat, content: Nullable<string>, privacy: Option<string>) returns (st: Status)
    requires Consistent(db)
    modifies db`posts
    ensures Consistent(db)
    ensures !HasId(old(db.posts.rows), pid) ==> st == NotFound
    ensures HasId(old(db.posts.rows), pid) && !WrittenBy(old(db.posts.rows), pid, me) ==> st == Forbidden
    ensures st != Ok ==> db.posts == old(db.posts)
    ensures WrittenBy(old(db.posts.rows), pid, me) ==>
      st == Ok && db.posts == old(db.posts).WithRows(Modify(old(db.posts.rows), IdIs(pid), Edit(content, privacy)))
  {
    var existing := db.posts.Get(pid);
    if existing.None? {
      return NotFound;
    }
    if existing.value.userId != me {
      return Forbidden;
    }
    PatchKeeps(db.posts, db.likes, db.comments, pid, Edit(content, privacy));
    db.posts := db.posts.WithRows(Modify(db.posts.rows, IdIs(pid), Edit(content, privacy)));
    st := Ok;
  }

  /** An edit changes the post `pid` as `EditPost` says and no other post. */
  lemma EditOnlyThatPost(ps: Table<Post>, pid: nat, p: Post, content: Nullable<string>, privacy: Option<string>)
    requires ps.Valid() && ps.Get(pid) == Some(p)
    ensures var r := ps.WithRows(Modify(ps.rows, IdIs(pid), Edit(content, privacy)));
      && r.Get(pid) == Some(EditPost(p, content, privacy))
      && forall h :: h != pid ==> r.Get(h) == ps.Get(h)
  {
    ModifyOne(ps.rows, pid, Edit(content, privacy), p);
  }

  /** DELETE /:id: the same checks as an edit; only the post row itself is deleted. */
  method Delete(db: Db, me: nat, pid: nat) returns (st: Status)
    requires Consistent(db)
    modifies db`posts
    ensures Consistent(db)
    ensures !HasId(old(db.posts.rows), pid) ==> st == NotFound
    ensures HasId(old(db.posts.rows), pid) && !WrittenBy(old(db.posts.rows), pid, me) ==> st == Forbidden
    ensures st != Ok ==> db.posts == old(db.posts)
    ensures WrittenBy(old(db.posts.rows), pid, me) ==>
      && st == Ok && db.posts == old(db.posts).WithRows(Without(old(db.posts.rows), pid))
      && |db.posts.rows| == |old(db.posts.rows)| - 1
  {
    var existing := db.posts.Get(pid);
    if existing.None? {
      return NotFound;
    }
    if existing.value.userId != me {
      return Forbidden;
    }
    CountsAfterDelete(db.posts.rows, LikesCount, pid, db.likes.rows, LikeOn);
    CountsAfterDelete(db.posts.rows, CommentsCount, pid, db.comments.rows, CommentOn);
    db.posts := db.posts.WithRows(Without(db.posts.rows, pid));
    st := Ok;
  }

  // ---------------------------------------------------------------------------
  // POST /:id/like

  /** The status, the `liked` flag of the answer, and the two tables after a toggle. */
  datatype LikeStep = LikeStep(st: Status, liked: bool, posts: Table<Post>, likes: Table<Like>)

  function SetLikes(n: int): Post -> Post {
    (p: Post) => p.(likesCount := n)
  }

  /** `update('posts', pid, { likes_count: n })` */
  function WithLikes(ps: Table<Post>, pid: nat, n: int): Table<Post> {
    ps.WithRows(Modify(ps.rows, IdIs(pid), SetLikes(n)))
  }

  /** Deletes the like row `x` and stores `max(0, count - 1)` as the post's count. */
  function RemoveLike(ps: Table<Post>, ls: Table<Like>, pid: nat, p: Post, x: LikeRow): LikeStep {
    LikeStep(Ok, false, WithLikes(ps, pid, Max0(p.likesCount - 1)), ls.WithRows(Without(ls.rows, x.id)))
  }

  /** Inserts the requester's like and stores `count + 1` as the post's count. */
  function AddLike(ps: Table<Post>, ls: Table<Like>, pid: nat, p: Post, me: nat): LikeStep {
    LikeStep(Ok, true, WithLikes(ps, pid, p.likesCount + 1), ls.Insert(Like(me, pid)))
  }

  /** The parts of an unlike, as ground equations. */
  lemma RemoveLikeParts(ps: Table<Post>, ls: Table<Like>, pid: nat, p: Post, x: LikeRow)
    ensures RemoveLike(ps, ls, pid, p, x).posts == WithLikes(ps, pid, Max0(p.likesCount - 1))
    ensures RemoveLike(ps, ls, pid, p, x).likes.rows == Without(ls.rows, x.id)
    ensures RemoveLike(ps, ls, pid, p, x).likes.next == ls.next
  {
  }

  /** The parts of a like, as ground equations. */
  lemma AddLikeParts(ps: Table<Post>, ls: Table<Like>, pid: nat, p: Post, me: nat)
    ensures AddLike(ps, ls, pid, p, me).posts == WithLikes(ps, pid, p.likesCount + 1)
    ensures AddLike(ps, ls, pid, p, me).likes.rows == ls.rows + [Row(ls.next, Like(me, pid))]
    ensures AddLike(ps, ls, pid, p, me).likes.next == ls.next + 1
  {
  }

  /** The count an unlike stores, named by the caller. */
  lemma RemoveLikePosts(ps: Table<Post>, ls: Table<Like>, pid: nat, p: Post, x: LikeRow, m: int)
    requires m == Max0(p.likesCount - 1)
    ensures RemoveLike(ps, ls, pid, p, x).posts == WithLikes(ps, pid, m)
  {
  }

  /** The count a like stores, named by the caller. */
  lemma AddLikePosts(ps: Table<Post>, ls: Table<Like>, pid: nat, p: Post, me: nat, m: int)
    requires m == p.likesCount + 1
    ensures AddLike(ps, ls, pid, p, me).posts == WithLikes(ps, pid, m)
  {
  }

  /** A missing post is 404. An existing like by the requester is deleted and `likes_count`
      becomes `max(0, count - 1)`; otherwise a like is inserted and `likes_count` becomes
      `count + 1`. */
  function ToggleStep(ps: Table<Post>, ls: Table<Like>, pid: nat, me: nat): (r: LikeStep)
    ensures r.st == NotFound <==> !HasId(ps.rows, pid)
    ensures r.st == Ok || r.st == NotFound
    ensures r.st != Ok ==> r.posts == ps && r.likes == ls && !r.liked
    ensures r.st == Ok ==> r.posts.next == ps.next && (r.liked <==> First(ls.rows, LikeBy(me, pid)).None?)
  {
    match ps.Get(pid)
    case None => LikeStep(NotFound, false, ps, ls)
    case Some(p) =>
      match First(ls.rows, LikeBy(me, pid))
      case Some(x) => RemoveLike(ps, ls, pid, p, x)
      case None => AddLike(ps, ls, pid, p, me)
  }

  lemma LikeIs(ps: Table<Post>, ls: Table<Like>, pid: nat, me: nat, p: Post)
    requires ps.Get(pid) == Some(p) && First(ls.rows, LikeBy(me, pid)).None?
    ensures ToggleStep(ps, ls, pid, me) == AddLike(ps, ls, pid, p, me)
  {
  }

  lemma UnlikeIs(ps: Table<Post>, ls: Table<Like>, pid: nat, me: nat, p: Post, x: LikeRow)
    requires ps.Get(pid) == Some(p) && First(ls.rows, LikeBy(me, pid)) == Some(x)
    ensures ToggleStep(ps, ls, pid, me) == RemoveLike(ps, ls, pid, p, x)
  {
  }

  lemma LikeKeeps(ps: Table<Post>, ls: Table<Like>, cs: Table<Comment>, pid: nat, p: Post, me: nat)
    requires Inv(ps, ls, cs) && Row(pid, p) in ps.rows
    requires First(ls.rows, LikeBy(me, pid)).None?
    ensures Inv(WithLikes(ps, pid, p.likesCount + 1), ls.Insert(Like(me, pid)), cs)
    ensures p.likesCount == Count(ls.rows, LikeOn(pid))
    ensures Count(ls.Insert(Like(me, pid)).rows, LikeOn(pid)) == p.likesCount + 1
  {
    var row := Row(ls.next, Like(me, pid));
    var ls2 := ls.Insert(row.val);
    var f := SetLikes(p.likesCount + 1);
    forall h ensures Count(ls2.rows, LikeOn(h)) == Count(ls.rows, LikeOn(h)) + (if h == pid then 1 else 0) {
      CountAppend(ls.rows, row, LikeOn(h));
    }
    ModifyKeepsIds(ps.rows, IdIs(pid), f, ps.next);
    CountsAfter(ps.rows, LikesCount, f, p.likesCount + 1, ls.rows, ls2.rows, LikeOn, Row(pid, p));
    CountsAfterPatch(ps.rows, CommentsCount, f, pid, cs.rows, CommentOn);
    UniqueAppend(ls.rows, row, LikeKey);
    assert RefersBelow(ls2.rows, LikeOn, ps.next) by {
      var i :| 0 <= i < |ps.rows| && ps.rows[i] == Row(pid, p);
      RefersAppend(ls.rows, LikeOn, ps.next, row);
    }
  }

  lemma UnlikeKeeps(ps: Table<Post>, ls: Table<Like>, cs: Table<Comment>, pid: nat, p: Post, x: LikeRow)
    requires Inv(ps, ls, cs) && Row(pid, p) in ps.rows
    requires x in ls.rows && x.val.postId == pid
    ensures Inv(WithLikes(ps, pid, Max0(p.likesCount - 1)), ls.WithRows(Without(ls.rows, x.id)), cs)
    ensures p.likesCount == Count(ls.rows, LikeOn(pid)) && p.likesCount >= 1
    ensures Count(Without(ls.rows, x.id), LikeOn(pid)) == p.likesCount - 1
  {
    var f := SetLikes(Max0(p.likesCount - 1));
    assert x in Select(ls.rows, LikeOn(pid));
    forall h ensures Count(Without(ls.rows, x.id), LikeOn(h)) == Count(ls.rows, LikeOn(h)) - (if h == pid then 1 else 0) {
      CountWithout(ls.rows, x, LikeOn(h));
    }
    UniqueWithout(ls.rows, x.id, LikeKey);
    RefersWithout(ls.rows, LikeOn, ps.next, x.id);
    ModifyKeepsIds(ps.rows, IdIs(pid), f, ps.next);
    CountsAfter(ps.rows, LikesCount, f, Max0(p.likesCount - 1), ls.rows, Without(ls.rows, x.id), LikeOn, Row(pid, p));
    CountsAfterPatch(ps.rows, CommentsCount, f, pid, cs.rows, CommentOn);
  }

  /** A toggle keeps the invariant: one like per user and post, and `likes_count` equal to the
      number of likes. */
  lemma ToggleKeeps(ps: Table<Post>, ls: Table<Like>, cs: Table<Comment>, pid: nat, me: nat)
    requires Inv(ps, ls, cs)
    ensures var r := ToggleStep(ps, ls, pid, me);
      Inv(r.posts, r.likes, cs)
  {
    match ps.Get(pid)
    case None =>
    case Some(p) =>
      match First(ls.rows, LikeBy(me, pid))
      case Some(x) =>
        UnlikeIs(ps, ls, pid, me, p, x);
        UnlikeKeeps(ps, ls, cs, pid, p, x);
      case None =>
        LikeIs(ps, ls, pid, me, p);
        LikeKeeps(ps, ls, cs, pid, p, me);
  }

  /** Storing count `n` for post `pid` changes that post's count and nothing else. */
  lemma WithLikesAt(ps: Table<Post>, pid: nat, p: Post, n: int)
    requires ps.Valid() && Row(pid, p) in ps.rows
    ensures WithLikes(ps, pid, n).Get(pid) == Some(p.(likesCount := n))
    ensures forall h :: h != pid ==> WithLikes(ps, pid, n).Get(h) == ps.Get(h)
  {
    ModifyOne(ps.rows, pid, SetLikes(n), p);
  }

  /** Liking: exactly one like row, the requester's, is appended. */
  lemma LikeAdds(ps: Table<Post>, ls: Table<Like>, pid: nat, me: nat, p: Post)
    requires ps.Get(pid) == Some(p)
    requires First(ls.rows, LikeBy(me, pid)).None?
    ensures var r := ToggleStep(ps, ls, pid, me);
      && r.st == Ok && r.liked
      && r.likes.rows == ls.rows + [Row(ls.next, Like(me, pid))]
  {
    LikeIs(ps, ls, pid, me, p);
    AddLikeParts(ps, ls, pid, p, me);
  }

  /** Liking: the post's likes now number one more than its count before. */
  lemma LikeCounts(ps: Table<Post>, ls: Table<Like>, cs: Table<Comment>, pid: nat, me: nat, p: Post)
    requires Inv(ps, ls, cs) && ps.Get(pid) == Some(p)
    requires First(ls.rows, LikeBy(me, pid)).None?
    ensures p.likesCount + 1 == Count(ToggleStep(ps, ls, pid, me).likes.rows, LikeOn(pid))
  {
    LikeIs(ps, ls, pid, me, p);
    AddLikeParts(ps, ls, pid, p, me);
    LikeKeeps(ps, ls, cs, pid, p, me);
  }

  /** Liking stores `count + 1` as the post's count; no other post changes. */
  lemma LikeStores(ps: Table<Post>, ls: Table<Like>, pid: nat, me: nat, p: Post)
    requires ps.Valid() && ps.Get(pid) == Some(p)
    requires First(ls.rows, LikeBy(me, pid)).None?
    ensures var r := ToggleStep(ps, ls, pid, me);
      && r.posts.Get(pid) == Some(p.(likesCount := p.likesCount + 1))
      && (forall h :: h != pid ==> r.posts.Get(h) == ps.Get(h))
  {
    LikeIs(ps, ls, pid, me, p);
    AddLikeParts(ps, ls, pid, p, me);
    WithLikesAt(ps, pid, p, p.likesCount + 1);
  }

  /** Unliking: exactly the requester's like row is deleted, and no like by the requester on
      that post is left. */
  lemma UnlikeRemoves(ps: Table<Post>, ls: Table<Like>, cs: Table<Comment>, pid: nat, me: nat, p: Post, x: LikeRow)
    requires Inv(ps, ls, cs) && ps.Get(pid) == Some(p)
    requires First(ls.rows, LikeBy(me, pid)) == Some(x)
    ensures var r := ToggleStep(ps, ls, pid, me);
      && r.st == Ok && !r.liked
      && x.val == Like(me, pid)
      && r.likes.rows == Without(ls.rows, x.id)
      && (forall y :: y in r.likes.rows ==> y.val != Like(me, pid))
  {
    UnlikeIs(ps, ls, pid, me, p, x);
    assert x.val == Like(me, pid) by {
      assert LikeBy(me, pid)(x);
    }
    assert forall y :: y in Without(ls.rows, x.id) ==> y.val != Like(me, pid) by {
      UniqueWithoutKey(ls.rows, LikeKey, x);
    }
  }

  /** Unliking: the post had at least one like, and its likes now number one fewer. */
  lemma UnlikeCounts(ps: Table<Post>, ls: Table<Like>, cs: Table<Comment>, pid: nat, me: nat, p: Post, x: LikeRow)
    requires Inv(ps, ls, cs) && ps.Get(pid) == Some(p)
    requires First(ls.rows, LikeBy(me, pid)) == Some(x)
    ensures var r := ToggleStep(ps, ls, pid, me);
      && p.likesCount >= 1
      && p.likesCount - 1 == Count(r.likes.rows, LikeOn(pid))
  {
    UnlikeIs(ps, ls, pid, me, p, x);
    assert LikeBy(me, pid)(x);
    UnlikeKeeps(ps, ls, cs, pid, p, x);
  }

  /** Unliking stores `max(0, count - 1)` as the post's count; no other post changes. */
  lemma UnlikeStores(ps: Table<Post>, ls: Table<Like>, pid: nat, me: nat, p: Post, x: LikeRow)
    requires ps.Valid() && ps.Get(pid) == Some(p)
    requires First(ls.rows, LikeBy(me, pid)) == Some(x)
    ensures var r := ToggleStep(ps, ls, pid, me);
      && r.posts.Get(pid) == Some(p.(likesCount := Max0(p.likesCount - 1)))
      && (forall h :: h != pid ==> r.posts.Get(h) == ps.Get(h))
  {
    UnlikeIs(ps, ls, pid, me, p, x);
    RemoveLikeParts(ps, ls, pid, p, x);
    WithLikesAt(ps, pid, p, Max0(p.likesCount - 1));
  }

  /** The answer's `liked` flag says whether the requester's like exists after the call, and
      it is the opposite of whether it existed before. */
  lemma LikedFlagMatches(ps: Table<Post>, ls: Table<Like>, cs: Table<Comment>, pid: nat, me: nat)
    requires Inv(ps, ls, cs) && HasId(ps.rows, pid)
    ensures var r := ToggleStep(ps, ls, pid, me);
      && r.st == Ok
      && (r.liked <==> Like(me, pid) in LikeSet(r.likes.rows))
      && (r.liked <==> Like(me, pid) !in LikeSet(ls.rows))
  {
    var p := ps.Get(pid).value;
    var r := ToggleStep(ps, ls, pid, me);
    match First(ls.rows, LikeBy(me, pid))
    case None =>
      LikeAdds(ps, ls, pid, me, p);
      assert Row(ls.next, Like(me, pid)) in r.likes.rows;
      forall y | y in ls.rows ensures y.val != Like(me, pid) {
        assert !LikeBy(me, pid)(y);
      }
    case Some(x) =>
      UnlikeRemoves(ps, ls, cs, pid, me, p, x);
  }

  /** Deleting the last of several rows, whose id is above all others, gives back the others. */
  lemma WithoutLast<T(!new)>(rows: seq<Row<T>>, x: Row<T>)
    requires forall y :: y in rows ==> y.id < x.id
    ensures Without(rows + [x], x.id) == rows
  {
    SelectAppend(rows, [x], IdIsNot(x.id));
    SelectAll(rows, IdIsNot(x.id));
    assert Select([x], IdIsNot(x.id)) == [];
  }

  /** Storing a count and then the post's original count gives back the posts table. */
  lemma LikesRestored(ps: Table<Post>, pid: nat, p: Post, n: int, m: int)
    requires IdsIncreasing(ps.rows) && Row(pid, p) in ps.rows && m == p.likesCount
    ensures WithLikes(WithLikes(ps, pid, n), pid, m) == ps
  {
    var r1 := Modify(ps.rows, IdIs(pid), SetLikes(n));
    var r2 := Modify(r1, IdIs(pid), SetLikes(m));
    ModifyAt(ps.rows, pid, SetLikes(n));
    ModifyAt(r1, pid, SetLikes(m));
    forall i | 0 <= i < |ps.rows| ensures r2[i] == ps.rows[i] {
      if ps.rows[i].id == pid {
        IdDeterminesRow(ps.rows, ps.rows[i], Row(pid, p));
      }
    }
    assert r2 == ps.rows;
  }

  /** Like then unlike: the second toggle finds the like the first inserted, removes it, and
      leaves the like rows exactly as before. */
  lemma LikeThenUnlike(ps: Table<Post>, ls: Table<Like>, pid: nat, me: nat, p: Post)
    requires ps.Valid() && ls.Valid() && ps.Get(pid) == Some(p)
    requires First(ls.rows, LikeBy(me, pid)).None?
    ensures var r1 := ToggleStep(ps, ls, pid, me);
      var r2 := ToggleStep(r1.posts, r1.likes, pid, me);
      && r1.liked && r2.st == Ok && !r2.liked
      && r2.likes.rows == ls.rows
  {
    var y := Relike(ps, ls, pid, me, p);
    var r1 := AddLike(ps, ls, pid, p, me);
    AddLikeParts(ps, ls, pid, p, me);
    RemoveLikeParts(r1.posts, r1.likes, pid, p.(likesCount := p.likesCount + 1), y);
    WithoutLast(ls.rows, y);
  }

  /** Like then unlike: the posts table is exactly as before. */
  lemma LikeThenUnlikePosts(ps: Table<Post>, ls: Table<Like>, pid: nat, me: nat, p: Post)
    requires ps.Valid() && ls.Valid() && ps.Get(pid) == Some(p) && p.likesCount >= 0
    requires First(ls.rows, LikeBy(me, pid)).None?
    ensures var r1 := ToggleStep(ps, ls, pid, me);
      ToggleStep(r1.posts, r1.likes, pid, me).posts == ps
  {
    var y := Relike(ps, ls, pid, me, p);
    var r1 := AddLike(ps, ls, pid, p, me);
    AddLikePosts(ps, ls, pid, p, me, p.likesCount + 1);
    RemoveLikePosts(r1.posts, r1.likes, pid, p.(likesCount := p.likesCount + 1), y, p.likesCount);
    LikesRestored(ps, pid, p, p.likesCount + 1, p.likesCount);
  }

  /** The two steps of a like followed by an unlike: the second finds the inserted row `y`. */
  lemma Relike(ps: Table<Post>, ls: Table<Like>, pid: nat, me: nat, p: Post) returns (y: LikeRow)
    requires ps.Valid() && ls.Valid() && ps.Get(pid) == Some(p)
    requires First(ls.rows, LikeBy(me, pid)).None?
    ensures y == Row(ls.next, Like(me, pid)) && forall z :: z in ls.rows ==> z.id < y.id
    ensures ToggleStep(ps, ls, pid, me) == AddLike(ps, ls, pid, p, me)
    ensures var r1 := AddLike(ps, ls, pid, p, me);
      ToggleStep(r1.posts, r1.likes, pid, me)
        == RemoveLike(r1.posts, r1.likes, pid, p.(likesCount := p.likesCount + 1), y)
  {
    LikeIs(ps, ls, pid, me, p);
    AddLikeParts(ps, ls, pid, p, me);
    var r1 := AddLike(ps, ls, pid, p, me);
    y := Row(ls.next, Like(me, pid));
    WithLikesAt(ps, pid, p, p.likesCount + 1);
    assert First(r1.likes.rows, LikeBy(me, pid)) == Some(y) by {
      var z := First(r1.likes.rows, LikeBy(me, pid));
      assert LikeBy(me, pid)(y);
      assert z.value !in ls.rows;
    }
    UnlikeIs(r1.posts, r1.likes, pid, me, p.(likesCount := p.likesCount + 1), y);
  }

  /** Unlike then like: the set of likes is as before (the like row gets a new id). */
  lemma UnlikeThenLike(ps: Table<Post>, ls: Table<Like>, pid: nat, me: nat, p: Post, x: LikeRow)
    requires ps.Valid() && ls.Valid() && KeyUnique(ls.rows, LikeKey)
    requires ps.Get(pid) == Some(p)
    requires First(ls.rows, LikeBy(me, pid)) == Some(x)
    ensures var r1 := ToggleStep(ps, ls, pid, me);
      var r2 := ToggleStep(r1.posts, r1.likes, pid, me);
      && !r1.liked && r2.st == Ok && r2.liked
      && LikeSet(r2.likes.rows) == LikeSet(ls.rows)
  {
    Unrelike(ps, ls, pid, me, p, x);
    NoLikeLeft(ls.rows, me, pid, x);
    RelikeLikes(ps, ls, pid, me, p, x);
  }

  /** Unlike then like, when the post's count is at least one: the posts table is as before. */
  lemma UnlikeThenLikePosts(ps: Table<Post>, ls: Table<Like>, pid: nat, me: nat, p: Post, x: LikeRow)
    requires ps.Valid() && ls.Valid() && KeyUnique(ls.rows, LikeKey)
    requires ps.Get(pid) == Some(p) && p.likesCount >= 1
    requires First(ls.rows, LikeBy(me, pid)) == Some(x)
    ensures var r1 := ToggleStep(ps, ls, pid, me);
      ToggleStep(r1.posts, r1.likes, pid, me).posts == ps
  {
    Unrelike(ps, ls, pid, me, p, x);
    RelikePosts(ps, ls, pid, me, p, x);
  }

  /** The two steps of an unlike followed by a like. */
  lemma Unrelike(ps: Table<Post>, ls: Table<Like>, pid: nat, me: nat, p: Post, x: LikeRow)
    requires ps.Valid() && ls.Valid() && KeyUnique(ls.rows, LikeKey)
    requires ps.Get(pid) == Some(p)
    requires First(ls.rows, LikeBy(me, pid)) == Some(x)
    ensures ToggleStep(ps, ls, pid, me) == RemoveLike(ps, ls, pid, p, x)
    ensures var r1 := RemoveLike(ps, ls, pid, p, x);
      ToggleStep(r1.posts, r1.likes, pid, me)
        == AddLike(r1.posts, r1.likes, pid, p.(likesCount := Max0(p.likesCount - 1)), me)
  {
    UnlikeIs(ps, ls, pid, me, p, x);
    RemoveLikeParts(ps, ls, pid, p, x);
    WithLikesAt(ps, pid, p, Max0(p.likesCount - 1));
    NoLikeLeft(ls.rows, me, pid, x);
    var r1 := RemoveLike(ps, ls, pid, p, x);
    LikeIs(r1.posts, r1.likes, pid, me, p.(likesCount := Max0(p.likesCount - 1)));
  }

  /** After an unlike and a like, the posts table is as before. */
  lemma RelikePosts(ps: Table<Post>, ls: Table<Like>, pid: nat, me: nat, p: Post, x: LikeRow)
    requires IdsIncreasing(ps.rows) && Row(pid, p) in ps.rows && p.likesCount >= 1
    ensures var r1 := RemoveLike(ps, ls, pid, p, x);
      AddLike(r1.posts, r1.likes, pid, p.(likesCount := Max0(p.likesCount - 1)), me).posts == ps
  {
    var n := Max0(p.likesCount - 1);
    var r1 := RemoveLike(ps, ls, pid, p, x);
    RemoveLikePosts(ps, ls, pid, p, x, n);
    AddLikePosts(r1.posts, r1.likes, pid, p.(likesCount := n), me, p.likesCount);
    LikesRestored(ps, pid, p, n, p.likesCount);
  }

  /** After deleting the like `x` and inserting the same like, the set of likes is as before. */
  lemma RelikeLikes(ps: Table<Post>, ls: Table<Like>, pid: nat, me: nat, p: Post, x: LikeRow)
    requires IdsIncreasing(ls.rows) && x in ls.rows && x.val == Like(me, pid)
    ensures var r1 := RemoveLike(ps, ls, pid, p, x);
      LikeSet(AddLike(r1.posts, r1.likes, pid, p.(likesCount := Max0(p.likesCount - 1)), me).likes.rows)
        == LikeSet(ls.rows)
  {
    var r1 := RemoveLike(ps, ls, pid, p, x);
    RemoveLikeParts(ps, ls, pid, p, x);
    AddLikeParts(r1.posts, r1.likes, pid, p.(likesCount := Max0(p.likesCount - 1)), me);
    LikeSetSwap(ls.rows, x, Row(ls.next, Like(me, pid)));
  }

  lemma NoLikeLeft(rows: seq<LikeRow>, me: nat, pid: nat, x: LikeRow)
    requires KeyUnique(rows, LikeKey) && First(rows, LikeBy(me, pid)) == Some(x)
    ensures x.val == Like(me, pid)
    ensures First(Without(rows, x.id), LikeBy(me, pid)).None?
  {
    assert LikeBy(me, pid)(x);
    UniqueWithoutKey(rows, LikeKey, x);
    assert forall z :: z in Without(rows, x.id) ==> !LikeBy(me, pid)(z);
  }

  /** Deleting a like row and inserting the same like under another id keeps the set of likes. */
  lemma LikeSetSwap(rows: seq<LikeRow>, x: LikeRow, y: LikeRow)
    requires IdsIncreasing(rows) && x in rows && y.val == x.val
    ensures LikeSet(Without(rows, x.id) + [y]) == LikeSet(rows)
  {
    var added := Without(rows, x.id) + [y];
    forall v | v in LikeSet(rows) ensures v in LikeSet(added) {
      var z :| z in rows && z.val == v;
      if z.id != x.id {
        assert z in added;
      } else {
        IdDeterminesRow(rows, z, x);
        assert y in added;
      }
    }
    forall v | v in LikeSet(added) ensures v in LikeSet(rows) {
      var z :| z in added && z.val == v;
      if z != y {
        assert z in rows;
      }
    }
  }

  /** Toggling twice answers the opposite flags and restores the set of likes. */
  lemma ToggleTwice(ps: Table<Post>, ls: Table<Like>, cs: Table<Comment>, pid: nat, me: nat)
    requires Inv(ps, ls, cs) && HasId(ps.rows, pid)
    ensures var r1 := ToggleStep(ps, ls, pid, me);
      var r2 := ToggleStep(r1.posts, r1.likes, pid, me);
      && r2.st == Ok && r2.liked != r1.liked
      && LikeSet(r2.likes.rows) == LikeSet(ls.rows)
  {
    var p := ps.Get(pid).value;
    match First(ls.rows, LikeBy(me, pid))
    case None => LikeThenUnlike(ps, ls, pid, me, p);
    case Some(x) => UnlikeThenLike(ps, ls, pid, me, p, x);
  }

  /** Toggling twice restores every post's row, counts included. */
  lemma ToggleTwicePosts(ps: Table<Post>, ls: Table<Like>, cs: Table<Comment>, pid: nat, me: nat)
    requires Inv(ps, ls, cs) && HasId(ps.rows, pid)
    ensures var r1 := ToggleStep(ps, ls, pid, me);
      ToggleStep(r1.posts, r1.likes, pid, me).posts == ps
  {
    var p := ps.Get(pid).value;
    assert p.likesCount == Count(ls.rows, LikeOn(pid)) by {
      assert Row(pid, p) in ps.rows;
    }
    match First(ls.rows, LikeBy(me, pid))
    case None => LikeThenUnlikePosts(ps, ls, pid, me, p);
    case Some(x) =>
      assert p.likesCount >= 1 by {
        assert x in Select(ls.rows, LikeOn(pid));
      }
      UnlikeThenLikePosts(ps, ls, pid, me, p, x);
  }

  method ToggleLike(db: Db, me: nat, pid: nat) returns (st: Status, liked: bool)
    requires Consistent(db)
    modifies db`posts, db`likes
    ensures Consistent(db)
    ensures LikeStep(st, liked, db.posts, db.likes) == ToggleStep(old(db.posts), old(db.likes), pid, me)
  {
    var r := ToggleStep(db.posts, db.likes, pid, me);
    ToggleKeeps(db.posts, db.likes, db.comments, pid, me);
    db.posts, db.likes := r.posts, r.likes;
    st, liked := r.st, r.liked;
  }

  // ---------------------------------------------------------------------------
  // POST /:id/comments

  /** The status and the two tables after adding a comment. */
  datatype CommentStep = CommentStep(st: Status, posts: Table<Post>, comments: Table<Comment>)

  function SetComments(n: int): Post -> Post {
    (p: Post) => p.(commentsCount := n)
  }

  /** `update('posts', pid, { comments_count: n })` */
  function WithComments(ps: Table<Post>, pid: nat, n: int): Table<Post> {
    ps.WithRows(Modify(ps.rows, IdIs(pid), SetComments(n)))
  }

  /** Inserts the comment and stores `count + 1` as the post's count. */
  function AddCommentTo(ps: Table<Post>, cs: Table<Comment>, pid: nat, p: Post, c: Comment): CommentStep {
    CommentStep(Created, WithComments(ps, pid, p.commentsCount + 1), cs.Insert(c))
  }

  /** Content is required and checked before the post lookup (400); a missing post is 404;
      otherwise one comment with no likes is added and `comments_count` goes up by one. */
  function CommentStepOf(ps: Table<Post>, cs: Table<Comment>, pid: nat, me: nat, content: Option<string>, now: int): (r: CommentStep)
    ensures r.st == BadRequest <==> !Given(content)
    ensures r.st == NotFound <==> Given(content) && !HasId(ps.rows, pid)
    ensures r.st == Created <==> Given(content) && HasId(ps.rows, pid)
    ensures r.st != Created ==> r.posts == ps && r.comments == cs
  {
    if !Given(content) then CommentStep(BadRequest, ps, cs)
    else
      match ps.Get(pid)
      case None => CommentStep(NotFound, ps, cs)
      case Some(p) => AddCommentTo(ps, cs, pid, p, Comment(pid, me, content.value, 0, now))
  }

  lemma CommentIs(ps: Table<Post>, cs: Table<Comment>, pid: nat, me: nat, content: Option<string>, now: int, p: Post)
    requires Given(content) && ps.Get(pid) == Some(p)
    ensures CommentStepOf(ps, cs, pid, me, content, now) == AddCommentTo(ps, cs, pid, p, Comment(pid, me, content.value, 0, now))
  {
  }

  lemma CommentKeeps(ps: Table<Post>, ls: Table<Like>, cs: Table<Comment>, pid: nat, p: Post, c: Comment)
    requires Inv(ps, ls, cs) && Row(pid, p) in ps.rows && c.postId == pid
    ensures Inv(WithComments(ps, pid, p.commentsCount + 1), ls, cs.Insert(c))
    ensures p.commentsCount == Count(cs.rows, CommentOn(pid))
    ensures Count(cs.Insert(c).rows, CommentOn(pid)) == p.commentsCount + 1
  {
    var row := Row(cs.next, c);
    var cs2 := cs.Insert(c);
    var f := SetComments(p.commentsCount + 1);
    forall h ensures Count(cs2.rows, CommentOn(h)) == Count(cs.rows, CommentOn(h)) + (if h == pid then 1 else 0) {
      CountAppend(cs.rows, row, CommentOn(h));
    }
    ModifyKeepsIds(ps.rows, IdIs(pid), f, ps.next);
    CountsAfter(ps.rows, CommentsCount, f, p.commentsCount + 1, cs.rows, cs2.rows, CommentOn, Row(pid, p));
    CountsAfterPatch(ps.rows, LikesCount, f, pid, ls.rows, LikeOn);
    assert RefersBelow(cs2.rows, CommentOn, ps.next) by {
      var i :| 0 <= i < |ps.rows| && ps.rows[i] == Row(pid, p);
      RefersAppend(cs.rows, CommentOn, ps.next, row);
    }
  }

  /** Adding a comment keeps the invariant. */
  lemma CommentStepKeeps(ps: Table<Post>, ls: Table<Like>, cs: Table<Comment>, pid: nat, me: nat, content: Option<string>, now: int)
    requires Inv(ps, ls, cs)
    ensures var r := CommentStepOf(ps, cs, pid, me, content, now);
      Inv(r.posts, ls, r.comments)
  {
    if Given(content) && ps.Get(pid).Some? {
      var p := ps.Get(pid).value;
      CommentIs(ps, cs, pid, me, content, now, p);
      CommentKeeps(ps, ls, cs, pid, p, Comment(pid, me, content.value, 0, now));
    }
  }

  /** A comment that passes the checks appends exactly one row, and the post's count goes up by
      one, to the new number of its comments; no other post changes. */
  lemma CommentAdds(ps: Table<Post>, ls: Table<Like>, cs: Table<Comment>, pid: nat, me: nat, content: Option<string>, now: int, p: Post)
    requires Inv(ps, ls, cs) && Given(content) && ps.Get(pid) == Some(p)
    ensures var r := CommentStepOf(ps, cs, pid, me, content, now);
      && r.comments.rows == cs.rows + [Row(cs.next, Comment(pid, me, content.value, 0, now))]
      && r.posts.Get(pid) == Some(p.(commentsCount := p.commentsCount + 1))
      && p.commentsCount + 1 == Count(r.comments.rows, CommentOn(pid))
      && (forall h :: h != pid ==> r.posts.Get(h) == ps.Get(h))
  {
    var c := Comment(pid, me, content.value, 0, now);
    CommentIs(ps, cs, pid, me, content, now, p);
    assert Count(cs.Insert(c).rows, CommentOn(pid)) == p.commentsCount + 1 by {
      CommentKeeps(ps, ls, cs, pid, p, c);
    }
    ModifyOne(ps.rows, pid, SetComments(p.commentsCount + 1), p);
  }

  method AddComment(db: Db, me: nat, pid: nat, content: Option<string>, now: int) returns (st: Status)
    requires Consistent(db)
    modifies db`posts, db`comments
    ensures Consistent(db)
    ensures CommentStep(st, db.posts, db.comments) == CommentStepOf(old(db.posts), old(db.comments), pid, me, content, now)
  {
    var r := CommentStepOf(db.posts, db.comments, pid, me, content, now);
    CommentStepKeeps(db.posts, db.likes, db.comments, pid, me, content, now);
    db.posts, db.comments := r.posts, r.comments;
    st := r.st;
  }

  // ---------------------------------------------------------------------------
  // GET /, GET /:id and GET /:id/comments

  function PostTime(x: PostRow): int {
    x.val.createdAt
  }

  function CommentTime(x: CommentRow): int {
    x.val.createdAt
  }

  /** `where: { group_id: groupId }` when a group is asked for, every post otherwise. */
  function InFeed(groupId: Option<nat>): PostRow -> bool {
    (x: PostRow) => groupId.None? || x.val.groupId == groupId
  }

  datatype Pagination = Pagination(page: int, limit: int, total: nat, totalPages: int)

  /** GET /: one page of the posts (of one group, when asked), newest first, and the paging
      figures: `total` counts every matching post and `totalPages` is `ceil(total / limit)`. */
  function ListPosts(rows: seq<PostRow>, page: Option<int>, limit: Option<int>, groupId: Option<nat>): (r: (seq<PostRow>, Pagination))
    ensures forall x :: x in r.0 ==> x in rows && InFeed(groupId)(x)
    ensures SortedDesc(r.0, PostTime)
    ensures r.1 == PaginationFor(PagingOf(page, limit), Count(rows, InFeed(groupId)))
  {
    var p := PagingOf(page, limit);
    var matching := Select(rows, InFeed(groupId));
    var sorted := SortDesc(matching, PostTime);
    var w := Window(sorted, p.offset, p.limit);
    WindowMembers(sorted, p.offset, p.limit);
    WindowDesc(sorted, PostTime, p.offset, p.limit);
    SameMembers(sorted, matching);
    (w, PaginationFor(p, |matching|))
  }

  /** The paging figures for `total` matching posts: the page and limit asked for, the total,
      and `ceil(total / limit)` pages, the fewest that hold them all. */
  function PaginationFor(p: Paging, total: nat): (g: Pagination)
    requires p.limit != 0
    ensures g.page == p.page && g.limit == p.limit && g.total == total
    ensures g.limit > 0 ==> (g.totalPages - 1) * g.limit < total <= g.totalPages * g.limit
  {
    Pagination(p.page, p.limit, total, TotalPages(total, p.limit))
  }

  /** A page holds at most `limit` posts, and the first page with a limit that covers the
      total holds every matching post. */
  lemma ListPostsWindow(rows: seq<PostRow>, page: Option<int>, limit: Option<int>, groupId: Option<nat>)
    ensures var p := PagingOf(page, limit); var r := ListPosts(rows, page, limit, groupId);
      && |r.0| <= (if p.limit < 0 then 0 else p.limit)
      && (p.offset == 0 && p.limit >= r.1.total ==> multiset(r.0) == multiset(Select(rows, InFeed(groupId))))
  {
    var p := PagingOf(page, limit);
    var matching := Select(rows, InFeed(groupId));
    ListPostsPage(rows, page, limit, groupId);
    WindowAll(SortDesc(matching, PostTime), matching, p.offset, p.limit);
  }

  /** Asking for pages 1 to `totalPages` with a positive limit reaches every matching post. */
  lemma EveryPostOnSomePage(rows: seq<PostRow>, limit: int, groupId: Option<nat>, x: PostRow)
    requires limit > 0 && x in rows && InFeed(groupId)(x)
    ensures exists page :: 1 <= page <= ListPosts(rows, None, Some(limit), groupId).1.totalPages
                        && x in ListPosts(rows, Some(page), Some(limit), groupId).0
  {
    var matching := Select(rows, InFeed(groupId));
    var sorted := SortDesc(matching, PostTime);
    SameMembers(sorted, matching);
    assert |sorted| == |multiset(sorted)| == |matching|;
    OnSomePage(sorted, limit, x);
    var page :| 1 <= page <= TotalPages(|sorted|, limit) && x in Window(sorted, PagingOf(Some(page), Some(limit)).offset, limit);
    ListPostsPage(rows, Some(page), Some(limit), groupId);
  }

  /** The posts of a page are the window of the sorted matching posts that the page selects. */
  lemma ListPostsPage(rows: seq<PostRow>, page: Option<int>, limit: Option<int>, groupId: Option<nat>)
    ensures var p := PagingOf(page, limit);
      ListPosts(rows, page, limit, groupId).0 == Window(SortDesc(Select(rows, InFeed(groupId)), PostTime), p.offset, p.limit)
  {
  }

  /** GET /:id: the post with this id, or 404. */
  function GetPost(rows: seq<PostRow>, pid: nat): (r: (Status, Option<PostRow>))
    ensures r.0 == NotFound <==> !HasId(rows, pid)
    ensures r.0 == Ok <==> HasId(rows, pid)
    ensures r.1.Some? <==> r.0 == Ok
    ensures r.1.Some? ==> r.1.value in rows && r.1.value.id == pid
  {
    match GetIn(rows, pid)
    case None => (NotFound, None)
    case Some(v) => (Ok, Some(Row(pid, v)))
  }

  /** GET /:id/comments: 404 for a missing post; otherwise one page of its comments, oldest
      first. */
  function ListComments(ps: seq<PostRow>, cs: seq<CommentRow>, pid: nat, page: Option<int>, limit: Option<int>): (r: (Status, seq<CommentRow>))
    ensures r.0 == NotFound <==> !HasId(ps, pid)
    ensures r.0 != NotFound ==> r.0 == Ok
    ensures r.0 == NotFound ==> r.1 == []
    ensures forall x :: x in r.1 ==> x in cs && x.val.postId == pid
    ensures SortedAsc(r.1, CommentTime)
    ensures var p := PagingOf(page, limit);
      && |r.1| <= (if p.limit < 0 then 0 else p.limit)
      && (HasId(ps, pid) && p.offset == 0 && p.limit >= Count(cs, CommentOn(pid)) ==>
            multiset(r.1) == multiset(Select(cs, CommentOn(pid))))
  {
    if !HasId(ps, pid) then (NotFound, [])
    else
      var p := PagingOf(page, limit);
      var all := Select(cs, CommentOn(pid));
      var sorted := SortAsc(all, CommentTime);
      var w := Window(sorted, p.offset, p.limit);
      WindowMembers(sorted, p.offset, p.limit);
      WindowAll(sorted, all, p.offset, p.limit);
      WindowAsc(sorted, CommentTime, p.offset, p.limit);
      SameMembers(sorted, all);
      (Ok, w)
  }

  /** A page of comments is the window that the page selects of the post's comments, oldest
      first. */
  lemma CommentsPage(ps: seq<PostRow>, cs: seq<CommentRow>, pid: nat, page: Option<int>, limit: Option<int>)
    requires HasId(ps, pid)
    ensures var p := PagingOf(page, limit);
      ListComments(ps, cs, pid, page, limit).1 == Window(SortAsc(Select(cs, CommentOn(pid)), CommentTime), p.offset, p.limit)
  {
  }

  /** With a positive limit, every comment of an existing post is on one of the pages 1 to
      `ceil(count / limit)`. */
  lemma EveryCommentOnSomePage(ps: seq<PostRow>, cs: seq<CommentRow>, pid: nat, limit: int, x: CommentRow)
    requires HasId(ps, pid) && limit > 0 && x in cs && x.val.postId == pid
    ensures exists page :: 1 <= page <= TotalPages(Count(cs, CommentOn(pid)), limit)
                        && x in ListComments(ps, cs, pid, Some(page), Some(limit)).1
  {
    var all := Select(cs, CommentOn(pid));
    var sorted := SortAsc(all, CommentTime);
    SameMembers(sorted, all);
    assert |sorted| == |multiset(sorted)| == |all|;
    OnSomePage(sorted, limit, x);
    var page :| 1 <= page <= TotalPages(|sorted|, limit) && x in Window(sorted, PagingOf(Some(page), Some(limit)).offset, limit);
    CommentsPage(ps, cs, pid, Some(page), Some(limit));
  }
}
