/** Albums and photos, which share the `media` table: the gallery listings with the
    private-profile rule, album creation, photo upload into one's own album, owner-only edits
    and deletion, and the album delete that takes its photos with it (api/routes/media.js). */
module Gallery {
  import opened Common
  import opened Tables
  import opened Store
  import opened Sorting
  import Users

  type MediaRow = Row<Media>

  ghost predicate Consistent(db: Db)
    reads db
  {
    db.media.Valid()
  }

  /** `where: { id, user_id: me, media_type: kind }` on `media` */
  function OwnedAs(id: nat, me: nat, kind: MediaType): MediaRow -> bool {
    (x: MediaRow) => x.id == id && x.val.userId == me && x.val.mediaType == kind
  }

  /** The record `id` exists, is of that kind, and belongs to `me`. */
  predicate Owns(rows: seq<MediaRow>, id: nat, me: nat, kind: MediaType) {
    HasId(rows, id) && GetIn(rows, id).value.userId == me && GetIn(rows, id).value.mediaType == kind
  }

  /** The ownership query finds a row exactly when the record exists, has that kind and
      belongs to the requester; a missing record and someone else's look the same to it. */
  lemma OwnershipQuery(rows: seq<MediaRow>, id: nat, me: nat, kind: MediaType)
    requires IdsIncreasing(rows)
    ensures First(rows, OwnedAs(id, me, kind)).Some? <==> Owns(rows, id, me, kind)
  {
    var q := First(rows, OwnedAs(id, me, kind));
    if q.Some? {
      var v := GetIn(rows, id).value;
      IdDeterminesRow(rows, q.value, Row(id, v));
    }
    if Owns(rows, id, me, kind) {
      var v := GetIn(rows, id).value;
      assert OwnedAs(id, me, kind)(Row(id, v));
    }
  }

  // ---------------------------------------------------------------------------
  // POST /album and POST /photo

  /** A title is required; the album has no parent album, an empty description when none is
      given, privacy 'public' when the field is left out (a `null` privacy is stored as null),
      and both timestamps set to now. */
  method CreateAlbum(db: Db, me: nat, title: Option<string>, description: Option<string>, privacy: Nullable<string>, now: int)
    returns (st: Status, aid: nat)
    requires Consistent(db)
    modifies db`media
    ensures Consistent(db)
    ensures !Given(title) ==> st == BadRequest && db.media == old(db.media)
    ensures Given(title) ==>
      && st == Created && aid == old(db.media.next)
      && db.media.rows == old(db.media.rows)
           + [Row(aid, Media(me, Album, None, Some(title.value), Some(OrElse(description, "")), None, None, None, 0,
                             privacy.GetOr(Some("public")), now, Some(now)))]
  {
    if !Given(title) {
      return BadRequest, 0;
    }
    aid := db.media.next;
    db.media := db.media.Insert(Media(me, Album, None, Some(title.value), Some(OrElse(description, "")), None, None, None, 0,
                                      privacy.GetOr(Some("public")), now, Some(now)));
    st := Created;
  }

  /** A file URL is required; a given album must be an album of the uploader (else 404 and
      nothing is stored); the photo defaults to type 'image/jpeg', size 0, no album, empty
      title and description, and privacy 'public' when the field is left out. */
  method UploadPhoto(db: Db, me: nat, albumId: Option<nat>, title: Option<string>, description: Option<string>,
                     fileUrl: Option<string>, fileType: Option<string>, fileSize: Option<int>, privacy: Nullable<string>, now: int)
    returns (st: Status, pid: nat)
    requires Consistent(db)
    modifies db`media
    ensures Consistent(db)
    ensures !Given(fileUrl) ==> st == BadRequest
    ensures Given(fileUrl) && NonZero(albumId).Some? && !Owns(old(db.media.rows), albumId.value, me, Album) ==> st == NotFound
    ensures st != Created ==> db.media == old(db.media)
    ensures Given(fileUrl) && (NonZero(albumId).Some? ==> Owns(old(db.media.rows), albumId.value, me, Album)) ==>
      && st == Created && pid == old(db.media.next)
      && db.media.rows == old(db.media.rows)
           + [Row(pid, Media(me, Photo, NonZero(albumId), Some(OrElse(title, "")), Some(OrElse(description, "")), None, fileUrl,
                             Some(OrElse(fileType, "image/jpeg")), IntOr(fileSize, 0), privacy.GetOr(Some("public")), now, None))]
  {
    if !Given(fileUrl) {
      return BadRequest, 0;
    }
    if NonZero(albumId).Some? {
      var album := First(db.media.rows, OwnedAs(albumId.value, me, Album));
      OwnershipQuery(db.media.rows, albumId.value, me, Album);
      if album.None? {
        return NotFound, 0;
      }
    }
    pid := db.media.next;
    db.media := db.media.Insert(Media(me, Photo, NonZero(albumId), Some(OrElse(title, "")), Some(OrElse(description, "")), None, fileUrl,
                                      Some(OrElse(fileType, "image/jpeg")), IntOr(fileSize, 0), privacy.GetOr(Some("public")), now, None));
    st := Created;
  }

  // ---------------------------------------------------------------------------
  // PUT /album/:albumId and PUT /photo/:photoId

  /** The `updateData` of an album edit: `updated_at` is always refreshed, the other fields
      change only when supplied (a `null` clears the column), and nothing else about the
      record changes. */
  function EditAlbum(m: Media, title: Nullable<string>, description: Nullable<string>, privacy: Nullable<string>,
                     coverUrl: Nullable<string>, now: int): (r: Media)
    ensures r.updatedAt == Some(now)
    ensures title.Some? ==> r.title == title.value
    ensures title.None? ==> r.title == m.title
    ensures description.Some? ==> r.description == description.value
    ensures description.None? ==> r.description == m.description
    ensures privacy.Some? ==> r.privacy == privacy.value
    ensures privacy.None? ==> r.privacy == m.privacy
    ensures coverUrl.Some? ==> r.coverUrl == coverUrl.value
    ensures coverUrl.None? ==> r.coverUrl == m.coverUrl
    ensures r.(title := m.title, description := m.description, privacy := m.privacy, coverUrl := m.coverUrl,
               updatedAt := m.updatedAt) == m
  {
    m.(title := Over(title, m.title), description := Over(description, m.description), privacy := Over(privacy, m.privacy),
       coverUrl := Over(coverUrl, m.coverUrl), updatedAt := Some(now))
  }

  function AlbumEdit(title: Nullable<string>, description: Nullable<string>, privacy: Nullable<string>,
                     coverUrl: Nullable<string>, now: int): Media -> Media {
    (m: Media) => EditAlbum(m, title, description, privacy, coverUrl, now)
  }

  /** An album edit with an empty body still refreshes `updated_at`, and only that. */
  lemma EmptyAlbumEdit(m: Media, now: int)
    ensures EditAlbum(m, None, None, None, None, now) == m.(updatedAt := Some(now))
  {
  }

  /** PUT /album/:albumId: only the owner's album is edited; a missing album, a photo, and
      someone else's album all give the same 404. */
  method UpdateAlbum(db: Db, me: nat, aid: nat, title: Nullable<string>, description: Nullable<string>, privacy: Nullable<string>,
                     coverUrl: Nullable<string>, now: int)
    returns (st: Status)
    requires Consistent(db)
    modifies db`media
    ensures Consistent(db)
    ensures !Owns(old(db.media.rows), aid, me, Album) ==> st == NotFound && db.media == old(db.media)
    ensures Owns(old(db.media.rows), aid, me, Album) ==>
      st == Ok && db.media == old(db.media).WithRows(Modify(old(db.media.rows), IdIs(aid), AlbumEdit(title, description, privacy, coverUrl, now)))
  {
    var album := First(db.media.rows, OwnedAs(aid, me, Album));
    OwnershipQuery(db.media.rows, aid, me, Album);
    if album.None? {
      return NotFound;
    }
    var f := AlbumEdit(title, description, privacy, coverUrl, now);
    ModifyKeepsIds(db.media.rows, IdIs(aid), f, db.media.next);
    db.media := db.media.WithRows(Modify(db.media.rows, IdIs(aid), f));
    st := Ok;
  }

  /** The `updateData` of a photo edit: title, description, privacy and album, each only when
      supplied (a `null` clears the column; an album of `Some(None)` takes the photo out of
      its album); `updated_at` is not touched. */
  function EditPhoto(m: Media, title: Nullable<string>, description: Nullable<string>, privacy: Nullable<string>,
                     albumId: Nullable<nat>): (r: Media)
    ensures title.Some? ==> r.title == title.value
    ensures title.None? ==> r.title == m.title
    ensures description.Some? ==> r.description == description.value
    ensures description.None? ==> r.description == m.description
    ensures privacy.Some? ==> r.privacy == privacy.value
    ensures privacy.None? ==> r.privacy == m.privacy
    ensures albumId.Some? ==> r.albumId == albumId.value
    ensures albumId.None? ==> r.albumId == m.albumId
    ensures r.(title := m.title, description := m.description, privacy := m.privacy, albumId := m.albumId) == m
    ensures title.None? && description.None? && privacy.None? && albumId.None? ==> r == m
  {
    m.(title := Over(title, m.title), description := Over(description, m.description), privacy := Over(privacy, m.privacy),
       albumId := Over(albumId, m.albumId))
  }

  function PhotoEdit(title: Nullable<string>, description: Nullable<string>, privacy: Nullable<string>,
                     albumId: Nullable<nat>): Media -> Media {
    (m: Media) => EditPhoto(m, title, description, privacy, albumId)
  }

  /** PUT /photo/:photoId: only the owner's photo is edited; a missing photo, an album, and
      someone else's photo all give the same 404. */
  method UpdatePhoto(db: Db, me: nat, pid: nat, title: Nullable<string>, description: Nullable<string>, privacy: Nullable<string>,
                     albumId: Nullable<nat>)
    returns (st: Status)
    requires Consistent(db)
    modifies db`media
    ensures Consistent(db)
    ensures !Owns(old(db.media.rows), pid, me, Photo) ==> st == NotFound && db.media == old(db.media)
    ensures Owns(old(db.media.rows), pid, me, Photo) ==>
      st == Ok && db.media == old(db.media).WithRows(Modify(old(db.media.rows), IdIs(pid), PhotoEdit(title, description, privacy, albumId)))
  {
    var photo := First(db.media.rows, OwnedAs(pid, me, Photo));
    OwnershipQuery(db.media.rows, pid, me, Photo);
    if photo.None? {
      return NotFound;
    }
    var f := PhotoEdit(title, description, privacy, albumId);
    ModifyKeepsIds(db.media.rows, IdIs(pid), f, db.media.next);
    db.media := db.media.WithRows(Modify(db.media.rows, IdIs(pid), f));
    st := Ok;
  }

  /** An edit changes the one record it names, as the edit function says, keeps its owner and
      kind, and changes no other record. */
  lemma EditOnlyThatRecord(t: Table<Media>, id: nat, m: Media, f: Media -> Media)
    requires t.Valid() && t.Get(id) == Some(m)
    requires forall v :: f(v).userId == v.userId && f(v).mediaType == v.mediaType
    ensures var r := t.WithRows(Modify(t.rows, IdIs(id), f));
      && r.Get(id) == Some(f(m))
      && Owns(r.rows, id, m.userId, m.mediaType)
      && forall h :: h != id ==> r.Get(h) == t.Get(h)
  {
    ModifyOne(t.rows, id, f, m);
  }

  // ---------------------------------------------------------------------------
  // DELETE /album/:albumId and DELETE /photo/:photoId

  /** `where: { album_id }` on `media` */
  function InAlbum(aid: nat): MediaRow -> bool {
    (x: MediaRow) => x.val.albumId == Some(aid)
  }

  function NotInAlbum(aid: nat): MediaRow -> bool {
    (x: MediaRow) => x.val.albumId != Some(aid)
  }

  /** The album delete: first every record filed in the album, then the album itself. What
      remains is every other record, in the same order. */
  function CascadeDelete(rows: seq<MediaRow>, aid: nat): (r: seq<MediaRow>)
    ensures forall x :: x in r <==> x in rows && x.val.albumId != Some(aid) && x.id != aid
    ensures IdsIncreasing(rows) ==> IdsIncreasing(r)
    ensures forall b: nat :: IdsBelow(rows, b) ==> IdsBelow(r, b)
  {
    Without(Select(rows, NotInAlbum(aid)), aid)
  }

  /** After the cascade no record is left in the album and the album is gone. */
  lemma NoOrphansLeft(rows: seq<MediaRow>, aid: nat)
    ensures Count(CascadeDelete(rows, aid), InAlbum(aid)) == 0
    ensures !HasId(CascadeDelete(rows, aid), aid)
  {
    var r := CascadeDelete(rows, aid);
    SelectNone(r, InAlbum(aid));
    forall i | 0 <= i < |r| ensures r[i].id != aid {
      assert r[i] in r;
    }
  }

  /** Exactly the album's records and the album itself are removed. */
  lemma CascadeRemovesAlbumAndPhotos(rows: seq<MediaRow>, aid: nat, m: Media)
    requires IdsIncreasing(rows) && Row(aid, m) in rows && m.albumId != Some(aid)
    ensures |CascadeDelete(rows, aid)| == |rows| - Count(rows, InAlbum(aid)) - 1
  {
    var kept := Select(rows, NotInAlbum(aid));
    SelectSplit(rows, InAlbum(aid), NotInAlbum(aid));
    assert Row(aid, m) in kept;
    assert HasId(kept, aid) by {
      var i :| 0 <= i < |kept| && kept[i] == Row(aid, m);
    }
  }

  /** Every row satisfies exactly one of two complementary filters. */
  lemma {:induction false} SelectSplit(rows: seq<MediaRow>, p: MediaRow -> bool, q: MediaRow -> bool)
    requires forall x :: q(x) == !p(x)
    ensures |Select(rows, p)| + |Select(rows, q)| == |rows|
  {
    if rows != [] {
      SelectSplit(rows[1..], p, q);
    }
  }

  /** DELETE /album/:albumId: only the owner may delete an album (a missing album, a photo and
      someone else's album all give 404); its records go with it. */
  method DeleteAlbum(db: Db, me: nat, aid: nat) returns (st: Status)
    requires Consistent(db)
    modifies db`media
    ensures Consistent(db)
    ensures !Owns(old(db.media.rows), aid, me, Album) ==> st == NotFound && db.media == old(db.media)
    ensures Owns(old(db.media.rows), aid, me, Album) ==>
      st == Ok && db.media == old(db.media).WithRows(CascadeDelete(old(db.media.rows), aid))
  {
    var album := First(db.media.rows, OwnedAs(aid, me, Album));
    OwnershipQuery(db.media.rows, aid, me, Album);
    if album.None? {
      return NotFound;
    }
    db.media := db.media.WithRows(Select(db.media.rows, NotInAlbum(aid)));
    db.media := db.media.WithRows(Without(db.media.rows, aid));
    st := Ok;
  }

  /** DELETE /photo/:photoId: only the owner may delete a photo; only that row goes. */
  method DeletePhoto(db: Db, me: nat, pid: nat) returns (st: Status)
    requires Consistent(db)
    modifies db`media
    ensures Consistent(db)
    ensures !Owns(old(db.media.rows), pid, me, Photo) ==> st == NotFound && db.media == old(db.media)
    ensures Owns(old(db.media.rows), pid, me, Photo) ==>
      && st == Ok && db.media == old(db.media).WithRows(Without(old(db.media.rows), pid))
      && |db.media.rows| == |old(db.media.rows)| - 1
  {
    var photo := First(db.media.rows, OwnedAs(pid, me, Photo));
    OwnershipQuery(db.media.rows, pid, me, Photo);
    if photo.None? {
      return NotFound;
    }
    db.media := db.media.WithRows(Without(db.media.rows, pid));
    st := Ok;
  }

  // ---------------------------------------------------------------------------
  // GET /albums/:userId, GET /album/:albumId and GET /photos/:userId

  function CreatedAt(x: MediaRow): int {
    x.val.createdAt
  }

  /** `where: { user_id: u, album_id: null, media_type: 'album' }` */
  function AlbumOf(u: nat): MediaRow -> bool {
    (x: MediaRow) => x.val.userId == u && x.val.albumId.None? && x.val.mediaType == Album
  }

  /** `where: { user_id: u, media_type: 'photo' }` */
  function PhotoOf(u: nat): MediaRow -> bool {
    (x: MediaRow) => x.val.userId == u && x.val.mediaType == Photo
  }

  /** `where: { album_id: aid, media_type: 'photo' }` */
  function PhotoIn(aid: nat): MediaRow -> bool {
    (x: MediaRow) => x.val.albumId == Some(aid) && x.val.mediaType == Photo
  }

  /** GET /albums/:userId: the user's top-level albums, newest first, behind the same gate as
      the profile (404 for an unknown user, 403 for a private profile seen by someone else). */
  function ListAlbums(users: seq<Row<User>>, profiles: seq<Row<Profile>>, media: seq<MediaRow>, u: nat, viewer: Option<nat>)
    : (r: (Status, seq<MediaRow>))
    ensures r.0 == Users.ViewUser(users, profiles, u, viewer)
    ensures r.0 != Ok ==> r.1 == []
    ensures r.0 == Ok ==> forall x :: x in r.1 <==>
      x in media && x.val.userId == u && x.val.albumId.None? && x.val.mediaType == Album
    ensures SortedDesc(r.1, CreatedAt)
  {
    var st := Users.ViewUser(users, profiles, u, viewer);
    if st != Ok then (st, [])
    else
      var albums := Select(media, AlbumOf(u));
      var sorted := SortDesc(albums, CreatedAt);
      SameMembers(sorted, albums);
      (Ok, sorted)
  }

  /** The owner of an existing gallery always sees it. */
  lemma OwnerSeesAlbums(users: seq<Row<User>>, profiles: seq<Row<Profile>>, media: seq<MediaRow>, u: nat)
    requires HasId(users, u)
    ensures ListAlbums(users, profiles, media, u, Some(u)).0 == Ok
  {
  }

  /** A private profile hides the whole gallery, albums and photos alike, from anyone but
      its owner. */
  lemma PrivateGalleryHidden(users: seq<Row<User>>, profiles: seq<Row<Profile>>, media: seq<MediaRow>, u: nat,
                             viewer: Option<nat>, limit: Option<int>)
    requires HasId(users, u) && viewer != Some(u)
    requires First(profiles, Users.ProfileOfUser(u)).Some? && First(profiles, Users.ProfileOfUser(u)).value.val.privacy == "private"
    ensures ListAlbums(users, profiles, media, u, viewer) == (Forbidden, [])
    ensures ListPhotos(users, profiles, media, u, viewer, limit) == (Forbidden, [])
  {
  }

  /** `where: { id: aid, media_type: 'album' }` */
  function AlbumWithId(aid: nat): MediaRow -> bool {
    (x: MediaRow) => x.id == aid && x.val.mediaType == Album
  }

  /** GET /album/:albumId: 404 when no album has this id, 403 when the album is private and the
      viewer is not its owner, otherwise the album's photos, newest first. */
  function ListAlbumPhotos(media: seq<MediaRow>, aid: nat, viewer: Option<nat>): (r: (Status, seq<MediaRow>))
    requires IdsIncreasing(media)
    ensures r.0 == NotFound <==> !(HasId(media, aid) && GetIn(media, aid).value.mediaType == Album)
    ensures r.0 == Forbidden <==>
      HasId(media, aid) && GetIn(media, aid).value.mediaType == Album && GetIn(media, aid).value.privacy == Some("private")
      && (viewer.None? || viewer.value != GetIn(media, aid).value.userId)
    ensures r.0 == NotFound || r.0 == Forbidden || r.0 == Ok
    ensures r.0 != Ok ==> r.1 == []
    ensures r.0 == Ok ==> forall x :: x in r.1 <==> x in media && x.val.albumId == Some(aid) && x.val.mediaType == Photo
    ensures SortedDesc(r.1, CreatedAt)
  {
    var album := First(media, AlbumWithId(aid));
    AlbumQuery(media, aid);
    if album.None? then (NotFound, [])
    else if album.value.val.privacy == Some("private") && (viewer.None? || viewer.value != album.value.val.userId) then (Forbidden, [])
    else
      var photos := Select(media, PhotoIn(aid));
      var sorted := SortDesc(photos, CreatedAt);
      SameMembers(sorted, photos);
      (Ok, sorted)
  }

  /** The album query finds the record with this id exactly when it is an album. */
  lemma AlbumQuery(media: seq<MediaRow>, aid: nat)
    requires IdsIncreasing(media)
    ensures First(media, AlbumWithId(aid)).Some? <==> HasId(media, aid) && GetIn(media, aid).value.mediaType == Album
    ensures First(media, AlbumWithId(aid)).Some? ==> First(media, AlbumWithId(aid)).value == Row(aid, GetIn(media, aid).value)
  {
    var q := First(media, AlbumWithId(aid));
    if q.Some? {
      IdDeterminesRow(media, q.value, Row(aid, GetIn(media, aid).value));
    }
    if HasId(media, aid) && GetIn(media, aid).value.mediaType == Album {
      assert AlbumWithId(aid)(Row(aid, GetIn(media, aid).value));
    }
  }

  /** GET /photos/:userId: the user's most recent photos, newest first, at most `limit`
      (default 20), behind the gallery gate. */
  function ListPhotos(users: seq<Row<User>>, profiles: seq<Row<Profile>>, media: seq<MediaRow>, u: nat, viewer: Option<nat>,
                      limit: Option<int>): (r: (Status, seq<MediaRow>))
    ensures r.0 == Users.ViewUser(users, profiles, u, viewer)
    ensures r.0 != Ok ==> r.1 == []
    ensures forall x :: x in r.1 ==> x in media && x.val.userId == u && x.val.mediaType == Photo
    ensures SortedDesc(r.1, CreatedAt)
    ensures |r.1| <= if IntOr(limit, 20) < 0 then 0 else IntOr(limit, 20)
    ensures r.0 == Ok && Count(media, PhotoOf(u)) <= IntOr(limit, 20) ==>
      multiset(r.1) == multiset(Select(media, PhotoOf(u)))
  {
    var st := Users.ViewUser(users, profiles, u, viewer);
    if st != Ok then (st, [])
    else
      var lim := IntOr(limit, 20);
      var photos := Select(media, PhotoOf(u));
      var sorted := SortDesc(photos, CreatedAt);
      WindowMembers(sorted, 0, lim);
      WindowAll(sorted, photos, 0, lim);
      WindowDesc(sorted, CreatedAt, 0, lim);
      SameMembers(sorted, photos);
      (Ok, Window(sorted, 0, lim))
  }

  /** The photos listed are the most recent ones: every photo of the user left off the list is
      no newer than any photo on it, and the list is as long as the limit allows. */
  lemma MostRecentPhotos(users: seq<Row<User>>, profiles: seq<Row<Profile>>, media: seq<MediaRow>, u: nat,
                         viewer: Option<nat>, limit: Option<int>)
    requires ListPhotos(users, profiles, media, u, viewer, limit).0 == Ok
    ensures var r := ListPhotos(users, profiles, media, u, viewer, limit).1;
      forall x, y :: x in r && y in media && PhotoOf(u)(y) && y !in r ==> y.val.createdAt <= x.val.createdAt
    ensures var lim := IntOr(limit, 20);
      lim >= 0 ==> |ListPhotos(users, profiles, media, u, viewer, limit).1| == if lim < Count(media, PhotoOf(u)) then lim else Count(media, PhotoOf(u))
  {
    var r := ListPhotos(users, profiles, media, u, viewer, limit).1;
    var lim := IntOr(limit, 20);
    var photos := Select(media, PhotoOf(u));
    var sorted := SortDesc(photos, CreatedAt);
    SameMembers(sorted, photos);
    assert |sorted| == |multiset(sorted)| == |photos|;
    assert r == Window(sorted, 0, lim);
    forall x, y | x in r && y in media && PhotoOf(u)(y) && y !in r
      ensures y.val.createdAt <= x.val.createdAt
    {
      TopOfDesc(sorted, CreatedAt, lim, x, y);
    }
  }
}
