/** The settings routes (api/routes/settings.js): reading the requester's settings joined with
    their account and profile, the split partial update of settings and profile, avatar and
    cover, and the notification and display subsets that refuse an empty update. Every write
    targets the rows whose `user_id` is the requester's. */
module UserSettings {
  import opened Common
  import opened Tables
  import opened Store
  import opened Auth

  // ---------------------------------------------------------------------------
  // Reads

  /** One row of the settings query: the settings, the account's username and email, and the
      profile. */
  datatype SettingsView = SettingsView(settings: Settings, username: string, email: string, profile: Profile)

  /** GET /: the inner join of the requester's settings, account and profile; no row unless
      all three exist. */
  function ViewOf(users: seq<UserRow>, profiles: seq<Row<Profile>>, settings: seq<Row<Settings>>, me: nat)
    : (r: Option<SettingsView>)
    ensures r.Some? <==>
      && (exists s :: s in settings && s.val.userId == me)
      && HasId(users, me)
      && (exists p :: p in profiles && p.val.userId == me)
    ensures r.Some? ==>
      && (exists s :: s in settings && s.val == r.value.settings)
      && r.value.settings.userId == me && r.value.profile.userId == me
      && (exists p :: p in profiles && p.val == r.value.profile)
      && GetIn(users, me).value.username == r.value.username
      && GetIn(users, me).value.email == r.value.email
  {
    var s := First(settings, SettingsOf(me));
    var p := First(profiles, ProfileOf(me));
    var u := GetIn(users, me);
    FirstByKey(settings, SettingsOwner, me);
    FirstByKey(profiles, ProfileOwner, me);
    if s.None? || u.None? || p.None? then None
    else
      Some(SettingsView(s.value.val, u.value.username, u.value.email, p.value.val))
  }

  /** GET /: 404 when the join is empty. */
  function GetSettings(users: seq<UserRow>, profiles: seq<Row<Profile>>, settings: seq<Row<Settings>>, me: nat)
    : (r: (Status, Option<SettingsView>))
    ensures r.0 == Ok || r.0 == NotFound
    ensures r.0 == NotFound <==> r.1.None?
    ensures r.0 == NotFound <==>
      || (forall s :: s in settings ==> s.val.userId != me)
      || !HasId(users, me)
      || (forall p :: p in profiles ==> p.val.userId != me)
  {
    var v := ViewOf(users, profiles, settings, me);
    (if v.None? then NotFound else Ok, v)
  }

  /** The columns GET /notifications selects. */
  datatype NotificationView = NotificationView(
    emailNotifications: bool, pushNotifications: bool, profileVisibility: string, postVisibility: string)

  /** The columns GET /display selects. */
  datatype DisplayView = DisplayView(theme: string, language: string, timezone: string)

  /** GET /notifications: the four columns of the requester's settings, 404 without a row. */
  function GetNotificationSettings(settings: seq<Row<Settings>>, me: nat): (r: (Status, Option<NotificationView>))
    ensures r.0 == NotFound <==> forall s :: s in settings ==> s.val.userId != me
    ensures r.0 == NotFound || r.0 == Ok
    ensures r.0 == Ok ==> exists s :: s in settings && s.val.userId == me && r.1 == Some(
      NotificationView(s.val.emailNotifications, s.val.pushNotifications, s.val.profileVisibility, s.val.postVisibility))
  {
    FirstByKey(settings, SettingsOwner, me);
    match First(settings, SettingsOf(me))
    case None => (NotFound, None)
    case Some(s) =>
      (Ok, Some(NotificationView(s.val.emailNotifications, s.val.pushNotifications, s.val.profileVisibility, s.val.postVisibility)))
  }

  /** GET /display: theme, language and timezone of the requester's settings, 404 without a row. */
  function GetDisplaySettings(settings: seq<Row<Settings>>, me: nat): (r: (Status, Option<DisplayView>))
    ensures r.0 == NotFound <==> forall s :: s in settings ==> s.val.userId != me
    ensures r.0 == NotFound || r.0 == Ok
    ensures r.0 == Ok ==> exists s :: s in settings && s.val.userId == me && r.1 == Some(
      DisplayView(s.val.theme, s.val.language, s.val.timezone))
  {
    FirstByKey(settings, SettingsOwner, me);
    match First(settings, SettingsOf(me))
    case None => (NotFound, None)
    case Some(s) => (Ok, Some(DisplayView(s.val.theme, s.val.language, s.val.timezone)))
  }

  // ---------------------------------------------------------------------------
  // The settings columns a body may supply

  /** The settings columns a body may supply; an absent field is left as it is. */
  datatype SettingsEdit = SettingsEdit(
    emailNotifications: Option<bool>,
    pushNotifications: Option<bool>,
    profileVisibility: Option<string>,
    postVisibility: Option<string>,
    theme: Option<string>,
    language: Option<string>,
    timezone: Option<string>)
  {
    /** No field supplied: `Object.keys(settingsData).length === 0`. */
    predicate IsEmpty() {
      emailNotifications.None? && pushNotifications.None? && profileVisibility.None? && postVisibility.None?
      && theme.None? && language.None? && timezone.None?
    }
  }

  /** Writes exactly the supplied columns; the owner never changes. */
  function EditSettings(s: Settings, d: SettingsEdit): (r: Settings)
    ensures r.userId == s.userId
    ensures r.emailNotifications == d.emailNotifications.GetOr(s.emailNotifications)
    ensures r.pushNotifications == d.pushNotifications.GetOr(s.pushNotifications)
    ensures r.profileVisibility == d.profileVisibility.GetOr(s.profileVisibility)
    ensures r.postVisibility == d.postVisibility.GetOr(s.postVisibility)
    ensures r.theme == d.theme.GetOr(s.theme)
    ensures r.language == d.language.GetOr(s.language)
    ensures r.timezone == d.timezone.GetOr(s.timezone)
    ensures d.IsEmpty() ==> r == s
  {
    Settings(s.userId, d.emailNotifications.GetOr(s.emailNotifications), d.pushNotifications.GetOr(s.pushNotifications),
             d.profileVisibility.GetOr(s.profileVisibility), d.postVisibility.GetOr(s.postVisibility),
             d.theme.GetOr(s.theme), d.language.GetOr(s.language), d.timezone.GetOr(s.timezone))
  }

  function SettingsEdited(d: SettingsEdit): Settings -> Settings {
    (s: Settings) => EditSettings(s, d)
  }

  /** Applying an edit twice is the same as once. */
  lemma EditSettingsIdempotent(s: Settings, d: SettingsEdit)
    ensures EditSettings(EditSettings(s, d), d) == EditSettings(s, d)
  {
  }

  /** With one settings row per user, an edit for `me` writes at most that one row and leaves
      every other user's settings as they were. */
  lemma SettingsEditOnlyOwn(rows: seq<Row<Settings>>, me: nat, f: Settings -> Settings)
    requires KeyUnique(rows, SettingsOwner)
    ensures Count(rows, SettingsOf(me)) <= 1
    ensures var r := Modify(rows, SettingsOf(me), f);
      forall i :: 0 <= i < |rows| && rows[i].val.userId != me ==> r[i] == rows[i]
  {
    UniqueCount(rows, SettingsOwner, me);
  }

  // ---------------------------------------------------------------------------
  // PUT /

  /** The body of PUT /: seven settings fields and eight profile fields, the profile's privacy
      under the name `profile_privacy`. */
  datatype SettingsBody = SettingsBody(
    emailNotifications: Option<bool>,
    pushNotifications: Option<bool>,
    profileVisibility: Option<string>,
    postVisibility: Option<string>,
    theme: Option<string>,
    language: Option<string>,
    timezone: Option<string>,
    fullName: Nullable<string>,
    bio: Nullable<string>,
    location: Nullable<string>,
    website: Nullable<string>,
    gender: Nullable<string>,
    phone: Nullable<string>,
    birthday: Nullable<string>,
    profilePrivacy: Option<string>)

  /** `settingsData`: the settings fields of the body. */
  function SettingsPart(b: SettingsBody): (d: SettingsEdit)
    ensures d.IsEmpty() <==>
      b.emailNotifications.None? && b.pushNotifications.None? && b.profileVisibility.None?
      && b.postVisibility.None? && b.theme.None? && b.language.None? && b.timezone.None?
  {
    SettingsEdit(b.emailNotifications, b.pushNotifications, b.profileVisibility, b.postVisibility,
                 b.theme, b.language, b.timezone)
  }

  /** `profileData`: the profile fields of the body, `profile_privacy` written to `privacy`. */
  function ProfilePart(b: SettingsBody): (d: ProfileEdit)
    ensures d.privacy == b.profilePrivacy
    ensures d.IsEmpty() <==>
      b.fullName.None? && b.bio.None? && b.location.None? && b.website.None? && b.gender.None?
      && b.phone.None? && b.birthday.None? && b.profilePrivacy.None?
  {
    ProfileEdit(b.fullName, b.bio, b.location, b.website, b.gender, b.phone, b.birthday, b.profilePrivacy)
  }

  /** Each table sees only its own fields: dropping the profile fields from a body leaves its
      settings edit as it was, and dropping the settings fields leaves its profile edit. */
  lemma HalvesAreIndependent(b: SettingsBody)
    ensures SettingsPart(b.(fullName := None, bio := None, location := None, website := None, gender := None,
                            phone := None, birthday := None, profilePrivacy := None)) == SettingsPart(b)
    ensures ProfilePart(b.(emailNotifications := None, pushNotifications := None, profileVisibility := None,
                           postVisibility := None, theme := None, language := None, timezone := None)) == ProfilePart(b)
  {
  }

  /** PUT /: the settings row is written only when the body has a settings field and the
      profile only when it has a profile field, each with exactly the supplied fields. */
  method UpdateSettings(db: Db, me: nat, b: SettingsBody) returns (st: Status)
    requires Inv(db)
    modifies db`settings, db`profiles
    ensures Inv(db)
    ensures st == Ok
    ensures SettingsPart(b).IsEmpty() ==> db.settings == old(db.settings)
    ensures !SettingsPart(b).IsEmpty() ==>
      db.settings == old(db.settings).WithRows(Modify(old(db.settings.rows), SettingsOf(me), SettingsEdited(SettingsPart(b))))
    ensures ProfilePart(b).IsEmpty() ==> db.profiles == old(db.profiles)
    ensures !ProfilePart(b).IsEmpty() ==>
      db.profiles == old(db.profiles).WithRows(Modify(old(db.profiles.rows), ProfileOf(me), Edited(ProfilePart(b))))
  {
    var settingsData := SettingsPart(b);
    if !settingsData.IsEmpty() {
      EditKeepsOwners(db.settings, SettingsOwner, me, SettingsEdited(settingsData), db.users.next);
      db.settings := db.settings.WithRows(Modify(db.settings.rows, SettingsOf(me), SettingsEdited(settingsData)));
    }
    var profileData := ProfilePart(b);
    if !profileData.IsEmpty() {
      EditKeepsOwners(db.profiles, ProfileOwner, me, Edited(profileData), db.users.next);
      db.profiles := db.profiles.WithRows(Modify(db.profiles.rows, ProfileOf(me), Edited(profileData)));
    }
    st := Ok;
  }

  // ---------------------------------------------------------------------------
  // PUT /avatar and PUT /cover

  /** `update({ avatar_url })` */
  function WithAvatar(url: string): Profile -> Profile {
    (p: Profile) => p.(avatarUrl := Some(url))
  }

  /** `update({ cover_url })` */
  function WithCover(url: string): Profile -> Profile {
    (p: Profile) => p.(coverUrl := Some(url))
  }

  /** PUT /avatar: an absent or empty URL is refused with 400 and nothing written; otherwise
      only the avatar of the requester's profile changes. */
  method UpdateAvatar(db: Db, me: nat, avatarUrl: Option<string>) returns (st: Status)
    requires Inv(db)
    modifies db`profiles
    ensures Inv(db)
    ensures !Given(avatarUrl) ==> st == BadRequest && db.profiles == old(db.profiles)
    ensures Given(avatarUrl) ==>
      st == Ok && db.profiles == old(db.profiles).WithRows(Modify(old(db.profiles.rows), ProfileOf(me), WithAvatar(avatarUrl.value)))
  {
    if !Given(avatarUrl) {
      return BadRequest;
    }
    EditKeepsOwners(db.profiles, ProfileOwner, me, WithAvatar(avatarUrl.value), db.users.next);
    db.profiles := db.profiles.WithRows(Modify(db.profiles.rows, ProfileOf(me), WithAvatar(avatarUrl.value)));
    st := Ok;
  }

  /** PUT /cover: as the avatar, on the cover column. */
  method UpdateCover(db: Db, me: nat, coverUrl: Option<string>) returns (st: Status)
    requires Inv(db)
    modifies db`profiles
    ensures Inv(db)
    ensures !Given(coverUrl) ==> st == BadRequest && db.profiles == old(db.profiles)
    ensures Given(coverUrl) ==>
      st == Ok && db.profiles == old(db.profiles).WithRows(Modify(old(db.profiles.rows), ProfileOf(me), WithCover(coverUrl.value)))
  {
    if !Given(coverUrl) {
      return BadRequest;
    }
    EditKeepsOwners(db.profiles, ProfileOwner, me, WithCover(coverUrl.value), db.users.next);
    db.profiles := db.profiles.WithRows(Modify(db.profiles.rows, ProfileOf(me), WithCover(coverUrl.value)));
    st := Ok;
  }

  /** A new avatar or cover changes that one column and keeps the rest of the profile. */
  lemma PictureOnly(p: Profile, url: string)
    ensures WithAvatar(url)(p).(avatarUrl := p.avatarUrl) == p && WithAvatar(url)(p).avatarUrl == Some(url)
    ensures WithCover(url)(p).(coverUrl := p.coverUrl) == p && WithCover(url)(p).coverUrl == Some(url)
  {
  }

  // ---------------------------------------------------------------------------
  // PUT /notifications and PUT /display

  /** The body of PUT /notifications as a settings edit: the display fields are never supplied. */
  function NotificationEdit(email: Option<bool>, push: Option<bool>, profileVisibility: Option<string>,
                            postVisibility: Option<string>): (d: SettingsEdit)
    ensures d.theme.None? && d.language.None? && d.timezone.None?
    ensures d.IsEmpty() <==> email.None? && push.None? && profileVisibility.None? && postVisibility.None?
  {
    SettingsEdit(email, push, profileVisibility, postVisibility, None, None, None)
  }

  /** The body of PUT /display as a settings edit: the notification fields are never supplied. */
  function DisplayEdit(theme: Option<string>, language: Option<string>, timezone: Option<string>): (d: SettingsEdit)
    ensures d.emailNotifications.None? && d.pushNotifications.None? && d.profileVisibility.None? && d.postVisibility.None?
    ensures d.IsEmpty() <==> theme.None? && language.None? && timezone.None?
  {
    SettingsEdit(None, None, None, None, theme, language, timezone)
  }

  /** PUT /notifications changes at most its four columns. */
  lemma NotificationEditTouchesOnlyItsFields(s: Settings, email: Option<bool>, push: Option<bool>,
                                             profileVisibility: Option<string>, postVisibility: Option<string>)
    ensures var r := EditSettings(s, NotificationEdit(email, push, profileVisibility, postVisibility));
      r.(emailNotifications := s.emailNotifications, pushNotifications := s.pushNotifications,
         profileVisibility := s.profileVisibility, postVisibility := s.postVisibility) == s
  {
  }

  /** PUT /display changes at most theme, language and timezone. */
  lemma DisplayEditTouchesOnlyItsFields(s: Settings, theme: Option<string>, language: Option<string>, timezone: Option<string>)
    ensures var r := EditSettings(s, DisplayEdit(theme, language, timezone));
      r.(theme := s.theme, language := s.language, timezone := s.timezone) == s
  {
  }

  /** PUT /notifications: 400 and nothing written when none of the four fields is supplied. */
  method UpdateNotificationSettings(db: Db, me: nat, email: Option<bool>, push: Option<bool>,
                                    profileVisibility: Option<string>, postVisibility: Option<string>)
    returns (st: Status)
    requires Inv(db)
    modifies db`settings
    ensures Inv(db)
    ensures var d := NotificationEdit(email, push, profileVisibility, postVisibility);
      && (d.IsEmpty() ==> st == BadRequest && db.settings == old(db.settings))
      && (!d.IsEmpty() ==>
            st == Ok && db.settings == old(db.settings).WithRows(Modify(old(db.settings.rows), SettingsOf(me), SettingsEdited(d))))
  {
    var d := NotificationEdit(email, push, profileVisibility, postVisibility);
    if d.IsEmpty() {
      return BadRequest;
    }
    EditKeepsOwners(db.settings, SettingsOwner, me, SettingsEdited(d), db.users.next);
    db.settings := db.settings.WithRows(Modify(db.settings.rows, SettingsOf(me), SettingsEdited(d)));
    st := Ok;
  }

  /** PUT /display: 400 and nothing written when none of theme, language, timezone is supplied. */
  method UpdateDisplaySettings(db: Db, me: nat, theme: Option<string>, language: Option<string>, timezone: Option<string>)
    returns (st: Status)
    requires Inv(db)
    modifies db`settings
    ensures Inv(db)
    ensures var d := DisplayEdit(theme, language, timezone);
      && (d.IsEmpty() ==> st == BadRequest && db.settings == old(db.settings))
      && (!d.IsEmpty() ==>
            st == Ok && db.settings == old(db.settings).WithRows(Modify(old(db.settings.rows), SettingsOf(me), SettingsEdited(d))))
  {
    var d := DisplayEdit(theme, language, timezone);
    if d.IsEmpty() {
      return BadRequest;
    }
    EditKeepsOwners(db.settings, SettingsOwner, me, SettingsEdited(d), db.users.next);
    db.settings := db.settings.WithRows(Modify(db.settings.rows, SettingsOf(me), SettingsEdited(d)));
    st := Ok;
  }
}
