/** Accounts (api/routes/auth.js): registration with its validation order and defaults, login
    with its checks, password change, and the partial profile update. Hashing a password and
    checking one against a hash are function parameters: the model knows nothing of bcrypt. */
module Auth {
  import opened Common
  import opened Tables
  import opened Store

  type UserRow = Row<User>

  const MinPasswordLength := 6

  const RegisterFieldsRequired := "Username, email, and password are required"
  const PasswordTooShort := "Password must be at least 6 characters long"
  const EmailInUse := "User with this email already exists"
  const UsernameInUse := "Username already taken"
  const Registered := "User registered successfully"
  const LoginFieldsRequired := "Email and password are required"
  const InvalidCredentials := "Invalid email or password"
  const AccountDeactivated := "Account is deactivated"
  const LoggedIn := "Login successful"
  const PasswordsRequired := "Current password and new password are required"
  const NewPasswordTooShort := "New password must be at least 6 characters long"
  const CurrentPasswordWrong := "Current password is incorrect"
  const PasswordChanged := "Password changed successfully"

  function Email(u: User): string { u.email }
  function Username(u: User): string { u.username }
  function ProfileOwner(p: Profile): nat { p.userId }
  function SettingsOwner(s: Settings): nat { s.userId }

  /** `where user_id = u` on profiles */
  function ProfileOf(u: nat): Row<Profile> -> bool {
    KeyIs(ProfileOwner, u)
  }

  /** `where user_id = u` on user_settings */
  function SettingsOf(u: nat): Row<Settings> -> bool {
    KeyIs(SettingsOwner, u)
  }

  /** Every row belongs to a user id the users table has already handed out. */
  ghost predicate OwnersBelow<T>(rows: seq<Row<T>>, owner: T -> nat, bound: nat) {
    forall i :: 0 <= i < |rows| ==> owner(rows[i].val) < bound
  }

  /** What the account routes keep true of the store: emails and usernames are unique, and
      each user has at most one profile and one settings row. */
  ghost predicate Inv(db: Db)
    reads db
  {
    && db.users.Valid() && db.profiles.Valid() && db.settings.Valid()
    && KeyUnique(db.users.rows, Email) && KeyUnique(db.users.rows, Username)
    && KeyUnique(db.profiles.rows, ProfileOwner) && KeyUnique(db.settings.rows, SettingsOwner)
    && OwnersBelow(db.profiles.rows, ProfileOwner, db.users.next)
    && OwnersBelow(db.settings.rows, SettingsOwner, db.users.next)
  }

  /** Some account already uses this email. */
  predicate EmailTaken(rows: seq<UserRow>, e: string) {
    exists x :: x in rows && x.val.email == e
  }

  /** Some account already uses this username. */
  predicate UsernameTaken(rows: seq<UserRow>, n: string) {
    exists x :: x in rows && x.val.username == n
  }

  // ---------------------------------------------------------------------------
  // What a response may show of a user

  /** A user as the routes send it back: every column except `password_hash`. */
  datatype PublicUser = PublicUser(
    id: nat,
    username: string,
    email: string,
    role: string,
    isActive: bool,
    emailVerified: bool,
    lastLogin: Option<int>)

  /** `delete user.password_hash` */
  function Public(x: UserRow): PublicUser {
    PublicUser(x.id, x.val.username, x.val.email, x.val.role, x.val.isActive, x.val.emailVerified, x.val.lastLogin)
  }

  /** Two users look the same in a response exactly when they differ at most in their hash. */
  lemma PublicHidesOnlyTheHash(a: UserRow, b: UserRow)
    ensures Public(a) == Public(b) <==> a.id == b.id && a.val.(passwordHash := b.val.passwordHash) == b.val
  {
  }

  // ---------------------------------------------------------------------------
  // POST /register

  /** The new account: role 'user', active, email not verified, never logged in. */
  function NewUser(username: string, email: string, passwordHash: string): (u: User)
    ensures u.username == username && u.email == email && u.passwordHash == passwordHash
    ensures u.role == "user" && u.isActive && !u.emailVerified && u.lastLogin.None?
  {
    User(username, email, passwordHash, "user", true, false, None)
  }

  /** The new profile: the full name defaults to the username, and the profile is public. */
  function NewProfile(uid: nat, username: string, fullName: Option<string>): (p: Profile)
    ensures p.userId == uid && p.privacy == "public"
    ensures Given(fullName) ==> p.fullName == fullName
    ensures !Given(fullName) ==> p.fullName == Some(username)
    ensures p.bio.None? && p.location.None? && p.website.None? && p.gender.None?
    ensures p.phone.None? && p.birthday.None? && p.avatarUrl.None? && p.coverUrl.None?
  {
    Profile(uid, Some(OrElse(fullName, username)), None, None, None, None, None, None, None, None, "public")
  }

  /** The fixed settings every new account starts with. */
  function DefaultSettings(uid: nat): (s: Settings)
    ensures s.userId == uid && s.emailNotifications && s.pushNotifications
    ensures s.profileVisibility == "public" && s.postVisibility == "public"
    ensures s.theme == "light" && s.language == "en" && s.timezone == "UTC"
  {
    Settings(uid, true, true, "public", "public", "light", "en", "UTC")
  }

  /** POST /register: the three fields are required and the password must be long enough,
      both before the store is read; a taken email is reported before a taken username.
      On success the user, profile and settings rows are inserted in that order. */
  method Register(db: Db, username: Option<string>, email: Option<string>, password: Option<string>,
                  fullName: Option<string>, hash: string -> string)
    returns (st: Status, msg: string, user: Option<PublicUser>)
    requires Inv(db)
    modifies db`users, db`profiles, db`settings
    ensures Inv(db)
    ensures !(Given(username) && Given(email) && Given(password)) ==> st == BadRequest && msg == RegisterFieldsRequired
    ensures Given(username) && Given(email) && Given(password) && |password.value| < MinPasswordLength ==>
      st == BadRequest && msg == PasswordTooShort
    ensures Given(username) && Given(email) && Given(password) && |password.value| >= MinPasswordLength
            && EmailTaken(old(db.users.rows), email.value) ==>
      st == BadRequest && msg == EmailInUse
    ensures Given(username) && Given(email) && Given(password) && |password.value| >= MinPasswordLength
            && !EmailTaken(old(db.users.rows), email.value) && UsernameTaken(old(db.users.rows), username.value) ==>
      st == BadRequest && msg == UsernameInUse
    ensures st == Created <==>
      && Given(username) && Given(email) && Given(password) && |password.value| >= MinPasswordLength
      && !EmailTaken(old(db.users.rows), email.value) && !UsernameTaken(old(db.users.rows), username.value)
    ensures st != Created ==>
      && st == BadRequest && user.None?
      && db.users == old(db.users) && db.profiles == old(db.profiles) && db.settings == old(db.settings)
    ensures st == Created ==>
      var uid := old(db.users.next);
      var u := NewUser(username.value, email.value, hash(password.value));
      && msg == Registered
      && user == Some(Public(Row(uid, u)))
      && db.users == old(db.users).Insert(u)
      && db.profiles == old(db.profiles).Insert(NewProfile(uid, username.value, fullName))
      && db.settings == old(db.settings).Insert(DefaultSettings(uid))
  {
    if !Given(username) || !Given(email) || !Given(password) {
      return BadRequest, RegisterFieldsRequired, None;
    }
    if |password.value| < MinPasswordLength {
      return BadRequest, PasswordTooShort, None;
    }
    var byEmail := First(db.users.rows, KeyIs(Email, email.value));
    FirstByKey(db.users.rows, Email, email.value);
    if byEmail.Some? {
      return BadRequest, EmailInUse, None;
    }
    var byName := First(db.users.rows, KeyIs(Username, username.value));
    FirstByKey(db.users.rows, Username, username.value);
    if byName.Some? {
      return BadRequest, UsernameInUse, None;
    }
    var uid := db.users.next;
    var u := NewUser(username.value, email.value, hash(password.value));
    InsertKeepsInv(db, u, username.value, fullName);
    db.users := db.users.Insert(u);
    db.profiles := db.profiles.Insert(NewProfile(uid, username.value, fullName));
    db.settings := db.settings.Insert(DefaultSettings(uid));
    return Created, Registered, Some(Public(Row(uid, u)));
  }

  /** The three inserts of a registration keep the account invariant. */
  lemma InsertKeepsInv(db: Db, u: User, username: string, fullName: Option<string>)
    requires Inv(db)
    requires !EmailTaken(db.users.rows, u.email) && !UsernameTaken(db.users.rows, u.username)
    ensures var uid := db.users.next;
      var users := db.users.Insert(u);
      var profiles := db.profiles.Insert(NewProfile(uid, username, fullName));
      var settings := db.settings.Insert(DefaultSettings(uid));
      && users.Valid() && profiles.Valid() && settings.Valid()
      && KeyUnique(users.rows, Email) && KeyUnique(users.rows, Username)
      && KeyUnique(profiles.rows, ProfileOwner) && KeyUnique(settings.rows, SettingsOwner)
      && OwnersBelow(profiles.rows, ProfileOwner, users.next)
      && OwnersBelow(settings.rows, SettingsOwner, users.next)
  {
    var uid := db.users.next;
    var x := Row(uid, u);
    UniqueAppend(db.users.rows, x, Email);
    UniqueAppend(db.users.rows, x, Username);
    forall y | y in db.profiles.rows ensures ProfileOwner(y.val) != uid {
      var i :| 0 <= i < |db.profiles.rows| && db.profiles.rows[i] == y;
    }
    UniqueAppend(db.profiles.rows, Row(db.profiles.next, NewProfile(uid, username, fullName)), ProfileOwner);
    forall y | y in db.settings.rows ensures SettingsOwner(y.val) != uid {
      var i :| 0 <= i < |db.settings.rows| && db.settings.rows[i] == y;
    }
    UniqueAppend(db.settings.rows, Row(db.settings.next, DefaultSettings(uid)), SettingsOwner);
  }

  // ---------------------------------------------------------------------------
  // POST /login

  /** The answer to a login attempt, and the matching account when it succeeds. */
  datatype LoginOutcome = LoginOutcome(st: Status, msg: string, user: Option<UserRow>)

  /** The checks of POST /login, in order: both fields, an account with that email, an active
      account, and a password that matches its hash. */
  function Authenticate(rows: seq<UserRow>, email: Option<string>, password: Option<string>,
                        verify: (string, string) -> bool): (r: LoginOutcome)
    ensures r.st == Ok <==> r.user.Some?
    ensures r.st != Ok ==> r.st == BadRequest || r.st == Unauthorized
    ensures !Given(email) || !Given(password) ==> r.st == BadRequest && r.msg == LoginFieldsRequired
    ensures Given(email) && Given(password) && !EmailTaken(rows, email.value) ==>
      r.st == Unauthorized && r.msg == InvalidCredentials
    ensures r.user.Some? ==>
      && r.msg == LoggedIn && r.user.value in rows && r.user.value.val.email == email.value
      && r.user.value.val.isActive && verify(password.value, r.user.value.val.passwordHash)
  {
    if !Given(email) || !Given(password) then LoginOutcome(BadRequest, LoginFieldsRequired, None)
    else
      match First(rows, KeyIs(Email, email.value))
      case None => LoginOutcome(Unauthorized, InvalidCredentials, None)
      case Some(x) =>
        if !x.val.isActive then LoginOutcome(Unauthorized, AccountDeactivated, None)
        else if !verify(password.value, x.val.passwordHash) then LoginOutcome(Unauthorized, InvalidCredentials, None)
        else LoginOutcome(Ok, LoggedIn, Some(x))
  }

  /** With unique emails, the account that owns the email decides the answer: deactivated is
      reported whatever the password, a wrong password gets the same message as an unknown
      email, and otherwise that account is logged in. */
  lemma AuthenticateAccount(rows: seq<UserRow>, x: UserRow, password: string, verify: (string, string) -> bool)
    requires KeyUnique(rows, Email) && x in rows && x.val.email != "" && password != ""
    ensures var r := Authenticate(rows, Some(x.val.email), Some(password), verify);
      && (!x.val.isActive ==> r.st == Unauthorized && r.msg == AccountDeactivated)
      && (x.val.isActive && !verify(password, x.val.passwordHash) ==> r.st == Unauthorized && r.msg == InvalidCredentials)
      && (x.val.isActive && verify(password, x.val.passwordHash) ==> r.st == Ok && r.user == Some(x))
  {
    var found := First(rows, KeyIs(Email, x.val.email));
    assert KeyIs(Email, x.val.email)(x);
    KeyDeterminesRow(rows, Email, found.value, x);
  }

  /** `update({ last_login })` */
  function LoggedInAt(now: int): User -> User {
    (u: User) => u.(lastLogin := Some(now))
  }

  /** POST /login: a refused attempt writes nothing; a successful one records the login time on
      that account alone and answers with the account as it was read, without its hash. */
  method Login(db: Db, email: Option<string>, password: Option<string>, verify: (string, string) -> bool, now: int)
    returns (st: Status, msg: string, user: Option<PublicUser>)
    requires Inv(db)
    modifies db`users
    ensures Inv(db)
    ensures var a := Authenticate(old(db.users.rows), email, password, verify);
      && st == a.st && msg == a.msg
      && (a.user.None? ==> user.None? && db.users == old(db.users))
      && (a.user.Some? ==>
            && user == Some(Public(a.user.value))
            && db.users == old(db.users).WithRows(Modify(old(db.users.rows), IdIs(a.user.value.id), LoggedInAt(now))))
  {
    var a := Authenticate(db.users.rows, email, password, verify);
    if a.user.None? {
      return a.st, a.msg, None;
    }
    var x := a.user.value;
    ModifyKeepsIds(db.users.rows, IdIs(x.id), LoggedInAt(now), db.users.next);
    UniqueModify(db.users.rows, IdIs(x.id), LoggedInAt(now), Email);
    UniqueModify(db.users.rows, IdIs(x.id), LoggedInAt(now), Username);
    db.users := db.users.WithRows(Modify(db.users.rows, IdIs(x.id), LoggedInAt(now)));
    return a.st, a.msg, Some(Public(x));
  }

  /** A login changes that account's last-login time and nothing else in the users table. */
  lemma LoginTouchesOnlyLastLogin(t: Table<User>, x: UserRow, now: int)
    requires t.Valid() && x in t.rows
    ensures var r := Modify(t.rows, IdIs(x.id), LoggedInAt(now));
      && GetIn(r, x.id) == Some(x.val.(lastLogin := Some(now)))
      && forall h :: h != x.id ==> GetIn(r, h) == GetIn(t.rows, h)
  {
    ModifyOne(t.rows, x.id, LoggedInAt(now), x.val);
  }

  /** Whoever registers can log in at once with the same email and password, provided the
      password check accepts what the hash produced. */
  lemma RegisteredCanLogIn(t: Table<User>, username: string, email: string, password: string,
                           hash: string -> string, verify: (string, string) -> bool)
    requires t.Valid() && KeyUnique(t.rows, Email) && !EmailTaken(t.rows, email)
    requires email != "" && password != "" && verify(password, hash(password))
    ensures Authenticate(t.Insert(NewUser(username, email, hash(password))).rows, Some(email), Some(password), verify).user
            == Some(Row(t.next, NewUser(username, email, hash(password))))
  {
    var x := Row(t.next, NewUser(username, email, hash(password)));
    UniqueAppend(t.rows, x, Email);
    assert x in t.rows + [x];
    AuthenticateAccount(t.rows + [x], x, password, verify);
  }

  // ---------------------------------------------------------------------------
  // PUT /change-password

  /** `update({ password_hash })` */
  function WithHash(h: string): User -> User {
    (u: User) => u.(passwordHash := h)
  }

  /** PUT /change-password: both fields are required and the new password must be long
      enough; the current password must match the stored hash (a missing account makes the
      route fail with 500); only then is the new hash written, on that account alone. */
  method ChangePassword(db: Db, me: nat, current: Option<string>, newPassword: Option<string>,
                        verify: (string, string) -> bool, hash: string -> string)
    returns (st: Status, msg: string)
    requires Inv(db)
    modifies db`users
    ensures Inv(db)
    ensures !Given(current) || !Given(newPassword) ==> st == BadRequest && msg == PasswordsRequired
    ensures Given(current) && Given(newPassword) && |newPassword.value| < MinPasswordLength ==>
      st == BadRequest && msg == NewPasswordTooShort
    ensures Given(current) && Given(newPassword) && |newPassword.value| >= MinPasswordLength && !HasId(old(db.users.rows), me) ==>
      st == ServerError
    ensures Given(current) && Given(newPassword) && |newPassword.value| >= MinPasswordLength && HasId(old(db.users.rows), me)
            && !verify(current.value, GetIn(old(db.users.rows), me).value.passwordHash) ==>
      st == Unauthorized && msg == CurrentPasswordWrong
    ensures st == Ok <==>
      && Given(current) && Given(newPassword) && |newPassword.value| >= MinPasswordLength && HasId(old(db.users.rows), me)
      && verify(current.value, GetIn(old(db.users.rows), me).value.passwordHash)
    ensures st != Ok ==> db.users == old(db.users)
    ensures st == Ok ==>
      msg == PasswordChanged
      && db.users == old(db.users).WithRows(Modify(old(db.users.rows), IdIs(me), WithHash(hash(newPassword.value))))
  {
    if !Given(current) || !Given(newPassword) {
      return BadRequest, PasswordsRequired;
    }
    if |newPassword.value| < MinPasswordLength {
      return BadRequest, NewPasswordTooShort;
    }
    var found := db.users.Get(me);
    if found.None? {
      return ServerError, "Internal server error";
    }
    if !verify(current.value, found.value.passwordHash) {
      return Unauthorized, CurrentPasswordWrong;
    }
    var h := hash(newPassword.value);
    ModifyKeepsIds(db.users.rows, IdIs(me), WithHash(h), db.users.next);
    UniqueModify(db.users.rows, IdIs(me), WithHash(h), Email);
    UniqueModify(db.users.rows, IdIs(me), WithHash(h), Username);
    db.users := db.users.WithRows(Modify(db.users.rows, IdIs(me), WithHash(h)));
    return Ok, PasswordChanged;
  }

  /** After a password change on an active account, logging in with the new password succeeds,
      provided the password check accepts what the hash produced. */
  lemma NewPasswordLogsIn(t: Table<User>, me: nat, x: User, password: string,
                          hash: string -> string, verify: (string, string) -> bool)
    requires t.Valid() && KeyUnique(t.rows, Email) && t.Get(me) == Some(x)
    requires x.isActive && x.email != "" && password != "" && verify(password, hash(password))
    ensures var r := Modify(t.rows, IdIs(me), WithHash(hash(password)));
      Authenticate(r, Some(x.email), Some(password), verify).user == Some(Row(me, x.(passwordHash := hash(password))))
  {
    var r := Modify(t.rows, IdIs(me), WithHash(hash(password)));
    UniqueModify(t.rows, IdIs(me), WithHash(hash(password)), Email);
    ModifyOne(t.rows, me, WithHash(hash(password)), x);
    ModifyKeepsIds(t.rows, IdIs(me), WithHash(hash(password)), t.next);
    AuthenticateAccount(r, Row(me, x.(passwordHash := hash(password))), password, verify);
  }

  // ---------------------------------------------------------------------------
  // PUT /profile (and the profile half of PUT /api/settings)

  /** The profile columns a body may supply; an absent field is left as it is, and a `null`
      clears a nullable column. */
  datatype ProfileEdit = ProfileEdit(
    fullName: Nullable<string>,
    bio: Nullable<string>,
    location: Nullable<string>,
    website: Nullable<string>,
    gender: Nullable<string>,
    phone: Nullable<string>,
    birthday: Nullable<string>,
    privacy: Option<string>)
  {
    /** No field supplied: `Object.keys(profileData).length === 0` (a `null` is a key). */
    predicate IsEmpty() {
      fullName.None? && bio.None? && location.None? && website.None? && gender.None?
      && phone.None? && birthday.None? && privacy.None?
    }
  }

  /** Writes exactly the supplied fields; the owner, avatar and cover are never touched. */
  function EditProfile(p: Profile, d: ProfileEdit): (r: Profile)
    ensures r.userId == p.userId && r.avatarUrl == p.avatarUrl && r.coverUrl == p.coverUrl
    ensures r.privacy == d.privacy.GetOr(p.privacy)
    ensures d.fullName.Some? ==> r.fullName == d.fullName.value
    ensures d.fullName.None? ==> r.fullName == p.fullName
    ensures d.bio.Some? ==> r.bio == d.bio.value
    ensures d.bio.None? ==> r.bio == p.bio
    ensures d.location.Some? ==> r.location == d.location.value
    ensures d.location.None? ==> r.location == p.location
    ensures d.website.Some? ==> r.website == d.website.value
    ensures d.website.None? ==> r.website == p.website
    ensures d.gender.Some? ==> r.gender == d.gender.value
    ensures d.gender.None? ==> r.gender == p.gender
    ensures d.phone.Some? ==> r.phone == d.phone.value
    ensures d.phone.None? ==> r.phone == p.phone
    ensures d.birthday.Some? ==> r.birthday == d.birthday.value
    ensures d.birthday.None? ==> r.birthday == p.birthday
  {
    p.(fullName := Over(d.fullName, p.fullName), bio := Over(d.bio, p.bio), location := Over(d.location, p.location),
       website := Over(d.website, p.website), gender := Over(d.gender, p.gender), phone := Over(d.phone, p.phone),
       birthday := Over(d.birthday, p.birthday), privacy := d.privacy.GetOr(p.privacy))
  }

  function Edited(d: ProfileEdit): Profile -> Profile {
    (p: Profile) => EditProfile(p, d)
  }

  /** A body with no fields leaves the profile as it is. */
  lemma EmptyEditKeepsProfile(p: Profile, d: ProfileEdit)
    requires d.IsEmpty()
    ensures EditProfile(p, d) == p
  {
  }

  /** Applying an edit twice is the same as once. */
  lemma EditProfileIdempotent(p: Profile, d: ProfileEdit)
    ensures EditProfile(EditProfile(p, d), d) == EditProfile(p, d)
  {
  }

  /** Editing the rows a user owns, without changing their owner, keeps the table valid, one
      row per owner, and every owner an existing user id. */
  lemma EditKeepsOwners<T>(t: Table<T>, owner: T -> nat, me: nat, f: T -> T, bound: nat)
    requires t.Valid() && KeyUnique(t.rows, owner) && OwnersBelow(t.rows, owner, bound)
    requires forall v :: owner(f(v)) == owner(v)
    ensures var r := Modify(t.rows, KeyIs(owner, me), f);
      t.WithRows(r).Valid() && KeyUnique(r, owner) && OwnersBelow(r, owner, bound)
  {
    ModifyKeepsIds(t.rows, KeyIs(owner, me), f, t.next);
    UniqueModify(t.rows, KeyIs(owner, me), f, owner);
  }

  /** PUT /profile: the requester's profile gets exactly the supplied fields; this route
      offers no birthday. */
  method UpdateProfile(db: Db, me: nat, fullName: Nullable<string>, bio: Nullable<string>, location: Nullable<string>,
                       website: Nullable<string>, gender: Nullable<string>, phone: Nullable<string>, privacy: Option<string>)
    returns (st: Status)
    requires Inv(db)
    modifies db`profiles
    ensures Inv(db)
    ensures st == Ok
    ensures db.profiles == old(db.profiles).WithRows(
      Modify(old(db.profiles.rows), ProfileOf(me), Edited(ProfileEdit(fullName, bio, location, website, gender, phone, None, privacy))))
  {
    var d := ProfileEdit(fullName, bio, location, website, gender, phone, None, privacy);
    EditKeepsOwners(db.profiles, ProfileOwner, me, Edited(d), db.users.next);
    db.profiles := db.profiles.WithRows(Modify(db.profiles.rows, ProfileOf(me), Edited(d)));
    st := Ok;
  }

  /** With one profile per user, the profile update writes at most one row, that of `me`, and
      leaves every other row as it was. */
  lemma ProfileEditOnlyOwn(rows: seq<Row<Profile>>, me: nat, f: Profile -> Profile)
    requires KeyUnique(rows, ProfileOwner)
    ensures Count(rows, ProfileOf(me)) <= 1
    ensures var r := Modify(rows, ProfileOf(me), f);
      forall i :: 0 <= i < |rows| && rows[i].val.userId != me ==> r[i] == rows[i]
  {
    UniqueCount(rows, ProfileOwner, me);
  }
}
