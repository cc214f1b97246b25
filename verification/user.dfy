/**
 * main/src/models/User.java: a row of the `users` table. The login and hash
 * setters ignore null or empty input; the name setters throw
 * IllegalArgumentException instead, before assigning anything.
 */
module UserModel {
  import opened Results
  import opened JavaText
  import opened Calendar

  datatype User = User(
    userId: Int32,
    username: Option<string>,
    passwordHash: Option<string>,
    firstName: Option<string>,
    lastName: Option<string>,
    userRole: Option<string>,
    createdAt: Option<DateTime>)

  /** `new User()` */
  const Blank: User := User(0, None, None, None, None, None, None)

  /** A setter's effect: the user afterwards, and the message of the
      IllegalArgumentException it threw, if any. */
  datatype Outcome = Outcome(user: User, thrown: Option<string>)

  const MaxNameLength: nat := 50

  function SetUserId(u: User, id: Int32): (r: User)
    ensures r.userId == id && r.(userId := u.userId) == u
  {
    u.(userId := id)
  }

  /** Ignores null or empty input. */
  function SetUsername(u: User, v: Option<string>): (r: User)
    ensures r.(username := u.username) == u
    ensures IsPresent(v) ==> r.username == v
    ensures !IsPresent(v) ==> r == u
  {
    if v.Some? && |v.value| > 0 then u.(username := v) else u
  }

  /** Ignores null or empty input. */
  function SetPasswordHash(u: User, v: Option<string>): (r: User)
    ensures r.(passwordHash := u.passwordHash) == u
    ensures IsPresent(v) ==> r.passwordHash == v
    ensures !IsPresent(v) ==> r == u
  {
    if v.Some? && |v.value| > 0 then u.(passwordHash := v) else u
  }

  /** Throws on null, empty or over-long input, otherwise assigns. */
  function SetFirstName(u: User, v: Option<string>): (r: Outcome)
    ensures r.thrown.None? <==> IsPresent(v) && Utf16Length(v.value) <= MaxNameLength
    ensures r.thrown.None? ==> r.user == u.(firstName := v)
    ensures r.thrown.Some? ==> r.user == u
    ensures !IsPresent(v) ==> r.thrown == Some("First name cannot be empty")
  {
    if v.None? || |v.value| == 0 then Outcome(u, Some("First name cannot be empty"))
    else if Utf16Length(v.value) > MaxNameLength then Outcome(u, Some("First name must be at most 50 characters"))
    else Outcome(u.(firstName := v), None)
  }

  /** Throws on null, empty or over-long input, otherwise assigns. */
  function SetLastName(u: User, v: Option<string>): (r: Outcome)
    ensures r.thrown.None? <==> IsPresent(v) && Utf16Length(v.value) <= MaxNameLength
    ensures r.thrown.None? ==> r.user == u.(lastName := v)
    ensures r.thrown.Some? ==> r.user == u
    ensures !IsPresent(v) ==> r.thrown == Some("Last name cannot be empty")
  {
    if v.None? || |v.value| == 0 then Outcome(u, Some("Last name cannot be empty"))
    else if Utf16Length(v.value) > MaxNameLength then Outcome(u, Some("Last name must be at most 50 characters"))
    else Outcome(u.(lastName := v), None)
  }

  /** Any non-empty role is stored; there is no check against the role names
      at this layer. */
  function SetUserRole(u: User, v: Option<string>): (r: User)
    ensures r.(userRole := u.userRole) == u
    ensures IsPresent(v) ==> r.userRole == v
    ensures !IsPresent(v) ==> r == u
  {
    if v.Some? && |v.value| > 0 then u.(userRole := v) else u
  }

  function SetCreatedAt(u: User, v: Option<DateTime>): (r: User)
    ensures r.createdAt == v && r.(createdAt := u.createdAt) == u
  {
    u.(createdAt := v)
  }

  /** What the setters keep true of a user built with `new User()`: every
      string field is null or non-empty, and the names are at most 50 long. */
  predicate Guarded(u: User)
  {
    && (u.username.None? || IsPresent(u.username))
    && (u.passwordHash.None? || IsPresent(u.passwordHash))
    && (u.firstName.None? || (IsPresent(u.firstName) && Utf16Length(u.firstName.value) <= MaxNameLength))
    && (u.lastName.None? || (IsPresent(u.lastName) && Utf16Length(u.lastName.value) <= MaxNameLength))
    && (u.userRole.None? || IsPresent(u.userRole))
  }

  lemma SettersPreserveGuarded(u: User, v: Option<string>, t: Option<DateTime>, id: Int32)
    requires Guarded(u)
    ensures Guarded(Blank)
    ensures Guarded(SetUserId(u, id)) && Guarded(SetCreatedAt(u, t))
    ensures Guarded(SetUsername(u, v)) && Guarded(SetPasswordHash(u, v)) && Guarded(SetUserRole(u, v))
    ensures Guarded(SetFirstName(u, v).user) && Guarded(SetLastName(u, v).user)
  {
    NameSettersPreserveGuarded(u, v);
    OtherSettersPreserveGuarded(u, v, t, id);
  }

  lemma OtherSettersPreserveGuarded(u: User, v: Option<string>, t: Option<DateTime>, id: Int32)
    requires Guarded(u)
    ensures Guarded(SetUserId(u, id)) && Guarded(SetCreatedAt(u, t))
    ensures Guarded(SetUsername(u, v)) && Guarded(SetPasswordHash(u, v)) && Guarded(SetUserRole(u, v))
  {
  }

  lemma NameSettersPreserveGuarded(u: User, v: Option<string>)
    requires Guarded(u)
    ensures Guarded(SetFirstName(u, v).user) && Guarded(SetLastName(u, v).user)
  {
  }

  /** A setter that refuses its input, by ignoring it or by throwing, leaves
      every field of the user as it was. */
  lemma RejectedSetterChangesNothing(u: User, v: Option<string>)
    requires !IsPresent(v)
    ensures SetUsername(u, v) == u && SetPasswordHash(u, v) == u && SetUserRole(u, v) == u
    ensures SetFirstName(u, v).user == u && SetLastName(u, v).user == u
    ensures SetFirstName(u, v).thrown.Some? && SetLastName(u, v).thrown.Some?
  {
  }

  /** Of the setters, only the name setters throw; the 51-character name is
      the first one refused, and a character above U+FFFF counts twice. */
  lemma NameLengthLimit(u: User)
    ensures SetFirstName(u, Some(seq(50, i => 'a'))).thrown.None?
    ensures SetFirstName(u, Some(seq(51, i => 'a'))).thrown == Some("First name must be at most 50 characters")
    ensures SetFirstName(u, Some(seq(49, i => 'a') + "\U{1F600}")).thrown == Some("First name must be at most 50 characters")
  {
    Utf16LengthOfBmp(seq(50, i => 'a'));
    Utf16LengthOfBmp(seq(51, i => 'a'));
    var a := seq(49, i => 'a');
    Utf16LengthOfBmp(a);
    Utf16LengthAppend(a, '\U{1F600}');
    assert a + "\U{1F600}" == a + ['\U{1F600}'];
  }
}
