/**
 * src/main/java/com/emirfurqan/models/User.java: the second tree's user
 * record. Every string setter ignores what it refuses, and the role setter
 * knows only the two roles "admin" and "user".
 */
module EmirfurqanUser {
  import opened Results
  import opened JavaText
  import opened Calendar

  datatype User = User(
    userId: Int32,
    username: Option<string>,
    passwordHash: Option<string>,
    firstName: Option<string>,
    lastName: Option<string>,
    userRole: Option<string>,
    createdAt: Option<DateTime>)

  /** `new User()` */
  const Blank: User := User(0, None, None, None, None, None, None)

  /** The only exception these methods raise: dereferencing a null hash. */
  datatype Failure = NullPointer

  function SetUserId(u: User, id: Int32): (r: User)
    ensures r.userId == id && r.(userId := u.userId) == u
  {
    u.(userId := id)
  }

  function SetUsername(u: User, v: Option<string>): (r: User)
    ensures r.(username := u.username) == u
    ensures IsPresent(v) ==> r.username == v
    ensures !IsPresent(v) ==> r == u
  {
    if v.Some? && |v.value| > 0 then u.(username := v) else u
  }

  function SetPasswordHash(u: User, v: Option<string>): (r: User)
    ensures r.(passwordHash := u.passwordHash) == u
    ensures IsPresent(v) ==> r.passwordHash == v
    ensures !IsPresent(v) ==> r == u
  {
    if v.Some? && |v.value| > 0 then u.(passwordHash := v) else u
  }

  /** No length cap in this tree. */
  function SetFirstName(u: User, v: Option<string>): (r: User)
    ensures r.(firstName := u.firstName) == u
    ensures IsPresent(v) ==> r.firstName == v
    ensures !IsPresent(v) ==> r == u
  {
    if v.Some? && |v.value| > 0 then u.(firstName := v) else u
  }

  function SetLastName(u: User, v: Option<string>): (r: User)
    ensures r.(lastName := u.lastName) == u
    ensures IsPresent(v) ==> r.lastName == v
    ensures !IsPresent(v) ==> r == u
  {
    if v.Some? && |v.value| > 0 then u.(lastName := v) else u
  }

  /** `"admin".equalsIgnoreCase(v)`; false for null. */
  predicate IsAdminName(v: Option<string>)
  {
    v.Some? && EqualsIgnoreCase("admin", v.value)
  }

  /** `"user".equalsIgnoreCase(v)`; false for null. */
  predicate IsUserName(v: Option<string>)
  {
    v.Some? && EqualsIgnoreCase("user", v.value)
  }

  /** Stores the role as given when it is "admin" or "user" in any letter
      case; ignores everything else. */
  function SetUserRole(u: User, v: Option<string>): (r: User)
    ensures r.(userRole := u.userRole) == u
    ensures IsAdminName(v) || IsUserName(v) ==> r.userRole == v
    ensures !(IsAdminName(v) || IsUserName(v)) ==> r == u
  {
    if IsAdminName(v) || IsUserName(v) then u.(userRole := v) else u
  }

  function SetCreatedAt(u: User, v: Option<DateTime>): (r: User)
    ensures r.createdAt == v && r.(createdAt := u.createdAt) == u
  {
    u.(createdAt := v)
  }

  /** `isAdmin()`: the stored role is "admin", ignoring case. */
  function IsAdmin(u: User): (r: bool)
    ensures r <==> u.userRole.Some? && ToLower(u.userRole.value) == "admin"
  {
    match u.userRole
    case None => false
    case Some(role) =>
      EqualsIgnoreCaseIsLowerEquality("admin", role);
      EqualsIgnoreCase("admin", role)
  }

  /** `validatePassword(plain)`: plain string equality with the stored hash;
      a null stored hash throws a NullPointerException. */
  function ValidatePassword(u: User, plain: Option<string>): (r: Result<bool, Failure>)
    ensures r.Err? <==> u.passwordHash.None?
    ensures r.Ok? ==> (r.value <==> plain == u.passwordHash)
  {
    match u.passwordHash
    case None => Err(NullPointer)
    case Some(h) => Ok(plain.Some? && plain.value == h)
  }

  /** A stored hash is accepted back, and only itself. */
  lemma StoredHashValidates(u: User, h: string)
    requires |h| > 0
    ensures ValidatePassword(SetPasswordHash(u, Some(h)), Some(h)) == Ok(true)
    ensures forall p :: p != h ==> ValidatePassword(SetPasswordHash(u, Some(h)), Some(p)) == Ok(false)
  {
  }

  /** The role is accepted in any letter case and only then makes the user an
      admin; the four application role names are all ignored. */
  lemma RoleSetterAllowList(u: User)
    ensures IsAdmin(SetUserRole(u, Some("Admin")))
    ensures SetUserRole(u, Some("USER")).userRole == Some("USER")
    ensures !IsAdmin(SetUserRole(Blank, Some("USER")))
    ensures SetUserRole(u, Some("MANAGER")) == u
    ensures SetUserRole(u, Some("TESTER")) == u
    ensures SetUserRole(u, Some("JUNIOR_DEVELOPER")) == u
    ensures SetUserRole(u, Some("SENIOR_DEVELOPER")) == u
    ensures SetUserRole(u, None) == u
  {
    assert ToLower("Admin") == "admin";
    assert EqualsIgnoreCase("user", "USER");
    assert ToLower("USER") != "admin";
  }

  /** After the role setter, the user is an admin exactly when the accepted
      role is "admin"; a refused role keeps the admin status. */
  lemma IsAdminAfterSetUserRole(u: User, v: Option<string>)
    ensures IsAdmin(SetUserRole(u, v)) <==> if IsAdminName(v) || IsUserName(v) then IsAdminName(v) else IsAdmin(u)
  {
  }
}
