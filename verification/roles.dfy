/**
 * The role names both Application classes route on. Each converts the
 * user's role string with `toUpperCase().replace(" ", "_")` and hands it to
 * `Role.valueOf`; the enum itself (models/Role.java in either tree) is not
 * part of this model, so its constants are taken to be exactly the four
 * the routing switches name.
 */
module Roles {
  import opened Results
  import opened JavaText

  datatype Role = Tester | JuniorDeveloper | SeniorDeveloper | Manager

  /** `Role.name()`. */
  function ConstantName(role: Role): string
  {
    match role
    case Tester => "TESTER"
    case JuniorDeveloper => "JUNIOR_DEVELOPER"
    case SeniorDeveloper => "SENIOR_DEVELOPER"
    case Manager => "MANAGER"
  }

  /** `Role.valueOf(name)`; `None` where it throws IllegalArgumentException. */
  function ValueOf(name: string): (r: Option<Role>)
    ensures r.Some? ==> ConstantName(r.value) == name
    ensures r.None? <==> forall role: Role :: ConstantName(role) != name
  {
    if name == "TESTER" then Some(Tester)
    else if name == "JUNIOR_DEVELOPER" then Some(JuniorDeveloper)
    else if name == "SENIOR_DEVELOPER" then Some(SeniorDeveloper)
    else if name == "MANAGER" then Some(Manager)
    else
      NoOtherNames(name);
      None
  }

  lemma NoOtherNames(name: string)
    requires name != "TESTER" && name != "JUNIOR_DEVELOPER" && name != "SENIOR_DEVELOPER" && name != "MANAGER"
    ensures forall role: Role :: ConstantName(role) != name
  {
    forall role: Role ensures ConstantName(role) != name {
      match role
      case Tester =>
      case JuniorDeveloper =>
      case SeniorDeveloper =>
      case Manager =>
    }
  }

  /** Every constant's name is read back as that constant. */
  lemma ValueOfInvertsName(role: Role)
    ensures ValueOf(ConstantName(role)) == Some(role)
  {
  }

  /** The enum name a role string is converted to before `valueOf`. */
  function RoleKey(name: string): string
  {
    ReplaceChar(ToUpper(name), ' ', '_')
  }

  /** The role a user's role string routes to, if any. */
  function RoleOf(name: string): (r: Option<Role>)
    ensures r.Some? <==> exists role: Role :: RoleKey(name) == ConstantName(role)
    ensures r.Some? ==> RoleKey(name) == ConstantName(r.value)
  {
    var key := RoleKey(name);
    var role := ValueOf(key);
    if role.Some? then
      assert RoleKey(name) == ConstantName(role.value);
      role
    else
      role
  }

  /** Where `routeToRoleMenu` sends a user, in either tree. */
  datatype Route =
    | NullRole         // getUserRole() is null: NullPointerException escapes
    | UnknownRole      // Role.valueOf threw: "Unknown role" is printed
    | Menu(role: Role) // the role's controller runs its menu loop

  /** `Role.valueOf(user.getUserRole().toUpperCase().replace(" ", "_"))`,
      with the two ways it can fail. */
  function RouteOf(userRole: Option<string>): (r: Route)
    ensures r == NullRole <==> userRole.None?
    ensures r.Menu? <==> userRole.Some? && RoleOf(userRole.value).Some?
    ensures r.Menu? ==> RoleKey(userRole.value) == ConstantName(r.role)
  {
    match userRole
    case None => NullRole
    case Some(name) =>
      match RoleOf(name)
      case None => UnknownRole
      case Some(role) => Menu(role)
  }

  /** The role strings the add-user prompt suggests ("Tester", "Junior
      Developer", "Senior Developer", "Manager"). */
  function DisplayName(role: Role): string
  {
    match role
    case Tester => "Tester"
    case JuniorDeveloper => "Junior Developer"
    case SeniorDeveloper => "Senior Developer"
    case Manager => "Manager"
  }

  /** Each suggested role string routes to its role. */
  lemma DisplayNameRoutes(role: Role)
    ensures RoleOf(DisplayName(role)) == Some(role)
  {
    match role
    case Tester => TesterKey();
    case JuniorDeveloper => JuniorKey();
    case SeniorDeveloper => SeniorKey();
    case Manager => ManagerKey();
  }

  lemma TesterKey()
    ensures RoleKey("Tester") == "TESTER"
  {
    assert ToUpper("Tester") == "TESTER";
  }

  lemma JuniorKey()
    ensures RoleKey("Junior Developer") == "JUNIOR_DEVELOPER"
  {
    assert ToUpper("Junior Developer") == "JUNIOR DEVELOPER";
  }

  lemma SeniorKey()
    ensures RoleKey("Senior Developer") == "SENIOR_DEVELOPER"
  {
    assert ToUpper("Senior Developer") == "SENIOR DEVELOPER";
  }

  lemma ManagerKey()
    ensures RoleKey("Manager") == "MANAGER"
  {
    assert ToUpper("Manager") == "MANAGER";
  }

  /** Routing ignores case: a lower-cased role string routes the same. */
  lemma RoleOfIgnoresCase(name: string)
    ensures RoleOf(ToLower(name)) == RoleOf(name)
  {
    assert RoleKey(ToLower(name)) == RoleKey(name) by {
      forall i | 0 <= i < |name|
        ensures RoleKey(ToLower(name))[i] == RoleKey(name)[i]
      {
        var c := name[i];
        assert ToUpperChar(ToLowerChar(c)) == ToUpperChar(c);
        assert ToLowerChar(c) == ' ' <==> c == ' ';
      }
    }
  }
}
