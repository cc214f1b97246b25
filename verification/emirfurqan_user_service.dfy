/**
 * src/main/java/com/emirfurqan/services/UserService.java,
 * `generateStatistics`: the user count and a per-role tally. The user list
 * the DAO returns is a parameter; `None` stands for a DAO call that threw.
 * The other methods only forward to the DAO.
 */
module EmirfurqanUserService {
  import opened Results
  import opened Counting
  import EmirfurqanUser

  type User = EmirfurqanUser.User

  /** `DatabaseException`, by its message. */
  datatype DatabaseException = DatabaseException(message: string)

  /** The `totalUsers` and `roleCounts` entries. A HashMap takes a null key,
      so a user without a role is counted under `None`. */
  datatype UserStats = UserStats(totalUsers: nat, roleCounts: map<Option<string>, nat>)

  /** The role column of the user list. */
  function Roles(users: seq<User>): (r: seq<Option<string>>)
    ensures |r| == |users|
    ensures forall i :: 0 <= i < |users| ==> r[i] == users[i].userRole
  {
    if |users| == 0 then [] else Roles(users[..|users| - 1]) + [users[|users| - 1].userRole]
  }

  /** The `roleCounts.put(role, roleCounts.getOrDefault(role, 0) + 1)` loop. */
  method CountRoles(users: seq<User>) returns (counts: map<Option<string>, nat>)
    ensures counts == GroupCount(Roles(users))
  {
    counts := map[];
    var i := 0;
    while i < |users|
      invariant 0 <= i <= |users|
      invariant counts == GroupCount(Roles(users[..i]))
    {
      var role := users[i].userRole;
      CountOneMore(users, i);
      counts := counts[role := (if role in counts then counts[role] else 0) + 1];
      i := i + 1;
    }
    assert users[..i] == users;
  }

  lemma CountOneMore(users: seq<User>, i: nat)
    requires i < |users|
    ensures var m := GroupCount(Roles(users[..i]));
      var role := users[i].userRole;
      GroupCount(Roles(users[..i + 1])) == m[role := (if role in m then m[role] else 0) + 1]
  {
    var keys := Roles(users[..i + 1]);
    assert users[..i + 1][..i] == users[..i];
    assert keys[..|keys| - 1] == Roles(users[..i]);
    assert keys[|keys| - 1] == users[i].userRole;
  }

  /** A role is a key exactly when some user holds it; its value is the
      number of users holding it, at least one; the values add up to the
      number of users. */
  lemma RoleCountsAreTallies(users: seq<User>)
    ensures forall k :: k in GroupCount(Roles(users)) <==> exists u :: u in users && u.userRole == k
    ensures forall k :: k in GroupCount(Roles(users)) ==> GroupCount(Roles(users))[k] == multiset(Roles(users))[k] >= 1
    ensures SumValues(GroupCount(Roles(users))) == |users|
  {
    RoleColumnTallies(users, Roles(users));
  }

  lemma RoleColumnTallies(users: seq<User>, roles: seq<Option<string>>)
    requires |roles| == |users|
    requires forall i :: 0 <= i < |users| ==> roles[i] == users[i].userRole
    ensures forall k :: k in GroupCount(roles) <==> exists u :: u in users && u.userRole == k
    ensures forall k :: k in GroupCount(roles) ==> GroupCount(roles)[k] == multiset(roles)[k] >= 1
    ensures SumValues(GroupCount(roles)) == |users|
  {
    GroupCountIsMultiplicity(roles);
    GroupCountSum(roles);
  }

  const StatisticsFailure: string := "Failed to generate user statistics"

  /** `generateStatistics()`: any failure of the DAO call is rethrown as a
      DatabaseException with one fixed message. */
  method GenerateStatistics(found: Option<seq<User>>) returns (r: Result<UserStats, DatabaseException>)
    ensures r.Err? <==> found.None?
    ensures r.Err? ==> r.error.message == StatisticsFailure
    ensures r.Ok? ==> r.value.totalUsers == |found.value|
    ensures r.Ok? ==> r.value.roleCounts == GroupCount(Roles(found.value))
    ensures r.Ok? ==> forall k :: k in r.value.roleCounts ==> r.value.roleCounts[k] == multiset(Roles(found.value))[k]
    ensures r.Ok? ==> SumValues(r.value.roleCounts) == r.value.totalUsers
    ensures r.Ok? ==> forall k :: k in r.value.roleCounts ==> r.value.roleCounts[k] >= 1
    ensures r.Ok? ==> forall k :: k in r.value.roleCounts <==> exists u :: u in found.value && u.userRole == k
  {
    if found.None? {
      return Err(DatabaseException(StatisticsFailure));
    }
    var users := found.value;
    var counts := CountRoles(users);
    RoleCountsAreTallies(users);
    return Ok(UserStats(|users|, counts));
  }
}
