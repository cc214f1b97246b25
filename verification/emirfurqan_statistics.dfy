/**
 * src/main/java/com/emirfurqan/services/StatisticalInfoService.java,
 * `getStatistics`: user and role totals plus the contacts born in the current
 * month. The listed users and contacts are parameters (`None` for a listing
 * that threw), and so is the current month.
 */
module EmirfurqanStatistics {
  import opened Results
  import opened Counting
  import opened EmirfurqanUserService
  import EmirfurqanContactService

  type Contact = EmirfurqanContactService.Contact

  datatype Stats = Stats(
    totalUsers: nat,
    userRoleCounts: map<Option<string>, nat>,
    totalContacts: nat,
    birthdaysThisMonth: nat)

  predicate BornInMonth(c: Contact, month: int)
  {
    c.birthDate.Some? && c.birthDate.value.month == month
  }

  function BirthdaysInMonth(contacts: seq<Contact>, month: int): nat
  {
    if |contacts| == 0 then 0
    else BirthdaysInMonth(contacts[..|contacts| - 1], month) + (if BornInMonth(contacts[|contacts| - 1], month) then 1 else 0)
  }

  /** Adding a contact adds one birthday exactly when it is born in the month. */
  lemma {:induction false} BirthdaysInMonthAppend(a: seq<Contact>, b: seq<Contact>, month: int)
    ensures BirthdaysInMonth(a + b, month) == BirthdaysInMonth(a, month) + BirthdaysInMonth(b, month)
  {
    if |b| == 0 {
      assert a + b == a;
    } else {
      assert (a + b)[..|a + b| - 1] == a + b[..|b| - 1];
      BirthdaysInMonthAppend(a, b[..|b| - 1], month);
    }
  }

  /** Every contact counted has a birth date in the month, so the count is
      at most the number of contacts, and zero when nobody is born then. */
  lemma {:induction false} BirthdaysInMonthBounds(contacts: seq<Contact>, month: int)
    ensures BirthdaysInMonth(contacts, month) <= |contacts|
    ensures (forall c :: c in contacts ==> !BornInMonth(c, month)) ==> BirthdaysInMonth(contacts, month) == 0
    ensures (forall c :: c in contacts ==> BornInMonth(c, month)) ==> BirthdaysInMonth(contacts, month) == |contacts|
  {
    if |contacts| > 0 {
      var p := contacts[..|contacts| - 1];
      assert forall c :: c in p ==> c in contacts;
      BirthdaysInMonthBounds(p, month);
    }
  }

  /** `getStatistics()`: a failed user listing rethrows as "Failed to list
      users" before contacts are listed; a failed contact listing as
      "Failed to list contacts". */
  method GetStatistics(users: Option<seq<User>>, contacts: Option<seq<Contact>>, month: int)
    returns (r: Result<Stats, DatabaseException>)
    ensures users.None? ==> r == Err(DatabaseException("Failed to list users"))
    ensures users.Some? && contacts.None? ==> r == Err(DatabaseException("Failed to list contacts"))
    ensures r.Ok? <==> users.Some? && contacts.Some?
    ensures r.Ok? ==> r.value.totalUsers == |users.value| && SumValues(r.value.userRoleCounts) == |users.value|
    ensures r.Ok? ==> forall k :: k in r.value.userRoleCounts <==> exists u :: u in users.value && u.userRole == k
    ensures r.Ok? ==> r.value.userRoleCounts == GroupCount(Roles(users.value))
    ensures r.Ok? ==> forall k :: k in r.value.userRoleCounts ==> r.value.userRoleCounts[k] == multiset(Roles(users.value))[k]
    ensures r.Ok? ==> r.value.totalContacts == |contacts.value|
    ensures r.Ok? ==> r.value.birthdaysThisMonth == BirthdaysInMonth(contacts.value, month)
    ensures r.Ok? ==> r.value.birthdaysThisMonth <= r.value.totalContacts
  {
    if users.None? {
      return Err(DatabaseException("Failed to list users"));
    }
    var counts := CountRoles(users.value);
    RoleCountsAreTallies(users.value);
    if contacts.None? {
      return Err(DatabaseException("Failed to list contacts"));
    }
    BirthdaysInMonthBounds(contacts.value, month);
    return Ok(Stats(|users.value|, counts, |contacts.value|, BirthdaysInMonth(contacts.value, month)));
  }
}
