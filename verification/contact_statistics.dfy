/**
 * main/src/services/StatisticalInfoService.java, `getStatistics`: counts,
 * a partition, a minimum and a maximum over the contact list. The list the
 * contact service returns and the current month are parameters.
 */
module ContactStatistics {
  import opened Results
  import opened JavaText
  import opened Calendar
  import opened Counting
  import ContactModel

  type Contact = ContactModel.Contact

  /** The entries of the statistics map, one field per key; `averageAge`
      is left out. */
  datatype Stats = Stats(
    totalContacts: nat,
    firstNameCounts: map<string, nat>,
    lastNameCounts: map<string, nat>,
    withLinkedIn: nat,
    withoutLinkedIn: nat,
    youngestContact: Option<Contact>,
    oldestContact: Option<Contact>,
    birthdaysThisMonth: nat,
    emailDomainCounts: map<string, nat>)

  /** `groupingBy` refuses a null key with a NullPointerException. */
  datatype Failure = NullPointer

  // ---------------------------------------------------------------------------
  // Name counts
  // ---------------------------------------------------------------------------

  predicate NamesPresent(s: seq<Contact>)
  {
    forall c :: c in s ==> c.firstName.Some? && c.lastName.Some?
  }

  function FirstNames(s: seq<Contact>): (r: seq<string>)
    requires NamesPresent(s)
    ensures |r| == |s|
    ensures forall i :: 0 <= i < |s| ==> r[i] == s[i].firstName.value
  {
    if |s| == 0 then [] else FirstNames(s[..|s| - 1]) + [s[|s| - 1].firstName.value]
  }

  function LastNames(s: seq<Contact>): (r: seq<string>)
    requires NamesPresent(s)
    ensures |r| == |s|
    ensures forall i :: 0 <= i < |s| ==> r[i] == s[i].lastName.value
  {
    if |s| == 0 then [] else LastNames(s[..|s| - 1]) + [s[|s| - 1].lastName.value]
  }

  /** Each distinct first name (compared case-sensitively) maps to the number
      of contacts carrying it, and the counts add up to the number of contacts. */
  lemma FirstNameCountsAreTallies(s: seq<Contact>)
    requires NamesPresent(s)
    ensures forall n :: n in GroupCount(FirstNames(s)) <==> exists c :: c in s && c.firstName == Some(n)
    ensures forall n :: n in GroupCount(FirstNames(s)) ==> GroupCount(FirstNames(s))[n] == multiset(FirstNames(s))[n] >= 1
    ensures SumValues(GroupCount(FirstNames(s))) == |s|
  {
    ColumnCountsAreTallies(s, FirstNames(s), true);
  }

  lemma LastNameCountsAreTallies(s: seq<Contact>)
    requires NamesPresent(s)
    ensures forall n :: n in GroupCount(LastNames(s)) <==> exists c :: c in s && c.lastName == Some(n)
    ensures forall n :: n in GroupCount(LastNames(s)) ==> GroupCount(LastNames(s))[n] == multiset(LastNames(s))[n] >= 1
    ensures SumValues(GroupCount(LastNames(s))) == |s|
  {
    ColumnCountsAreTallies(s, LastNames(s), false);
  }

  /** The name of the first (or last) name column of a contact. */
  function Column(c: Contact, first: bool): Option<string>
  {
    if first then c.firstName else c.lastName
  }

  lemma ColumnCountsAreTallies(s: seq<Contact>, names: seq<string>, first: bool)
    requires |names| == |s|
    requires forall i :: 0 <= i < |s| ==> Some(names[i]) == Column(s[i], first)
    ensures forall n :: n in GroupCount(names) <==> exists c :: c in s && Column(c, first) == Some(n)
    ensures forall n :: n in GroupCount(names) ==> GroupCount(names)[n] == multiset(names)[n] >= 1
    ensures SumValues(GroupCount(names)) == |s|
  {
    GroupCountIsMultiplicity(names);
    GroupCountSum(names);
    forall n ensures n in names <==> exists c :: c in s && Column(c, first) == Some(n) {
      if n in names {
        var i :| 0 <= i < |s| && names[i] == n;
        assert s[i] in s;
      }
      if exists c :: c in s && Column(c, first) == Some(n) {
        var c :| c in s && Column(c, first) == Some(n);
        var i :| 0 <= i < |s| && s[i] == c;
        assert names[i] == n;
      }
    }
  }

  // ---------------------------------------------------------------------------
  // LinkedIn partition
  // ---------------------------------------------------------------------------

  /** A non-null, non-empty LinkedIn URL. */
  predicate HasLinkedIn(c: Contact)
  {
    IsPresent(c.linkedinUrl)
  }

  function CountWithLinkedIn(s: seq<Contact>): nat
  {
    if |s| == 0 then 0
    else CountWithLinkedIn(s[..|s| - 1]) + (if HasLinkedIn(s[|s| - 1]) then 1 else 0)
  }

  function CountWithoutLinkedIn(s: seq<Contact>): nat
  {
    if |s| == 0 then 0
    else CountWithoutLinkedIn(s[..|s| - 1]) + (if HasLinkedIn(s[|s| - 1]) then 0 else 1)
  }

  /** `size() - withLinkedIn` counts exactly the contacts without a URL. */
  lemma {:induction false} LinkedInPartition(s: seq<Contact>)
    ensures CountWithLinkedIn(s) + CountWithoutLinkedIn(s) == |s|
  {
    if |s| > 0 {
      LinkedInPartition(s[..|s| - 1]);
    }
  }

  // ---------------------------------------------------------------------------
  // Youngest and oldest
  // ---------------------------------------------------------------------------

  /** The contacts with a birth date, in list order. */
  function Dated(s: seq<Contact>): (r: seq<Contact>)
    ensures forall c :: c in r <==> c in s && c.birthDate.Some?
    ensures |r| <= |s|
  {
    if |s| == 0 then []
    else
      assert s == s[..|s| - 1] + [s[|s| - 1]];
      Dated(s[..|s| - 1]) + (if s[|s| - 1].birthDate.Some? then [s[|s| - 1]] else [])
  }

  predicate AllDated(ds: seq<Contact>)
  {
    forall c :: c in ds ==> c.birthDate.Some?
  }

  /** `a` wins against `b`: born later when looking for the youngest, born
      earlier when looking for the oldest. */
  predicate Beats(latest: bool, a: Date, b: Date)
  {
    if latest then Before(b, a) else Before(a, b)
  }

  /** The index `Stream.max`/`Stream.min` ends on. The stream reduces left to
      right and replaces the candidate only when the next contact strictly
      wins, so among equal dates the first one stays. */
  function ExtremeIndex(ds: seq<Contact>, latest: bool): (i: nat)
    requires |ds| > 0 && AllDated(ds)
    ensures i < |ds|
    ensures forall j :: 0 <= j < |ds| ==> !Beats(latest, ds[j].birthDate.value, ds[i].birthDate.value)
    ensures forall j :: 0 <= j < i ==> Beats(latest, ds[i].birthDate.value, ds[j].birthDate.value)
  {
    if |ds| == 1 then 0
    else
      var init := ds[..|ds| - 1];
      assert forall j :: 0 <= j < |init| ==> init[j] == ds[j];
      var k := ExtremeIndex(init, latest);
      if Beats(latest, ds[|ds| - 1].birthDate.value, ds[k].birthDate.value) then |ds| - 1 else k
  }

  /** `youngestContact` (latest = true) and `oldestContact` (latest = false). */
  function Extreme(s: seq<Contact>, latest: bool): (r: Option<Contact>)
    ensures r.None? <==> forall c :: c in s ==> c.birthDate.None?
  {
    var ds := Dated(s);
    if |ds| == 0 then None
    else
      assert ds[0] in ds;
      Some(ds[ExtremeIndex(ds, latest)])
  }

  /** Position `i` of the dated contacts holds a contact that no dated
      contact of `s` beats, and that strictly beats every dated contact
      listed before it. */
  predicate FirstBestAt(s: seq<Contact>, ds: seq<Contact>, i: nat, latest: bool)
    requires AllDated(ds)
  {
    && i < |ds|
    && (forall c :: c in s && c.birthDate.Some? ==> !Beats(latest, c.birthDate.value, ds[i].birthDate.value))
    && (forall j :: 0 <= j < i ==> Beats(latest, ds[i].birthDate.value, ds[j].birthDate.value))
  }

  /** `youngestContact` has the latest birth date, `oldestContact` the
      earliest, and of several contacts sharing it the first one listed is
      chosen. */
  lemma ExtremeIsFirstBest(s: seq<Contact>, latest: bool)
    requires Extreme(s, latest).Some?
    ensures exists i: nat :: FirstBestAt(s, Dated(s), i, latest) && Dated(s)[i] == Extreme(s, latest).value
  {
    var ds := Dated(s);
    var i := ExtremeIndex(ds, latest);
    assert Extreme(s, latest).value == ds[i];
    forall c | c in s && c.birthDate.Some? ensures !Beats(latest, c.birthDate.value, ds[i].birthDate.value) {
      assert c in ds;
      var j :| 0 <= j < |ds| && ds[j] == c;
    }
    assert FirstBestAt(s, ds, i, latest);
  }

  // ---------------------------------------------------------------------------
  // Birthdays this month
  // ---------------------------------------------------------------------------

  predicate BornInMonth(c: Contact, month: int)
  {
    c.birthDate.Some? && c.birthDate.value.month == month
  }

  function BirthdaysInMonth(s: seq<Contact>, month: int): (n: nat)
    ensures n <= |s|
  {
    if |s| == 0 then 0
    else BirthdaysInMonth(s[..|s| - 1], month) + (if BornInMonth(s[|s| - 1], month) then 1 else 0)
  }

  /** Birthdays in months 1 through `m`. */
  function BirthdaysThrough(s: seq<Contact>, m: nat): nat
  {
    if m == 0 then 0 else BirthdaysThrough(s, m - 1) + BirthdaysInMonth(s, m)
  }

  lemma {:induction false} BirthdaysThroughSnoc(p: seq<Contact>, c: Contact, m: nat)
    ensures BirthdaysThrough(p + [c], m) ==
      BirthdaysThrough(p, m) + (if c.birthDate.Some? && 1 <= c.birthDate.value.month <= m then 1 else 0)
  {
    assert (p + [c])[..|p|] == p;
    if m > 0 {
      BirthdaysThroughSnoc(p, c, m - 1);
    }
  }

  lemma {:induction false} NoBirthdaysThrough(s: seq<Contact>, m: nat)
    requires |s| == 0
    ensures BirthdaysThrough(s, m) == 0
  {
    if m > 0 {
      NoBirthdaysThrough(s, m - 1);
    }
  }

  /** Over the twelve months every valid birth date is counted exactly once. */
  lemma {:induction false} BirthdaysPartitionByMonth(s: seq<Contact>)
    requires forall c :: c in s && c.birthDate.Some? ==> Valid(c.birthDate.value)
    ensures BirthdaysThrough(s, 12) == |Dated(s)|
  {
    if |s| == 0 {
      NoBirthdaysThrough(s, 12);
    } else {
      var p := s[..|s| - 1];
      var c := s[|s| - 1];
      assert s == p + [c];
      assert s[..|s| - 1] == p;
      assert |Dated(s)| == |Dated(p)| + (if c.birthDate.Some? then 1 else 0);
      assert c.birthDate.Some? ==> 1 <= c.birthDate.value.month <= 12 by {
        assert c in s;
      }
      BirthdaysPartitionByMonth(p);
      BirthdaysThroughSnoc(p, c, 12);
    }
  }

  // ---------------------------------------------------------------------------
  // Email domains
  // ---------------------------------------------------------------------------

  /** The text after the first `@`, for an address that contains one. */
  function Domain(email: Option<string>): (r: Option<string>)
    ensures r.Some? <==> email.Some? && '@' in email.value
  {
    match email
    case None => None
    case Some(e) =>
      match IndexOf(e, '@')
      case None => None
      case Some(at) => Some(e[at + 1..])
  }

  function Domains(s: seq<Contact>): (r: seq<string>)
    ensures forall d :: d in r <==> exists c :: c in s && Domain(c.email) == Some(d)
    ensures |r| <= |s|
  {
    if |s| == 0 then []
    else
      var p := s[..|s| - 1];
      var c := s[|s| - 1];
      assert s == p + [c];
      Domains(p) + (if Domain(c.email).Some? then [Domain(c.email).value] else [])
  }

  function CountWithDomain(s: seq<Contact>): nat
  {
    if |s| == 0 then 0
    else CountWithDomain(s[..|s| - 1]) + (if Domain(s[|s| - 1].email).Some? then 1 else 0)
  }

  /** Every key is the domain of some address, every address with an `@`
      counts once under its domain. */
  lemma {:induction false} EmailDomainCountsAreTallies(s: seq<Contact>)
    ensures forall d :: d in GroupCount(Domains(s)) <==> exists c :: c in s && Domain(c.email) == Some(d)
    ensures SumValues(GroupCount(Domains(s))) == CountWithDomain(s)
  {
    GroupCountSum(Domains(s));
    DomainsLength(s);
  }

  lemma {:induction false} DomainsLength(s: seq<Contact>)
    ensures |Domains(s)| == CountWithDomain(s)
  {
    if |s| > 0 {
      DomainsLength(s[..|s| - 1]);
    }
  }

  // ---------------------------------------------------------------------------
  // getStatistics
  // ---------------------------------------------------------------------------

  /** `getStatistics()` over the listed contacts, with `month` standing for
      `LocalDate.now().getMonthValue()`. A null first or last name makes the
      name grouping throw. */
  function GetStatistics(contacts: seq<Contact>, month: int): (r: Result<Stats, Failure>)
    ensures r.Err? <==> !NamesPresent(contacts)
    ensures r.Ok? ==> && r.value.totalContacts == |contacts|
                      && SumValues(r.value.firstNameCounts) == |contacts|
                      && SumValues(r.value.lastNameCounts) == |contacts|
                      && r.value.withoutLinkedIn == CountWithoutLinkedIn(contacts)
                      && r.value.withLinkedIn + r.value.withoutLinkedIn == |contacts|
                      && r.value.birthdaysThisMonth <= |contacts|
                      && SumValues(r.value.emailDomainCounts) == CountWithDomain(contacts)
    ensures r.Ok? ==> && r.value.firstNameCounts == GroupCount(FirstNames(contacts))
                      && r.value.lastNameCounts == GroupCount(LastNames(contacts))
                      && r.value.emailDomainCounts == GroupCount(Domains(contacts))
    ensures r.Ok? ==> && r.value.youngestContact == Extreme(contacts, true)
                      && r.value.oldestContact == Extreme(contacts, false)
                      && r.value.birthdaysThisMonth == BirthdaysInMonth(contacts, month)
  {
    if !NamesPresent(contacts) then Err(NullPointer)
    else
      GroupCountSum(FirstNames(contacts));
      GroupCountSum(LastNames(contacts));
      LinkedInPartition(contacts);
      EmailDomainCountsAreTallies(contacts);
      var with := CountWithLinkedIn(contacts);
      Ok(Stats(
        |contacts|,
        GroupCount(FirstNames(contacts)),
        GroupCount(LastNames(contacts)),
        with,
        |contacts| - with,
        Extreme(contacts, true),
        Extreme(contacts, false),
        BirthdaysInMonth(contacts, month),
        GroupCount(Domains(contacts))))
  }
}
