/**
 * src/main/java/com/emirfurqan/services/ContactService.java, `sortContacts`:
 * `List.sort` with a comparator chosen by field name. The other methods of
 * the class only wrap DAO calls.
 *
 * `List.sort` is a stable merge sort; it is modelled by a stable insertion
 * sort, which has the same result for a total preorder: the unique stable
 * ordering of the input.
 */
module EmirfurqanContactService {
  import opened Results
  import opened JavaText
  import opened Calendar

  /** The fields of the second tree's contact that the sorter reads, plus the
      id that tells contacts with equal keys apart. */
  datatype Contact = Contact(
    contactId: int,
    firstName: Option<string>,
    lastName: Option<string>,
    nickname: Option<string>,
    email: Option<string>,
    birthDate: Option<Date>)

  datatype SortField = FirstName | LastName | Nickname | Email | BirthDate

  /** The exceptions `sortContacts` can raise. */
  datatype SortError = NullPointer | IllegalArgument(message: string)

  /** The `switch` on the lower-cased field name. */
  function ResolveField(lowered: string): (r: Option<SortField>)
    ensures r.Some? ==> |lowered| >= 5
  {
    if lowered == "firstname" || lowered == "first_name" then Some(FirstName)
    else if lowered == "lastname" || lowered == "last_name" then Some(LastName)
    else if lowered == "nickname" then Some(Nickname)
    else if lowered == "email" then Some(Email)
    else if lowered == "birthdate" || lowered == "birth_date" then Some(BirthDate)
    else None
  }

  /** Field names match ignoring case. */
  lemma ResolveFieldIgnoresCase(a: string, b: string)
    requires EqualsIgnoreCase(a, b)
    ensures ResolveField(ToLower(a)) == ResolveField(ToLower(b))
  {
    EqualsIgnoreCaseIsLowerEquality(a, b);
  }

  lemma ResolveFieldAliases()
    ensures ResolveField(ToLower("First_Name")) == Some(FirstName)
    ensures ResolveField(ToLower("BIRTHDATE")) == Some(BirthDate)
    ensures ResolveField(ToLower("phone")) == None
  {
    assert ToLower("First_Name") == "first_name";
    assert ToLower("BIRTHDATE") == "birthdate";
    assert ToLower("phone") == "phone";
  }

  // ---------------------------------------------------------------------------
  // The comparator
  // ---------------------------------------------------------------------------

  /** The comparator: a field and a direction (`reversed()` when descending). */
  datatype Order = Order(field: SortField, ascending: bool)

  function TextKey(f: SortField, c: Contact): Option<string>
  {
    match f
    case FirstName => c.firstName
    case LastName => c.lastName
    case Nickname => c.nickname
    case Email => c.email
    case BirthDate => None
  }

  /** The key is non-null; comparing a null key throws. */
  predicate HasKey(f: SortField, c: Contact)
  {
    if f == BirthDate then c.birthDate.Some? else TextKey(f, c).Some?
  }

  predicate AllKeyed(f: SortField, s: seq<Contact>)
  {
    forall c :: c in s ==> HasKey(f, c)
  }

  /** `Comparator.comparing(key, CASE_INSENSITIVE_ORDER)` for the names and
      the address, `Comparator.comparing(Contact::getBirthDate)` for dates. */
  function Compare(f: SortField, a: Contact, b: Contact): int
    requires HasKey(f, a) && HasKey(f, b)
  {
    if f == BirthDate then CompareDates(a.birthDate.value, b.birthDate.value)
    else CompareIgnoreCase(TextKey(f, a).value, TextKey(f, b).value)
  }

  /** `a` may precede `b`: the comparator does not put `a` after `b`. */
  predicate Le(o: Order, a: Contact, b: Contact)
    requires HasKey(o.field, a) && HasKey(o.field, b)
  {
    if o.ascending then Compare(o.field, a, b) <= 0 else Compare(o.field, b, a) <= 0
  }

  /** Equal keys: case-insensitively equal text, or the same date. */
  predicate Equiv(o: Order, a: Contact, b: Contact)
    requires HasKey(o.field, a) && HasKey(o.field, b)
  {
    Le(o, a, b) && Le(o, b, a)
  }

  /** The comparator is a total preorder in both directions. */
  lemma LeIsTotalPreorder(o: Order, a: Contact, b: Contact, c: Contact)
    requires HasKey(o.field, a) && HasKey(o.field, b) && HasKey(o.field, c)
    ensures Le(o, a, b) || Le(o, b, a)
    ensures Le(o, a, b) && Le(o, b, c) ==> Le(o, a, c)
  {
    if o.field != BirthDate {
      var ka, kb, kc := TextKey(o.field, a).value, TextKey(o.field, b).value, TextKey(o.field, c).value;
      CompareIgnoreCaseIsTotalPreorder(ka, kb, kc);
      CompareIgnoreCaseIsTotalPreorder(kc, kb, ka);
    }
  }

  /** Equal keys mean case-insensitively equal text, or equal dates. */
  lemma EquivIsEqualKey(o: Order, a: Contact, b: Contact)
    requires HasKey(o.field, a) && HasKey(o.field, b)
    ensures Equiv(o, a, b) <==>
      if o.field == BirthDate then a.birthDate == b.birthDate
      else Fold(TextKey(o.field, a).value) == Fold(TextKey(o.field, b).value)
  {
    if o.field != BirthDate {
      var ka, kb := TextKey(o.field, a).value, TextKey(o.field, b).value;
      CompareIgnoreCaseIsTotalPreorder(ka, kb, kb);
    }
  }

  // ---------------------------------------------------------------------------
  // Stable sorting
  // ---------------------------------------------------------------------------

  /** Every pair is in comparator order, not just neighbours. */
  predicate Sorted(o: Order, s: seq<Contact>)
    requires AllKeyed(o.field, s)
  {
    forall i, j :: 0 <= i < j < |s| ==> Le(o, s[i], s[j])
  }

  /** Insert `x` after every element that does not compare above it. */
  function Insert(o: Order, x: Contact, s: seq<Contact>): (r: seq<Contact>)
    requires HasKey(o.field, x) && AllKeyed(o.field, s)
    ensures multiset(r) == multiset(s) + multiset{x}
    ensures AllKeyed(o.field, r)
  {
    if |s| == 0 then [x]
    else if !Le(o, s[0], x) then [x] + s
    else
      assert s == [s[0]] + s[1..];
      [s[0]] + Insert(o, x, s[1..])
  }

  /** Insertion sort taking the input from left to right. */
  function SortStable(o: Order, s: seq<Contact>): (r: seq<Contact>)
    requires AllKeyed(o.field, s)
    ensures multiset(r) == multiset(s)
    ensures AllKeyed(o.field, r)
  {
    if |s| == 0 then []
    else
      assert s == s[..|s| - 1] + [s[|s| - 1]];
      Insert(o, s[|s| - 1], SortStable(o, s[..|s| - 1]))
  }

  /** An element at or below everything of a sorted sequence can go in
      front of it. */
  lemma ConsSorted(o: Order, a: Contact, t: seq<Contact>)
    requires HasKey(o.field, a) && AllKeyed(o.field, t) && Sorted(o, t)
    requires forall j :: 0 <= j < |t| ==> Le(o, a, t[j])
    ensures AllKeyed(o.field, [a] + t) && Sorted(o, [a] + t)
  {
    var r := [a] + t;
    forall i, j | 0 <= i < j < |r| ensures Le(o, r[i], r[j]) {
      assert r[j] == t[j - 1];
      if i > 0 {
        assert r[i] == t[i - 1];
      }
    }
  }

  lemma {:induction false} InsertSorted(o: Order, x: Contact, s: seq<Contact>)
    requires HasKey(o.field, x) && AllKeyed(o.field, s) && Sorted(o, s)
    ensures Sorted(o, Insert(o, x, s))
  {
    if |s| == 0 {
    } else if !Le(o, s[0], x) {
      forall j | 0 <= j < |s| ensures Le(o, x, s[j]) {
        LeIsTotalPreorder(o, x, s[0], s[j]);
        LeIsTotalPreorder(o, s[0], x, s[j]);
      }
      ConsSorted(o, x, s);
    } else {
      var t := s[1..];
      TailSorted(o, s);
      InsertSorted(o, x, t);
      var it := Insert(o, x, t);
      forall j | 0 <= j < |it| ensures Le(o, s[0], it[j]) {
        assert it[j] in multiset(it);
        if it[j] != x {
          assert it[j] in t;
          var k :| 0 <= k < |t| && t[k] == it[j];
          assert Le(o, s[0], s[k + 1]);
        }
      }
      ConsSorted(o, s[0], it);
    }
  }

  lemma {:induction false} SortStableSorted(o: Order, s: seq<Contact>)
    requires AllKeyed(o.field, s)
    ensures Sorted(o, SortStable(o, s))
  {
    if |s| > 0 {
      SortStableSorted(o, s[..|s| - 1]);
      InsertSorted(o, s[|s| - 1], SortStable(o, s[..|s| - 1]));
    }
  }

  /** The contacts of `s` whose key equals the key of `x`, in their order in `s`. */
  function EqualKeys(o: Order, x: Contact, s: seq<Contact>): seq<Contact>
    requires HasKey(o.field, x) && AllKeyed(o.field, s)
  {
    if |s| == 0 then []
    else (if Equiv(o, s[0], x) then [s[0]] else []) + EqualKeys(o, x, s[1..])
  }

  lemma {:induction false} EqualKeysAppend(o: Order, x: Contact, a: seq<Contact>, b: seq<Contact>)
    requires HasKey(o.field, x) && AllKeyed(o.field, a) && AllKeyed(o.field, b)
    ensures AllKeyed(o.field, a + b)
    ensures EqualKeys(o, x, a + b) == EqualKeys(o, x, a) + EqualKeys(o, x, b)
  {
    if |a| == 0 {
      assert a + b == b;
    } else {
      assert (a + b)[0] == a[0];
      assert (a + b)[1..] == a[1..] + b;
      EqualKeysAppend(o, x, a[1..], b);
    }
  }

  lemma {:induction false} EqualKeysNone(o: Order, x: Contact, s: seq<Contact>)
    requires HasKey(o.field, x) && AllKeyed(o.field, s)
    requires forall j :: 0 <= j < |s| ==> !Equiv(o, s[j], x)
    ensures EqualKeys(o, x, s) == []
  {
    if |s| > 0 {
      EqualKeysNone(o, x, s[1..]);
    }
  }

  /** Inserting `y` into a sorted sequence puts it after every element with
      an equal key. */
  lemma {:induction false} InsertEqualKeys(o: Order, x: Contact, y: Contact, s: seq<Contact>)
    requires HasKey(o.field, x) && HasKey(o.field, y) && AllKeyed(o.field, s) && Sorted(o, s)
    ensures EqualKeys(o, x, Insert(o, y, s)) == EqualKeys(o, x, s) + (if Equiv(o, y, x) then [y] else [])
    decreases |s|, 1
  {
    if |s| == 0 {
    } else if !Le(o, s[0], y) {
      InsertFrontEqualKeys(o, x, y, s);
    } else {
      InsertLaterEqualKeys(o, x, y, s);
    }
  }

  lemma InsertFrontEqualKeys(o: Order, x: Contact, y: Contact, s: seq<Contact>)
    requires HasKey(o.field, x) && HasKey(o.field, y) && AllKeyed(o.field, s) && Sorted(o, s)
    requires |s| > 0 && !Le(o, s[0], y)
    ensures EqualKeys(o, x, Insert(o, y, s)) == EqualKeys(o, x, s) + (if Equiv(o, y, x) then [y] else [])
  {
    assert Insert(o, y, s) == [y] + s;
    if Equiv(o, y, x) {
      AboveHasOtherKey(o, x, y, s);
      EqualKeysNone(o, x, s);
    }
    EqualKeysCons(o, x, y, s);
  }

  lemma {:induction false} InsertLaterEqualKeys(o: Order, x: Contact, y: Contact, s: seq<Contact>)
    requires HasKey(o.field, x) && HasKey(o.field, y) && AllKeyed(o.field, s) && Sorted(o, s)
    requires |s| > 0 && Le(o, s[0], y)
    ensures EqualKeys(o, x, Insert(o, y, s)) == EqualKeys(o, x, s) + (if Equiv(o, y, x) then [y] else [])
    decreases |s|, 0
  {
    var tail := if Equiv(o, y, x) then [y] else [];
    var t := s[1..];
    var it := Insert(o, y, t);
    var head := if Equiv(o, s[0], x) then [s[0]] else [];
    assert Insert(o, y, s) == [s[0]] + it;
    TailSorted(o, s);
    InsertEqualKeys(o, x, y, t);
    EqualKeysCons(o, x, s[0], it);
    assert EqualKeys(o, x, s) == head + EqualKeys(o, x, t);
    ConcatAssociative(head, EqualKeys(o, x, t), tail);
  }

  lemma ConcatAssociative<T>(a: seq<T>, b: seq<T>, c: seq<T>)
    ensures a + (b + c) == (a + b) + c
  {
  }

  lemma TailSorted(o: Order, s: seq<Contact>)
    requires |s| > 0 && AllKeyed(o.field, s) && Sorted(o, s)
    ensures AllKeyed(o.field, s[1..]) && Sorted(o, s[1..])
  {
    var t := s[1..];
    forall i, j | 0 <= i < j < |t| ensures Le(o, t[i], t[j]) {
      assert t[i] == s[i + 1] && t[j] == s[j + 1];
    }
  }

  /** When a sorted sequence starts above `y`, nothing in it has `y`'s key. */
  lemma AboveHasOtherKey(o: Order, x: Contact, y: Contact, s: seq<Contact>)
    requires HasKey(o.field, x) && HasKey(o.field, y) && AllKeyed(o.field, s) && Sorted(o, s)
    requires |s| > 0 && !Le(o, s[0], y) && Equiv(o, y, x)
    ensures forall j :: 0 <= j < |s| ==> !Equiv(o, s[j], x)
  {
    forall j | 0 <= j < |s| ensures !Equiv(o, s[j], x) {
      LeIsTotalPreorder(o, s[0], s[j], y);
      LeIsTotalPreorder(o, s[j], x, y);
      LeIsTotalPreorder(o, s[0], s[j], x);
    }
  }

  lemma EqualKeysCons(o: Order, x: Contact, a: Contact, t: seq<Contact>)
    requires HasKey(o.field, x) && HasKey(o.field, a) && AllKeyed(o.field, t)
    ensures EqualKeys(o, x, [a] + t) == (if Equiv(o, a, x) then [a] else []) + EqualKeys(o, x, t)
  {
    assert ([a] + t)[1..] == t;
  }

  /** Stability: contacts with equal keys keep their input order. */
  lemma {:induction false} SortStableKeepsEqualKeyOrder(o: Order, x: Contact, s: seq<Contact>)
    requires HasKey(o.field, x) && AllKeyed(o.field, s)
    ensures EqualKeys(o, x, SortStable(o, s)) == EqualKeys(o, x, s)
  {
    if |s| > 0 {
      var p := s[..|s| - 1];
      var y := s[|s| - 1];
      assert AllKeyed(o.field, p) && HasKey(o.field, y) by {
        assert s == p + [y];
      }
      var sp := SortStable(o, p);
      assert SortStable(o, s) == Insert(o, y, sp);
      SortStableKeepsEqualKeyOrder(o, x, p);
      SortStableSorted(o, p);
      InsertEqualKeys(o, x, y, sp);
      EqualKeysAppend(o, x, p, [y]);
      assert EqualKeys(o, x, [y]) == if Equiv(o, y, x) then [y] else [];
      assert s == p + [y];
    }
  }

  // ---------------------------------------------------------------------------
  // sortContacts
  // ---------------------------------------------------------------------------

  /** `sortContacts(contacts, field, ascending)`. A null or empty list comes
      back before the field name is read. A null field name throws
      NullPointerException; an unknown one throws IllegalArgumentException.
      With two or more contacts every contact is compared, so a null key
      throws NullPointerException. Otherwise the contacts come back stably
      sorted. */
  function SortContacts(contacts: Option<seq<Contact>>, field: Option<string>, ascending: bool): (r: Result<Option<seq<Contact>>, SortError>)
    ensures contacts.None? ==> r == Ok(None)
    ensures contacts == Some([]) ==> r == Ok(Some([]))
    ensures r.Err? && r.error.IllegalArgument? <==>
      contacts.Some? && |contacts.value| > 0 && field.Some? && ResolveField(ToLower(field.value)).None?
    ensures r.Err? && r.error.IllegalArgument? ==>
      r.error.message == "Cannot sort by unknown field: " + field.value
    ensures r.Ok? && contacts.Some? ==> r.value.Some? && multiset(r.value.value) == multiset(contacts.value)
    ensures r.Ok? && contacts.Some? && |contacts.value| >= 2 ==>
      && field.Some? && ResolveField(ToLower(field.value)).Some?
      && var o := Order(ResolveField(ToLower(field.value)).value, ascending);
      && AllKeyed(o.field, contacts.value)
      && AllKeyed(o.field, r.value.value)
      && Sorted(o, r.value.value)
      && forall x :: HasKey(o.field, x) ==> EqualKeys(o, x, r.value.value) == EqualKeys(o, x, contacts.value)
    ensures r == Err(NullPointer) <==>
      && contacts.Some? && |contacts.value| > 0
      && (|| field.None?
          || (&& ResolveField(ToLower(field.value)).Some? && |contacts.value| >= 2
              && !AllKeyed(ResolveField(ToLower(field.value)).value, contacts.value)))
  {
    match contacts
    case None => Ok(None)
    case Some(s) =>
      if |s| == 0 then Ok(contacts)
      else
        match field
        case None => Err(NullPointer)
        case Some(name) =>
          match ResolveField(ToLower(name))
          case None => Err(IllegalArgument("Cannot sort by unknown field: " + name))
          case Some(f) =>
            if |s| < 2 then Ok(contacts)
            else if exists c :: c in s && !HasKey(f, c) then Err(NullPointer)
            else
              var o := Order(f, ascending);
              SortStableSorted(o, s);
              forall x | HasKey(f, x) ensures EqualKeys(o, x, SortStable(o, s)) == EqualKeys(o, x, s) {
                SortStableKeepsEqualKeyOrder(o, x, s);
              }
              Ok(Some(SortStable(o, s)))
  }

  /** Two contacts already in comparator order stay as they are. */
  lemma SortPairInOrder(o: Order, a: Contact, b: Contact)
    requires HasKey(o.field, a) && HasKey(o.field, b) && Le(o, a, b)
    ensures SortStable(o, [a, b]) == [a, b]
  {
    assert [a, b][..1] == [a];
    assert SortStable(o, [a]) == [a] by {
      assert [a][..0] == [];
    }
  }

  /** Sorting descending is not reversing the ascending result: both keep
      contacts with equal keys in input order. */
  lemma DescendingIsNotReversedAscending()
    ensures var a := Contact(1, Some("ann"), None, None, None, None);
            var b := Contact(2, Some("Ann"), None, None, None, None);
            && SortContacts(Some([a, b]), Some("firstName"), true) == Ok(Some([a, b]))
            && SortContacts(Some([a, b]), Some("firstName"), false) == Ok(Some([a, b]))
  {
    SameFirstNameKeepsOrder(true);
    SameFirstNameKeepsOrder(false);
  }

  lemma SameFirstNameKeepsOrder(ascending: bool)
    ensures var a := Contact(1, Some("ann"), None, None, None, None);
            var b := Contact(2, Some("Ann"), None, None, None, None);
            SortContacts(Some([a, b]), Some("firstName"), ascending) == Ok(Some([a, b]))
  {
    var a := Contact(1, Some("ann"), None, None, None, None);
    var b := Contact(2, Some("Ann"), None, None, None, None);
    assert ToLower("firstName") == "firstname";
    assert Fold("ann") == Fold("Ann");
    EqualKeysKeepPairOrder(Order(FirstName, ascending), a, b, "firstName");
  }

  /** Two contacts whose keys are equal come back in input order, in either
      direction. */
  lemma EqualKeysKeepPairOrder(o: Order, a: Contact, b: Contact, name: string)
    requires ResolveField(ToLower(name)) == Some(o.field)
    requires HasKey(o.field, a) && HasKey(o.field, b)
    requires if o.field == BirthDate then a.birthDate == b.birthDate
             else Fold(TextKey(o.field, a).value) == Fold(TextKey(o.field, b).value)
    ensures SortContacts(Some([a, b]), Some(name), o.ascending) == Ok(Some([a, b]))
  {
    EquivIsEqualKey(o, a, b);
    SortPairInOrder(o, a, b);
    var s := [a, b];
    assert forall c :: c in s ==> c == a || c == b;
  }
}
