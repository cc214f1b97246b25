/**
 * main/src/models/Contact.java: a row of the `contacts` table with guarded
 * setters. A setter either assigns its argument or silently keeps the old
 * value; none of them throws. Each setter is a function from the old record
 * to the new one. `LocalDate.now()` is the parameter `today`.
 */
module ContactModel {
  import opened Results
  import opened JavaText
  import opened Calendar
  import opened Patterns

  datatype Contact = Contact(
    contactId: Int32,
    firstName: Option<string>,
    middleName: Option<string>,
    lastName: Option<string>,
    nickname: Option<string>,
    phonePrimary: Option<string>,
    phoneSecondary: Option<string>,
    email: Option<string>,
    linkedinUrl: Option<string>,
    birthDate: Option<Date>,
    createdAt: Option<DateTime>,
    updatedAt: Option<DateTime>)

  /** `new Contact()`: every reference field null, the id zero. */
  const Blank: Contact := Contact(0, None, None, None, None, None, None, None, None, None, None, None)

  // ---------------------------------------------------------------------------
  // Validation methods
  // ---------------------------------------------------------------------------

  /** `isValidEmail(email)`: `^[\w.-]+@[\w.-]+\.[a-zA-Z]{2,6}$`, no domain list. */
  predicate IsValidEmail(email: Option<string>)
  {
    email.Some? && MatchesEmailShape(email.value, LetterTld)
  }

  /** `isValidPhone(phone)`: `\+?[0-9]{7,15}`. */
  predicate IsValidPhone(phone: Option<string>)
  {
    phone.Some? && MatchesOptionalPlusDigits(phone.value)
  }

  /** `isValidLinkedinUrl(url)`: `^https?://(www\.)?linkedin\.com/.*$`. */
  predicate IsValidLinkedinUrl(url: Option<string>)
  {
    url.Some? && MatchesLinkedinUrl(url.value)
  }

  // ---------------------------------------------------------------------------
  // Setters
  // ---------------------------------------------------------------------------

  function SetContactId(c: Contact, id: Int32): (r: Contact)
    ensures r.contactId == id && r.(contactId := c.contactId) == c
  {
    c.(contactId := id)
  }

  /** Assigns only a non-null, non-empty first name. */
  function SetFirstName(c: Contact, v: Option<string>): (r: Contact)
    ensures r.(firstName := c.firstName) == c
    ensures IsPresent(v) ==> r.firstName == v
    ensures !IsPresent(v) ==> r == c
  {
    if v.Some? && |v.value| > 0 then c.(firstName := v) else c
  }

  function SetMiddleName(c: Contact, v: Option<string>): (r: Contact)
    ensures r.middleName == v && r.(middleName := c.middleName) == c
  {
    c.(middleName := v)
  }

  /** Assigns only a non-null, non-empty last name. */
  function SetLastName(c: Contact, v: Option<string>): (r: Contact)
    ensures r.(lastName := c.lastName) == c
    ensures IsPresent(v) ==> r.lastName == v
    ensures !IsPresent(v) ==> r == c
  {
    if v.Some? && |v.value| > 0 then c.(lastName := v) else c
  }

  function SetNickname(c: Contact, v: Option<string>): (r: Contact)
    ensures r.nickname == v && r.(nickname := c.nickname) == c
  {
    c.(nickname := v)
  }

  /** Assigns only a valid phone; null is ignored. */
  function SetPhonePrimary(c: Contact, v: Option<string>): (r: Contact)
    ensures r.(phonePrimary := c.phonePrimary) == c
    ensures IsValidPhone(v) ==> r.phonePrimary == v
    ensures !IsValidPhone(v) ==> r == c
  {
    if IsValidPhone(v) then c.(phonePrimary := v) else c
  }

  /** Assigns null (clearing the field) or a valid phone. */
  function SetPhoneSecondary(c: Contact, v: Option<string>): (r: Contact)
    ensures r.(phoneSecondary := c.phoneSecondary) == c
    ensures v.None? || IsValidPhone(v) ==> r.phoneSecondary == v
    ensures v.Some? && !IsValidPhone(v) ==> r == c
  {
    if v.None? || IsValidPhone(v) then c.(phoneSecondary := v) else c
  }

  /** Assigns only a valid address; null is ignored. */
  function SetEmail(c: Contact, v: Option<string>): (r: Contact)
    ensures r.(email := c.email) == c
    ensures IsValidEmail(v) ==> r.email == v
    ensures !IsValidEmail(v) ==> r == c
  {
    if IsValidEmail(v) then c.(email := v) else c
  }

  /** Assigns null or a LinkedIn URL. */
  function SetLinkedinUrl(c: Contact, v: Option<string>): (r: Contact)
    ensures r.(linkedinUrl := c.linkedinUrl) == c
    ensures v.None? || IsValidLinkedinUrl(v) ==> r.linkedinUrl == v
    ensures v.Some? && !IsValidLinkedinUrl(v) ==> r == c
  {
    if v.None? || IsValidLinkedinUrl(v) then c.(linkedinUrl := v) else c
  }

  function SetBirthDate(c: Contact, v: Option<Date>): (r: Contact)
    ensures r.birthDate == v && r.(birthDate := c.birthDate) == c
  {
    c.(birthDate := v)
  }

  function SetCreatedAt(c: Contact, v: Option<DateTime>): (r: Contact)
    ensures r.createdAt == v && r.(createdAt := c.createdAt) == c
  {
    c.(createdAt := v)
  }

  function SetUpdatedAt(c: Contact, v: Option<DateTime>): (r: Contact)
    ensures r.updatedAt == v && r.(updatedAt := c.updatedAt) == c
  {
    c.(updatedAt := v)
  }

  // ---------------------------------------------------------------------------
  // The guarded-field invariant
  // ---------------------------------------------------------------------------

  /** What the guarded setters maintain: the names are null or non-empty, the
      phones, address and URL are null or valid. */
  predicate Guarded(c: Contact)
  {
    && (c.firstName.None? || IsPresent(c.firstName))
    && (c.lastName.None? || IsPresent(c.lastName))
    && (c.phonePrimary.None? || IsValidPhone(c.phonePrimary))
    && (c.phoneSecondary.None? || IsValidPhone(c.phoneSecondary))
    && (c.email.None? || IsValidEmail(c.email))
    && (c.linkedinUrl.None? || IsValidLinkedinUrl(c.linkedinUrl))
  }

  /** A contact built with `new Contact()` and changed only through the setters
      never holds an empty name or a malformed phone, address or URL: the
      guarded setters refuse such values ... */
  lemma GuardedSettersPreserveGuarded(c: Contact, s: Option<string>)
    requires Guarded(c)
    ensures Guarded(Blank)
    ensures Guarded(SetFirstName(c, s)) && Guarded(SetLastName(c, s))
    ensures Guarded(SetPhonePrimary(c, s)) && Guarded(SetPhoneSecondary(c, s))
    ensures Guarded(SetEmail(c, s)) && Guarded(SetLinkedinUrl(c, s))
  {
    NameSettersPreserveGuarded(c, s);
    assert Guarded(SetPhonePrimary(c, s));
    assert Guarded(SetPhoneSecondary(c, s));
    assert Guarded(SetEmail(c, s));
  }

  lemma NameSettersPreserveGuarded(c: Contact, s: Option<string>)
    requires Guarded(c)
    ensures Guarded(SetFirstName(c, s)) && Guarded(SetLastName(c, s))
  {
    assert Guarded(SetFirstName(c, s));
  }

  /** ... and the unguarded setters do not touch those fields. */
  lemma OtherSettersPreserveGuarded(c: Contact, s: Option<string>, d: Option<Date>, t: Option<DateTime>, id: Int32)
    requires Guarded(c)
    ensures Guarded(SetContactId(c, id)) && Guarded(SetMiddleName(c, s)) && Guarded(SetNickname(c, s))
    ensures Guarded(SetBirthDate(c, d)) && Guarded(SetCreatedAt(c, t)) && Guarded(SetUpdatedAt(c, t))
  {
    GuardedFieldsDecide(c, SetContactId(c, id));
    GuardedFieldsDecide(c, SetMiddleName(c, s));
    GuardedFieldsDecide(c, SetNickname(c, s));
    GuardedFieldsDecide(c, SetBirthDate(c, d));
    GuardedFieldsDecide(c, SetCreatedAt(c, t));
    GuardedFieldsDecide(c, SetUpdatedAt(c, t));
  }

  lemma GuardedFieldsDecide(a: Contact, b: Contact)
    requires Guarded(a)
    requires a.firstName == b.firstName && a.lastName == b.lastName
    requires a.phonePrimary == b.phonePrimary && a.phoneSecondary == b.phoneSecondary
    requires a.email == b.email && a.linkedinUrl == b.linkedinUrl
    ensures Guarded(b)
  {
  }

  /** The primary phone can never be cleared once set, the secondary one can. */
  lemma PrimaryPhoneCannotBeCleared(c: Contact)
    requires c.phonePrimary.Some?
    ensures SetPhonePrimary(c, None).phonePrimary == c.phonePrimary
    ensures SetPhoneSecondary(c, None).phoneSecondary.None?
  {
  }

  // ---------------------------------------------------------------------------
  // fullName and isAdult
  // ---------------------------------------------------------------------------

  /** `fullName()`: first, middle and last name joined with single blanks, the
      middle name left out when null or empty; a null part prints as "null". */
  function FullName(c: Contact): (r: string)
    ensures StartsWith(r, Show(c.firstName) + " ")
    ensures EndsWith(r, " " + Show(c.lastName))
    ensures |r| == |Show(c.firstName)| + |Show(c.lastName)| + 1 +
      (if IsPresent(c.middleName) then |c.middleName.value| + 1 else 0)
    ensures IsPresent(c.middleName) ==>
      r[|Show(c.firstName)| + 1..|Show(c.firstName)| + 1 + |c.middleName.value|] == c.middleName.value
  {
    var first := Show(c.firstName);
    var last := Show(c.lastName);
    if c.middleName.Some? && |c.middleName.value| > 0 then
      var r := first + " " + c.middleName.value + " " + last;
      assert r[..|first + " "|] == first + " ";
      assert r[|r| - |" " + last|..] == " " + last;
      assert r[|first| + 1..|first| + 1 + |c.middleName.value|] == c.middleName.value;
      r
    else
      var r := first + " " + last;
      assert r[..|first + " "|] == first + " ";
      assert r[|r| - |" " + last|..] == " " + last;
      r
  }

  /** The full name has one more blank than its parts, two more with a middle name. */
  lemma FullNameBlanks(c: Contact)
    ensures CountChar(FullName(c), ' ') ==
      CountChar(Show(c.firstName), ' ') + CountChar(Show(c.lastName), ' ') +
      (if IsPresent(c.middleName) then CountChar(c.middleName.value, ' ') + 2 else 1)
  {
    var first := Show(c.firstName);
    var last := Show(c.lastName);
    if IsPresent(c.middleName) {
      var m := c.middleName.value;
      assert FullName(c) == first + " " + m + " " + last;
      CountCharConcat(first, " ", ' ');
      CountCharConcat(first + " ", m, ' ');
      CountCharConcat(first + " " + m, " ", ' ');
      CountCharConcat(first + " " + m + " ", last, ' ');
    } else {
      assert FullName(c) == first + " " + last;
      CountCharConcat(first, " ", ' ');
      CountCharConcat(first + " ", last, ' ');
    }
  }

  /** `isAdult()`: the eighteenth birthday (February 29 clamped to February 28)
      is strictly before today. */
  function IsAdult(c: Contact, today: Date): (r: bool)
    requires c.birthDate.Some? ==> Valid(c.birthDate.value)
    ensures r ==> c.birthDate.Some? && c.birthDate.value.year + 18 <= today.year
  {
    c.birthDate.Some? && Before(PlusYears(c.birthDate.value, 18), today)
  }

  /** Once adult, always adult. */
  lemma IsAdultMonotone(c: Contact, today: Date, later: Date)
    requires c.birthDate.Some? ==> Valid(c.birthDate.value)
    requires IsAdult(c, today) && !Before(later, today)
    ensures IsAdult(c, later)
  {
  }

  /** On the eighteenth birthday itself a contact is not yet adult; on the
      next day of that year it is. */
  lemma IsAdultBoundary(c: Contact, birthday: Date)
    requires c.birthDate.Some? && Valid(c.birthDate.value)
    requires birthday == PlusYears(c.birthDate.value, 18)
    ensures !IsAdult(c, birthday)
    ensures birthday.day < DaysInMonth(birthday.year, birthday.month) ==>
      IsAdult(c, Date(birthday.year, birthday.month, birthday.day + 1))
  {
  }
}
