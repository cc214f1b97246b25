# Contact management system: a Dafny model of its core

The system is a console contact and user manager. Users log in and get the menu of their
role: Tester, Junior Developer, Senior Developer or Manager. Through that menu they list,
search, sort, update, add and delete contacts, or administer users. The repository holds two
divergent source trees, `main/src/...` and `src/main/java/com/emirfurqan/...`. This model keeps
them apart, because the copies disagree (the two `User.setUserRole` setters accept different
values, for example). Each modelled source file is one module:

| module | source file |
|---|---|
| `InputValidator` | main/src/utils/InputValidator.java |
| `ContactModel` | main/src/models/Contact.java |
| `UserModel` | main/src/models/User.java |
| `ContactDao` | main/src/dao/ContactDaoImplementation.java |
| `ContactStatistics` | main/src/services/StatisticalInfoService.java |
| `BaseMenuController` | main/src/controllers/BaseMenuController.java |
| `TesterMenuController`, `JuniorDeveloperMenuController`, `SeniorDeveloperMenuController`, `ManagerMenuController` | main/src/controllers/*MenuController.java |
| `ContactPrompts` | the prompts the Tester, Junior and Senior controllers share (search, sort, update, password) |
| `Application` | main/src/app/Application.java |
| `EmirfurqanUser` | src/main/java/com/emirfurqan/models/User.java |
| `EmirfurqanContactService` | src/main/java/com/emirfurqan/services/ContactService.java (`sortContacts`) |
| `EmirfurqanUndo` | src/main/java/com/emirfurqan/services/UndoService.java |
| `EmirfurqanStatistics` | src/main/java/com/emirfurqan/services/StatisticalInfoService.java |
| `EmirfurqanUserService` | src/main/java/com/emirfurqan/services/UserService.java (`generateStatistics`) |
| `EmirfurqanApplication` | src/main/java/com/emirfurqan/app/Application.java |

Helper modules hold the Java library behaviour the core relies on:

- `Results`: `Option`, `Result` and the exceptions.
- `JavaText`: `String.trim`, `isBlank`, case mapping, `equalsIgnoreCase`, `CASE_INSENSITIVE_ORDER`, `indexOf`, `Integer.parseInt` and `Long.parseLong`.
- `Calendar`: proleptic Gregorian dates, `plusYears`/`minusYears` and strict `ISO_LOCAL_DATE` parsing in the calendar-date extended format `YYYY-MM-DD` of section 4.1.2.2 of ISO 8601:2004.
- `Patterns`: the regular expressions, written out as hand-made matchers.
- `Roles`: the `Role` enum, `Role.valueOf`, and the routing of a role string that both `routeToRoleMenu` methods share.
- `Counting`: `groupingBy(..., counting())` and the sum of a map's values.

Conventions:

- A Java `null` string is `None`.
- "Today" and the current month are parameters.
- The console is the sequence of lines still to be read; a prompt that finds it empty stands for the `NoSuchElementException` that `Scanner.nextLine` throws.
- A menu session records the service calls it made as a trace of `Effect`s, plus the messages it showed as `Notice`s.
- The capability properties of the roles are stated over that trace: Tester read-only, Junior no create or delete, Senior no user administration, Manager no contact access.

Some behaviours of the code are easy to misread; the model follows the code in each:

- **Sort reversal.** Sorting descending is not the reverse of sorting ascending. The code sorts with a stable `List.sort` and a reversed comparator, so contacts with equal keys keep their input order in both directions. `EmirfurqanContactService.DescendingIsNotReversedAscending` shows a two-contact list that both directions leave as it is.
- **Logout.** Logout ends the whole program, not only the session. The Tester, Junior and Senior controllers end the JVM with `System.exit(0)` on logout. The main tree's `startApp` runs a single session and then shuts down. An exception thrown by a service (a `DatabaseException`, or a null role) leaves `startApp` uncaught.
- **Error kinds.** No modelled code raises an error for a duplicate value, so the model has no such error case.
- **Role names across the trees.** The `com/emirfurqan` `User.setUserRole` stores only "admin" or "user". `routeToRoleMenu` in that tree maps neither to a role, so a user whose role was set through that setter is always sent back to the login screen. `EmirfurqanApplication.StoredRolesNeverRoute` proves this.

## Model

| member | source | states |
|---|---|---|
| InputValidator.IsValidPhoneNumber | main/src/utils/InputValidator.java:26-52 | an accepted number is never null and is `+` followed by ASCII digits |
| InputValidator.PhoneNumberSpec | main/src/utils/InputValidator.java:26-52 | a number is accepted iff it is `+` and digits, starts with one of the ten listed codes, and has exactly that code's digit count after it (11 for +86 and +55, else 10) |
| InputValidator.CheckCodesFromSpec | main/src/utils/InputValidator.java:39-51 | the scan over the code table from a given position answers true iff some code at or after that position starts the number and is followed by exactly its digit count |
| InputValidator.CodesArePrefixFree | main/src/utils/InputValidator.java:36 | no listed country code is a prefix of another, so the order of the scan cannot change the answer |
| InputValidator.PhoneNumberExamples | main/src/utils/InputValidator.java:36-37 | +905551234567 is accepted; +90555123456 (one digit short), +9955512345678 (unlisted code) and null are refused |
| InputValidator.UnknownCodeRefused | main/src/utils/InputValidator.java:39-51 | a number whose code is not in the list is refused although its shape is valid |
| InputValidator.IsValidEmail | main/src/utils/InputValidator.java:60-81 | an accepted address is non-null and matches `^[\w.-]+@[\w.-]+\.\w{2,}$` |
| InputValidator.EmailDomainSpec | main/src/utils/InputValidator.java:60-81 | an address is accepted iff it has the pattern's shape and its lower-cased text from the `@` on is one of the five allowed domains |
| InputValidator.OnlyOneAtSign | main/src/utils/InputValidator.java:14 | an address of the pattern's shape holds exactly one `@` |
| InputValidator.EndsWithDomain | main/src/utils/InputValidator.java:73-79 | for an address with one `@`, ending with an allowed domain is the same as its text from the `@` on being that domain, ignoring case |
| InputValidator.AllowedDomainsEndInCom | main/src/utils/InputValidator.java:66-72 | every allowed domain ends in ".com" |
| InputValidator.ValidatorEmailIsContactEmail | main/src/models/Contact.java:171-174 | every address the validator accepts also passes `Contact.isValidEmail`, whose top-level domain is 2 to 6 letters |
| InputValidator.EmailAcceptedExample | main/src/utils/InputValidator.java:66-79 | any well-formed local part at gmail.com is accepted |
| InputValidator.EmailOtherDomainExample | main/src/utils/InputValidator.java:73-80 | a well-formed address at example.com is refused |
| InputValidator.IsValidDate | main/src/utils/InputValidator.java:89-97 | null is refused; the ISO text of every real date with a year within ±999,999,999 is accepted, signed years included; text starting with a digit is accepted iff it is the `yyyy-MM-dd` text of a real date from year 0 to 9999; anything accepted parses to a real date |
| InputValidator.ContainsOnlyLetters | main/src/utils/InputValidator.java:105-110 | true iff the name is non-null, non-empty and every character is a letter |
| InputValidator.LettersPlusSpec | main/src/utils/InputValidator.java:17 | the `^[\p{L}]+$` matcher accepts exactly the non-empty all-letter strings |
| InputValidator.IsValidNameLength | main/src/utils/InputValidator.java:118-123 | true iff the name is non-null, not all whitespace, and its untrimmed length in UTF-16 code units is at most 50 |
| InputValidator.GetNameErrorMessage | main/src/utils/InputValidator.java:132-143 | no message iff the length and letter checks both pass; every message starts with the field name; the checks run in the order blank, length, letters: a null or blank name gets "cannot be empty", an over-long non-blank name gets the length message with its actual length in UTF-16 code units, and a name of valid length with a non-letter gets "must contain only letters" |
| InputValidator.BlankBeforeLength | main/src/utils/InputValidator.java:133-137 | a 60-blank name is reported as empty, not as too long: blankness is checked first |
| InputValidator.FormatName | main/src/utils/InputValidator.java:152-176 | null or blank input comes back unchanged; otherwise the result has the trimmed input's length and each character is the trimmed character capitalised after a separator or at the start, lower-cased elsewhere |
| InputValidator.FormatCharsSpec | main/src/utils/InputValidator.java:161-173 | the character-by-character loop equals the position-wise description: separators kept, first letter of each word upper-cased, the rest lower-cased |
| InputValidator.FormatCharsKeepsClass | main/src/utils/InputValidator.java:164-171 | formatting keeps whitespace and hyphens where they were and never turns a visible character into whitespace |
| InputValidator.CaseMappingKeepsClass | main/src/utils/InputValidator.java:166-170 | upper- and lower-casing keep separators, keep visible characters visible, and are idempotent |
| InputValidator.FormatCharsTrimmed | main/src/utils/InputValidator.java:157-175 | the formatted text of a trimmed name is itself trimmed |
| InputValidator.FormatCharsTwice | main/src/utils/InputValidator.java:161-173 | running the character loop over its own output gives the same text |
| InputValidator.FormatNameIdempotent | main/src/utils/InputValidator.java:152-176 | formatting a formatted name changes nothing |
| InputValidator.IsValidBirthdate | main/src/utils/InputValidator.java:186-212 | true iff the text parses as a date that is strictly before today and not before today minus 150 years |
| InputValidator.GetBirthdateErrorMessage | main/src/utils/InputValidator.java:220-246 | every message is one of the five listed, chosen in the order empty, unparseable, future, today, too old: null or blank text gets "cannot be empty", non-blank text that does not parse gets the format message, a date after today "cannot be in the future", today "cannot be today", and a past date before today minus 150 years "too far in the past" |
| InputValidator.BirthdateMessageMatchesValidity | main/src/utils/InputValidator.java:186-246 | there is no message exactly when `isValidBirthdate` accepts |
| InputValidator.BirthdateBoundaries | main/src/utils/InputValidator.java:203-206 | today minus 150 years is accepted, and February 30 is refused |
| ContactModel.SetContactId | main/src/models/Contact.java:110-113 | the id is set and no other field changes |
| ContactModel.SetFirstName | main/src/models/Contact.java:115-118 | a non-null, non-empty name is stored; anything else leaves the contact as it was; other fields never change |
| ContactModel.SetMiddleName | main/src/models/Contact.java:120-123 | any value, null included, is stored and no other field changes |
| ContactModel.SetLastName | main/src/models/Contact.java:125-128 | a non-null, non-empty name is stored; anything else leaves the contact as it was |
| ContactModel.SetNickname | main/src/models/Contact.java:130-133 | any value is stored and no other field changes |
| ContactModel.SetPhonePrimary | main/src/models/Contact.java:135-138 | a phone is stored iff it is an optional `+` and 7 to 15 digits; otherwise the contact is unchanged |
| ContactModel.SetPhoneSecondary | main/src/models/Contact.java:140-143 | null or a valid phone is stored; any other value is ignored |
| ContactModel.SetEmail | main/src/models/Contact.java:145-148 | an address is stored iff it matches the contact's email pattern (no domain allow-list); otherwise the contact is unchanged |
| ContactModel.SetLinkedinUrl | main/src/models/Contact.java:150-153 | null or an http(s) linkedin.com URL with a path is stored; anything else is ignored |
| ContactModel.SetBirthDate | main/src/models/Contact.java:155-158 | the date is stored and no other field changes |
| ContactModel.SetCreatedAt | main/src/models/Contact.java:160-163 | the timestamp is stored and no other field changes |
| ContactModel.SetUpdatedAt | main/src/models/Contact.java:165-168 | the timestamp is stored and no other field changes |
| ContactModel.GuardedSettersPreserveGuarded | main/src/models/Contact.java:115-153 | `new Contact()` holds no empty name and no malformed phone, address or URL, and the guarded setters keep it that way |
| ContactModel.NameSettersPreserveGuarded | main/src/models/Contact.java:115-128 | the first- and last-name setters keep a guarded contact guarded |
| ContactModel.OtherSettersPreserveGuarded | main/src/models/Contact.java:110-168 | the unguarded setters cannot break that invariant either |
| ContactModel.PrimaryPhoneCannotBeCleared | main/src/models/Contact.java:135-143 | `setPhonePrimary(null)` keeps the old primary phone, while `setPhoneSecondary(null)` clears the secondary one |
| ContactModel.FullName | main/src/models/Contact.java:186-193 | the full name starts with the first name and a blank, ends with a blank and the last name, is one middle name plus blank longer when a middle name is present, and then holds that middle name right after the first blank |
| ContactModel.FullNameBlanks | main/src/models/Contact.java:186-193 | the parts are joined by exactly one blank each, two joins with a middle name and one without |
| ContactModel.IsAdult | main/src/models/Contact.java:195-198 | an adult has a birth date at least 18 calendar years before today's year |
| ContactModel.IsAdultMonotone | main/src/models/Contact.java:195-198 | a contact adult today is adult on every later day |
| ContactModel.IsAdultBoundary | main/src/models/Contact.java:197 | on the 18th birthday itself the contact is not adult yet; on the next day of the month it is |
| UserModel.SetUserId | main/src/models/User.java:82-85 | the id is set and no other field changes |
| UserModel.SetUsername | main/src/models/User.java:87-93 | a non-null, non-empty username is stored; otherwise the user is unchanged |
| UserModel.SetPasswordHash | main/src/models/User.java:95-102 | a non-null, non-empty hash is stored; otherwise the user is unchanged |
| UserModel.SetFirstName | main/src/models/User.java:104-115 | nothing is thrown iff the name is non-null, non-empty and at most 50 UTF-16 code units long, and then it is stored; a throw leaves the user unchanged; null or empty throws "First name cannot be empty" |
| UserModel.SetLastName | main/src/models/User.java:117-128 | the same throw-or-assign rule, with the same UTF-16 length limit, for the last name, with "Last name cannot be empty" |
| UserModel.SetUserRole | main/src/models/User.java:130-137 | any non-empty role string is stored, with no check against the role list; null or empty is ignored |
| UserModel.SetCreatedAt | main/src/models/User.java:139-142 | the timestamp is stored and no other field changes |
| UserModel.SettersPreserveGuarded | main/src/models/User.java:82-142 | from `new User()`, no setter sequence leaves an empty username, hash or role, or an empty or over-long name |
| UserModel.RejectedSetterChangesNothing | main/src/models/User.java:87-137 | a rejected value, ignored or thrown, leaves every field of the user as it was |
| UserModel.NameLengthLimit | main/src/models/User.java:110-113 | a 50-character first name is accepted; a 51-character one, and 49 letters followed by one emoji (51 UTF-16 code units), throw the length message |
| EmirfurqanUser.SetUserId | src/main/java/com/emirfurqan/models/User.java:72-75 | the id is set and no other field changes |
| EmirfurqanUser.SetUsername | src/main/java/com/emirfurqan/models/User.java:77-83 | a non-null, non-empty username is stored; otherwise nothing changes |
| EmirfurqanUser.SetPasswordHash | src/main/java/com/emirfurqan/models/User.java:85-92 | a non-null, non-empty hash is stored; otherwise nothing changes |
| EmirfurqanUser.SetFirstName | src/main/java/com/emirfurqan/models/User.java:94-100 | a non-null, non-empty name of any length is stored; otherwise nothing changes |
| EmirfurqanUser.SetLastName | src/main/java/com/emirfurqan/models/User.java:102-108 | a non-null, non-empty name of any length is stored; otherwise nothing changes |
| EmirfurqanUser.SetUserRole | src/main/java/com/emirfurqan/models/User.java:110-117 | only "admin" or "user", in any letter case, is stored; every other value leaves the user unchanged |
| EmirfurqanUser.SetCreatedAt | src/main/java/com/emirfurqan/models/User.java:119-122 | the timestamp is stored and no other field changes |
| EmirfurqanUser.IsAdmin | src/main/java/com/emirfurqan/models/User.java:125-128 | true iff the stored role is "admin" ignoring case |
| EmirfurqanUser.ValidatePassword | src/main/java/com/emirfurqan/models/User.java:130-134 | a null stored hash throws; otherwise the answer is exact equality of the given text with the stored hash |
| EmirfurqanUser.StoredHashValidates | src/main/java/com/emirfurqan/models/User.java:85-134 | after storing a hash, exactly that text validates |
| EmirfurqanUser.RoleSetterAllowList | src/main/java/com/emirfurqan/models/User.java:110-128 | "Admin" makes an admin and "USER" is stored; the four application role names and null are ignored |
| EmirfurqanUser.IsAdminAfterSetUserRole | src/main/java/com/emirfurqan/models/User.java:110-128 | after `setUserRole(v)` the user is an admin iff v is "admin", or v was ignored and the user already was one |
| EmirfurqanContactService.ResolveFieldIgnoresCase | src/main/java/com/emirfurqan/services/ContactService.java:103 | two field names equal ignoring case select the same sort key |
| EmirfurqanContactService.ResolveFieldAliases | src/main/java/com/emirfurqan/services/ContactService.java:105-110 | "First_Name" sorts by first name, "BIRTHDATE" by birth date, "phone" is unknown |
| EmirfurqanContactService.LeIsTotalPreorder | src/main/java/com/emirfurqan/services/ContactService.java:105-116 | the comparator, reversed or not, is total and transitive on contacts that have the key |
| EmirfurqanContactService.EquivIsEqualKey | src/main/java/com/emirfurqan/services/ContactService.java:105-109 | two contacts compare equal iff their birth dates are equal, or their strings are equal ignoring case |
| EmirfurqanContactService.Insert | src/main/java/com/emirfurqan/services/ContactService.java:118 | inserting one contact adds exactly that contact to the list's multiset |
| EmirfurqanContactService.SortStable | src/main/java/com/emirfurqan/services/ContactService.java:118 | the sort returns a permutation of its input |
| EmirfurqanContactService.SortStableSorted | src/main/java/com/emirfurqan/services/ContactService.java:118 | the sorted list is ordered by the comparator at every pair of positions |
| EmirfurqanContactService.InsertSorted | src/main/java/com/emirfurqan/services/ContactService.java:118 | inserting into a sorted list keeps it sorted |
| EmirfurqanContactService.SortStableKeepsEqualKeyOrder | src/main/java/com/emirfurqan/services/ContactService.java:118 | contacts with equal keys appear in the same relative order as in the input (stability) |
| EmirfurqanContactService.InsertEqualKeys | src/main/java/com/emirfurqan/services/ContactService.java:118 | inserting a contact after the equal-key contacts already in place adds it last among them |
| EmirfurqanContactService.SortContacts | src/main/java/com/emirfurqan/services/ContactService.java:96-120 | null and empty lists come back unchanged before the field is looked at; on a non-empty list an unknown field throws "Cannot sort by unknown field: " + field; a null-pointer failure happens exactly for a null field, or for a known field when two or more contacts are given and one lacks the key; a result is a permutation and, for two or more contacts, sorted and stable |
| EmirfurqanContactService.DescendingIsNotReversedAscending | src/main/java/com/emirfurqan/services/ContactService.java:113-118 | two contacts named "ann" and "Ann" keep their order both ascending and descending, so descending is not the reversed ascending result |
| EmirfurqanContactService.EqualKeysKeepPairOrder | src/main/java/com/emirfurqan/services/ContactService.java:113-119 | two contacts with equal keys come back in input order in either direction |
| EmirfurqanContactService.SameFirstNameKeepsOrder | src/main/java/com/emirfurqan/services/ContactService.java:105-118 | "ann" and "Ann" sorted by first name stay in input order whichever direction is asked |
| EmirfurqanContactService.SortPairInOrder | src/main/java/com/emirfurqan/services/ContactService.java:118 | a pair already in comparator order is left in place |
| EmirfurqanUndo.Empty | src/main/java/com/emirfurqan/services/UndoService.java:11 | a new history cannot undo |
| EmirfurqanUndo.SaveState | src/main/java/com/emirfurqan/services/UndoService.java:17-21 | saving null changes nothing; saving a value puts exactly that value on top, keeps every state below it, and makes undo possible |
| EmirfurqanUndo.Undo | src/main/java/com/emirfurqan/services/UndoService.java:27-42 | a value comes back iff `canUndo` holds; then it is the top and only it is removed; an empty history stays empty |
| EmirfurqanUndo.UndoAfterSave | src/main/java/com/emirfurqan/services/UndoService.java:17-34 | save then undo returns the saved value and restores the prior history exactly |
| EmirfurqanUndo.UndoReturnsNewestFirst | src/main/java/com/emirfurqan/services/UndoService.java:17-34 | saving a sequence and undoing as many times returns it newest first and restores the history |
| ContactDao.SearchBySingleField | main/src/dao/ContactDaoImplementation.java:41-49 | the query is "SELECT * FROM contacts WHERE " followed by the field text verbatim and then " LIKE ?", with nothing else; the one bound value is "%" + value + "%"; the query has one placeholder more than the field name |
| ContactDao.SearchByMultipleFields | main/src/dao/ContactDaoImplementation.java:67-88 | an empty map builds no query; otherwise the query is the prefix and the conjunction of `<key> LIKE ?` fragments, with one `%v%` value per criterion in the map's iteration order |
| ContactDao.ConjunctionLength | main/src/dao/ContactDaoImplementation.java:75-80 | the conjunction is as long as its column names plus the seven characters of " LIKE ?" per criterion plus the five of " AND " between each two criteria |
| ContactDao.ConjunctionPlaceholders | main/src/dao/ContactDaoImplementation.java:75-80 | the conjunction holds one placeholder per criterion plus any `?` inside the column names |
| ContactDao.MultipleFieldsPlaceholdersMatchParams | main/src/dao/ContactDaoImplementation.java:71-88 | when no column name contains `?`, the placeholders in the query equal the number of bound values |
| ContactDao.UpdateContactParams | main/src/dao/ContactDaoImplementation.java:136-153 | a null birth date or update time fails before execution; otherwise ten values bind in the listed column order and the contact id is parameter 11 |
| ContactDao.UpdatePlaceholdersMatchParams | main/src/dao/ContactDaoImplementation.java:137-153 | the update statement has as many placeholders as bound values |
| ContactDao.AssignmentsPlaceholders | main/src/dao/ContactDaoImplementation.java:137 | a `col=?` list over columns without `?` holds one placeholder per column |
| ContactStatistics.FirstNameCountsAreTallies | main/src/services/StatisticalInfoService.java:37-39 | each first name present is a key, mapped to how many contacts carry it (at least one), and the counts sum to the number of contacts |
| ContactStatistics.LastNameCountsAreTallies | main/src/services/StatisticalInfoService.java:45-47 | the same for last names |
| ContactStatistics.LinkedInPartition | main/src/services/StatisticalInfoService.java:53-60 | contacts with and without a LinkedIn URL add up to all contacts |
| ContactStatistics.Extreme | main/src/services/StatisticalInfoService.java:66-80 | there is no youngest or oldest contact iff no contact has a birth date |
| ContactStatistics.ExtremeIsFirstBest | main/src/services/StatisticalInfoService.java:66-80 | the youngest (oldest) contact has a birth date no dated contact beats, and is the first with that date, as the stream's max and min keep |
| ContactStatistics.ExtremeIndex | main/src/services/StatisticalInfoService.java:66-80 | the chosen position holds a date no other dated contact beats, and every earlier position holds a strictly beaten date |
| ContactStatistics.BirthdaysInMonth | main/src/services/StatisticalInfoService.java:101-105 | the count of birthdays this month never exceeds the number of contacts |
| ContactStatistics.BirthdaysPartitionByMonth | main/src/services/StatisticalInfoService.java:101-105 | the month counts over all twelve months add up to the number of dated contacts |
| ContactStatistics.Domain | main/src/services/StatisticalInfoService.java:112-113 | an address has a domain iff it is non-null and contains `@` |
| ContactStatistics.Domains | main/src/services/StatisticalInfoService.java:111-113 | the domain list holds exactly the domains of the addresses that have one |
| ContactStatistics.EmailDomainCountsAreTallies | main/src/services/StatisticalInfoService.java:111-115 | every key is some address's domain, and the counts add up to the addresses containing `@` |
| ContactStatistics.DomainsLength | main/src/services/StatisticalInfoService.java:111-113 | one domain is listed per address that contains `@` |
| ContactStatistics.GetStatistics | main/src/services/StatisticalInfoService.java:23-119 | a null first or last name fails the grouping; otherwise the total is the number of contacts, both name counts sum to it, the LinkedIn split adds up to it, the birthday count does not exceed it, and the domain counts sum to the number of addresses containing `@`; the name and domain maps are the group counts of their columns, the youngest and oldest contacts are the first latest and first earliest birth dates (`Extreme`), and the birthday count is the number born in the month |
| EmirfurqanStatistics.BirthdaysInMonthAppend | src/main/java/com/emirfurqan/services/StatisticalInfoService.java:43-45 | the birthday count of two lists joined is the sum of their counts |
| EmirfurqanStatistics.BirthdaysInMonthBounds | src/main/java/com/emirfurqan/services/StatisticalInfoService.java:43-45 | the count is at most the list length, zero when nobody matches, the full length when everybody does |
| EmirfurqanStatistics.GetStatistics | src/main/java/com/emirfurqan/services/StatisticalInfoService.java:22-49 | a failed user or contact listing fails the whole call; otherwise totalUsers and totalContacts are the list sizes, each role held maps to the number of users holding it and the role counts sum to totalUsers, and the birthday count is the number of contacts born in the month |
| EmirfurqanUserService.CountRoles | src/main/java/com/emirfurqan/services/UserService.java:75-80 | the loop's `getOrDefault + 1` map equals the group count of the users' roles |
| EmirfurqanUserService.RoleCountsAreTallies | src/main/java/com/emirfurqan/services/UserService.java:75-83 | a role is a key iff some user holds it, each count is that role's multiplicity and at least one, and the counts sum to the number of users |
| EmirfurqanUserService.GenerateStatistics | src/main/java/com/emirfurqan/services/UserService.java:69-90 | any failure of the listing gives "Failed to generate user statistics"; otherwise totalUsers is the number listed, the keys are exactly the roles held, each maps to the number of users holding it, and the counts sum to totalUsers |
| BaseMenuController.Start | main/src/controllers/BaseMenuController.java:40-47 | a new controller has read nothing, called nothing, an empty undo history and no exit request |
| BaseMenuController.Perform | main/src/controllers/BaseMenuController.java:88 | a handled option appends exactly its calls and keeps the undo stack and the exit flag; a handler that found the console empty ends as out of input |
| BaseMenuController.Dispatch | main/src/controllers/BaseMenuController.java:88-94 | a dispatched option only reads lines and appends calls; ending the program or running out of console finishes the loop without a normal return, and running out leaves the console used up |
| BaseMenuController.MenuTurn | main/src/controllers/BaseMenuController.java:73-94 | one iteration reads at least one line and only appends calls; when it finishes the loop, the loop has not returned normally |
| BaseMenuController.MenuLoop | main/src/controllers/BaseMenuController.java:71-95 | the loop body repeated until the flag is set: it only reads lines and appends calls, and returns only with the flag set |
| BaseMenuController.RunMenuLoop | main/src/controllers/BaseMenuController.java:68-96 | the loop only reads lines and appends calls; when it returns the exit flag is set, and when it stops for lack of input the console is used up |
| BaseMenuController.RunMenuLoopResetsFlag | main/src/controllers/BaseMenuController.java:69 | the exit flag on entry makes no difference, and a loop with input reads at least one line |
| BaseMenuController.MenuLoopReads | main/src/controllers/BaseMenuController.java:71-78 | while the flag is clear and input remains, the loop reads at least one line |
| BaseMenuController.NonNumericNotDispatched | main/src/controllers/BaseMenuController.java:78-86 | a non-numeric line is reported and the loop continues without calling the handler |
| BaseMenuController.ZeroEndsLoop | main/src/controllers/BaseMenuController.java:88-94 | option 0 is handled first and then the loop returns |
| BaseMenuController.FlagEndsLoop | main/src/controllers/BaseMenuController.java:71-95 | a handler that requests exit ends the loop after its own iteration |
| BaseMenuController.MenuLoopConfined | main/src/controllers/BaseMenuController.java:71-95 | if every single handling only makes allowed calls, so does the whole loop |
| BaseMenuController.MenuLoopNeverReturns | main/src/controllers/BaseMenuController.java:71-95 | with a handler that never sets the flag (option 0 included), the loop never returns normally |
| BaseMenuController.ChangePassword | main/src/controllers/BaseMenuController.java:105-134 | two lines are read; the password is changed iff the new one is not blank and equals the confirmation; blank and mismatch get their own messages |
| BaseMenuController.BlankCheckedBeforeMismatch | main/src/controllers/BaseMenuController.java:113-122 | a blank password with a different confirmation is reported as empty, not as mismatched |
| BaseMenuController.Logout | main/src/controllers/BaseMenuController.java:143-149 | logout sets the exit flag and changes nothing else |
| BaseMenuController.Undo | main/src/controllers/BaseMenuController.java:158-170 | an empty history reports "nothing to undo"; otherwise exactly the top state is popped and nothing else changes |
| BaseMenuController.UndoPopsLastPushed | main/src/controllers/BaseMenuController.java:158-170 | undo right after a push restores the session exactly |
| ContactPrompts.CollectEntries | main/src/controllers/TesterMenuController.java:158-168 | the criteria loop stops at a blank field name; every stored key is trimmed and non-empty, and the first non-blank name is among the keys |
| ContactPrompts.CollectEntriesStep | main/src/controllers/TesterMenuController.java:161-168 | one turn of the loop stores the trimmed value under the field name and continues with the rest |
| ContactPrompts.EntryKeySettled | main/src/controllers/TesterMenuController.java:163 | a non-empty key made from a typed field name has no blank at either end, and is in lower case when searching |
| ContactPrompts.RepeatedFieldOverwrites | main/src/controllers/TesterMenuController.java:167 | a field entered twice keeps the value entered last |
| ContactPrompts.SearchSingle | main/src/controllers/TesterMenuController.java:119-151 | a non-numeric type reads one line and is reported; a number reads the value too; a search runs iff the type is in the menu's range, on that type's column with the trimmed value |
| ContactPrompts.SearchMultiple | main/src/controllers/TesterMenuController.java:156-178 | the search runs iff at least one criterion was entered, with the collected lower-cased criteria |
| ContactPrompts.Sort | main/src/controllers/TesterMenuController.java:183-199 | the trimmed, upper-cased order must be ASC or DESC or nothing is called; otherwise one sort call with the trimmed field |
| ContactPrompts.SortOrderIgnoresCase | main/src/controllers/TesterMenuController.java:190-192 | " desc " is accepted as descending |
| ContactPrompts.Update | main/src/controllers/JuniorDeveloperMenuController.java:227-263 | an id that `Long.parseLong` refuses is reported after one line; otherwise only updates of that id are called |
| ContactPrompts.UpdateFields | main/src/controllers/JuniorDeveloperMenuController.java:237-257 | no fields entered cancels without a call; otherwise one update with the trimmed, case-kept field names |
| ContactPrompts.ChangePasswordChecked | main/src/controllers/TesterMenuController.java:88-101 | the overriding password change reads the current and the new password and makes one checked change call |
| TesterMenuController.TesterCallsReadOnly | main/src/controllers/TesterMenuController.java:65-77 | no call the Tester menu can make changes a contact or administers a user |
| TesterMenuController.Handle | main/src/controllers/TesterMenuController.java:65-77 | options 2 and 0 end the program; every other option makes only Tester calls |
| TesterMenuController.Entry | main/src/controllers/TesterMenuController.java:65-77 | 3 lists contacts (non-detailed), 7 undoes, any number outside 1..7 is an invalid selection with no call |
| TesterMenuController.HandleWellBehaved | main/src/controllers/TesterMenuController.java:65-77 | every option only reads console lines and appends calls |
| TesterMenuController.HandleReadOnly | main/src/controllers/TesterMenuController.java:65-77 | no menu option changes a contact or administers a user |
| TesterMenuController.TesterSessionReadOnly | main/src/controllers/TesterMenuController.java:65-77 | a whole Tester session, however long, changes no contact except through undo, and administers no user |
| TesterMenuController.EmptySearchSilent | main/src/controllers/TesterMenuController.java:170-177 | an empty multi-field search reads one line and says nothing |
| TesterMenuController.EmailSearchable | main/src/controllers/TesterMenuController.java:129-132 | search type 3 searches the email column with the trimmed value |
| JuniorDeveloperMenuController.JuniorCallsNoCreateOrDelete | main/src/controllers/JuniorDeveloperMenuController.java:68-80 | no Junior call adds or deletes a contact or administers a user |
| JuniorDeveloperMenuController.Handle | main/src/controllers/JuniorDeveloperMenuController.java:68-80 | options 2 and 0 end the program; every other option makes only Junior calls |
| JuniorDeveloperMenuController.Entry | main/src/controllers/JuniorDeveloperMenuController.java:68-80 | 3 lists contacts in detail, 8 undoes, numbers outside 1..8 are invalid selections |
| JuniorDeveloperMenuController.HandleWellBehaved | main/src/controllers/JuniorDeveloperMenuController.java:68-80 | every option only reads console lines and appends calls |
| JuniorDeveloperMenuController.HandleNoCreateOrDelete | main/src/controllers/JuniorDeveloperMenuController.java:68-80 | no Junior option adds or deletes a contact |
| JuniorDeveloperMenuController.JuniorSessionNoCreateOrDelete | main/src/controllers/JuniorDeveloperMenuController.java:68-80 | a whole Junior session adds and deletes no contact |
| JuniorDeveloperMenuController.EmptySearchReported | main/src/controllers/JuniorDeveloperMenuController.java:186-196 | an empty multi-field search is reported as cancelled and runs no query |
| JuniorDeveloperMenuController.SingleFieldUpdate | main/src/controllers/JuniorDeveloperMenuController.java:234-257 | an id, one field and its value, then a blank line, update exactly that field of that contact |
| SeniorDeveloperMenuController.AddContact | main/src/controllers/SeniorDeveloperMenuController.java:252-272 | four lines are read and passed trimmed, unvalidated, to one add call |
| SeniorDeveloperMenuController.DeleteContact | main/src/controllers/SeniorDeveloperMenuController.java:277-300 | a non-numeric id is reported; otherwise the contact is deleted iff the trimmed confirmation is "YES" ignoring case, else the deletion is cancelled |
| SeniorDeveloperMenuController.LowerCaseYesConfirms | main/src/controllers/SeniorDeveloperMenuController.java:287-291 | " yes " confirms the deletion |
| SeniorDeveloperMenuController.OtherAnswersCancel | main/src/controllers/SeniorDeveloperMenuController.java:289-295 | an answer of any other length cancels without a call |
| SeniorDeveloperMenuController.SeniorCallsNoUserAdministration | main/src/controllers/SeniorDeveloperMenuController.java:69-83 | no Senior call administers a user |
| SeniorDeveloperMenuController.Handle | main/src/controllers/SeniorDeveloperMenuController.java:69-83 | options 2 and 0 end the program; only option 9 can delete a contact |
| SeniorDeveloperMenuController.Entry | main/src/controllers/SeniorDeveloperMenuController.java:69-83 | 3 lists contacts, 10 undoes, numbers outside 1..10 are invalid selections |
| SeniorDeveloperMenuController.HandleWellBehaved | main/src/controllers/SeniorDeveloperMenuController.java:69-83 | every option only reads console lines and appends calls |
| SeniorDeveloperMenuController.DeletionConfirmed | main/src/controllers/SeniorDeveloperMenuController.java:277-300 | a deletion only ever happens from option 9, with a parsed id and a "YES" confirmation |
| SeniorDeveloperMenuController.HandleNoUserAdministration | main/src/controllers/SeniorDeveloperMenuController.java:69-83 | no Senior option administers a user |
| SeniorDeveloperMenuController.SeniorSessionNoUserAdministration | main/src/controllers/SeniorDeveloperMenuController.java:69-83 | a whole Senior session administers no user |
| ManagerMenuController.FindUser | main/src/controllers/ManagerMenuController.java:121-124 | no user is found iff no listed user has the id; otherwise the first one with it |
| ManagerMenuController.EnterName | main/src/controllers/ManagerMenuController.java:141-155 | a name is formatted, then refused with the validator's message, or stored |
| ManagerMenuController.EditName | main/src/controllers/ManagerMenuController.java:141-172 | a blank line keeps the current name; any other line goes through the entry rule |
| ManagerMenuController.Apply | main/src/controllers/ManagerMenuController.java:131-180 | a handled option appends its calls, and its snapshot if any, and nothing else |
| ManagerMenuController.EditUser | main/src/controllers/ManagerMenuController.java:131-181 | the target is always saved as the snapshot, with its id, hash and creation time; the prompt always finishes when four lines are left; the update is called iff all four lines were accepted, and then with the edited snapshot itself; a refused name stops with one rejection message; four blank lines update the user unchanged |
| ManagerMenuController.UpdateUser | main/src/controllers/ManagerMenuController.java:108-182 | a non-numeric id returns before users are listed or a snapshot saved; an unknown id lists users and saves nothing; a found user is edited |
| ManagerMenuController.UpdateUserOutOfInputIsPrefix | main/src/controllers/ManagerMenuController.java:110-127 | when the console runs out inside the prompt, five more lines let it finish; if the id was a number, the user was found, and the finished prompt lists the users first and saves a snapshot, so the unrecorded calls are the ones it starts with |
| ManagerMenuController.AddUser | main/src/controllers/ManagerMenuController.java:189-243 | nothing is persisted unless the username is non-blank, both formatted names pass validation and the role is non-blank; then exactly one add call with the raw username and role, the formatted names and the given creation time, and no snapshot |
| ManagerMenuController.DeleteUser | main/src/controllers/ManagerMenuController.java:250-276 | a non-numeric id is reported; an unknown id saves nothing; a found user is pushed as snapshot before the single delete call |
| ManagerMenuController.ManagerCallsNoContactAccess | main/src/controllers/ManagerMenuController.java:56-68 | no Manager call touches contacts |
| ManagerMenuController.Handle | main/src/controllers/ManagerMenuController.java:56-68 | no option ends the program: 0 and 2 log out, 8 undoes, only 5, 7 and 8 change the undo history, and every call is a Manager call |
| ManagerMenuController.Entry | main/src/controllers/ManagerMenuController.java:56-68 | 3 shows statistics, 4 lists users, numbers outside 1..7 are invalid selections, and only 5 and 7 save a snapshot |
| ManagerMenuController.HandlerWellBehaved | main/src/controllers/ManagerMenuController.java:56-68 | every option only reads console lines and appends calls |
| ManagerMenuController.HandlerNoContactAccess | main/src/controllers/ManagerMenuController.java:56-68 | no Manager option touches contacts |
| ManagerMenuController.ManagerSessionNoContactAccess | main/src/controllers/ManagerMenuController.java:56-68 | a whole Manager session touches no contact |
| ManagerMenuController.UndoAfterUpdatePopsPersisted | main/src/controllers/ManagerMenuController.java:131-180 | after a completed update the pushed snapshot is the user as persisted, so undo pops that mutated object and not the pre-update values |
| Application.HandlerFor | main/src/app/Application.java:62-68 | each role's loop only reads lines and appends calls, and every role but the Manager ends the program instead of returning |
| Application.StartApp | main/src/app/Application.java:30-46 | one login and at most one menu session; shutdown is reached iff no exception escaped and the menu, if any, returned |
| Application.OnlyManagerReachesShutdownAfterMenu | main/src/app/Application.java:35-45 | after a menu session only a Manager reaches shutdown; the others exit inside the menu |
| Application.ManagerLogoutShutsDown | main/src/app/Application.java:35-45 | a Manager choosing 0 at once ends the program through shutdown, not at the login screen |
| Application.SessionCapabilities | main/src/app/Application.java:62-68 | what each role's session may have done: Tester nothing mutating, Junior no add or delete, Senior no user administration, Manager no contact access |
| EmirfurqanApplication.ShowLoginScreen | src/main/java/com/emirfurqan/app/Application.java:46-74 | the login screen stops at an "exit" line in any case, or at a username and password that log in; what it leaves is a suffix of the console |
| EmirfurqanApplication.LoginScreenRejections | src/main/java/com/emirfurqan/app/Application.java:48-73 | everything read before that stop was failed username and password pairs |
| EmirfurqanApplication.RejectedBeforeExit | src/main/java/com/emirfurqan/app/Application.java:48-57 | the lines before an accepted "exit" are failed username and password pairs |
| EmirfurqanApplication.RejectedBeforeLogin | src/main/java/com/emirfurqan/app/Application.java:48-66 | the lines before a successful login are failed pairs, and the username read is not "exit" |
| EmirfurqanApplication.LoginScreenAfterRejections | src/main/java/com/emirfurqan/app/Application.java:48-73 | after any number of failed pairs, an exit line or a good pair ends the login screen exactly there |
| EmirfurqanApplication.StoredRolesNeverRoute | src/main/java/com/emirfurqan/app/Application.java:82-88 | a role stored through this tree's setter ("admin" or "user") always routes to the unknown-role message |
| EmirfurqanApplication.StartApp | src/main/java/com/emirfurqan/app/Application.java:29-43 | every visit was routed by its user's role and logged in with a username and password from the console; a null-role visit can only be the last one and crashes; a shutdown needs an "exit" line |
| EmirfurqanApplication.Resume | src/main/java/com/emirfurqan/app/Application.java:77-97 | an unknown role reads nothing more; a known role reads its first menu choice and then the lines its session reports; a null role, a session that throws, or one that runs past the console ends the program |
| EmirfurqanApplication.LoggedInAfterRejections | src/main/java/com/emirfurqan/app/Application.java:48-73 | failed attempts followed by a good pair log that user in |
| EmirfurqanApplication.ExitShutsDown | src/main/java/com/emirfurqan/app/Application.java:34-42 | failed attempts then "exit" shut down with no visit |
| EmirfurqanApplication.UnknownRoleReturnsToLogin | src/main/java/com/emirfurqan/app/Application.java:84-88 | an unknown role returns to the login loop, which continues on the rest of the console |
| EmirfurqanApplication.MenuSessionReturnsToLogin | src/main/java/com/emirfurqan/app/Application.java:34-40 | after a menu session the login screen shows again on the lines the session left |
| EmirfurqanApplication.ExceptionEndsProgram | src/main/java/com/emirfurqan/app/Application.java:29-43 | a null role or a session that throws ends the program without shutdown |
| Roles.ValueOf | main/src/app/Application.java:54 | `Role.valueOf` finds a constant iff the name is exactly one constant's name |
| Roles.ValueOfInvertsName | main/src/app/Application.java:54 | every constant's name looks up that constant |
| Roles.RoleOf | src/main/java/com/emirfurqan/app/Application.java:82 | a role string maps to a role iff its upper-cased, underscored form is that role's constant name |
| Roles.RouteOf | main/src/app/Application.java:49-69 | a null role string is the null-pointer route; a role string reaches a menu iff its upper-cased, underscored form names a role constant, and then that constant's menu; any other string is the unknown-role route |
| Roles.DisplayNameRoutes | main/src/app/Application.java:54 | "Junior Developer" and the other display names route to their roles |
| Roles.RoleOfIgnoresCase | main/src/app/Application.java:54 | the letter case of a role string does not change its route |
| Patterns.EmailMatcherIsPattern | main/src/utils/InputValidator.java:14 | the hand-written matcher agrees with the regular expression's meaning: one `@`, a word-character local part, a domain, a last `.` and a top-level domain of the required kind |
| Patterns.SplitFixesCut | main/src/models/Contact.java:173 | in a matching address the `@` is the first `@` and the dot before the top-level domain is the last `.` |
| Patterns.OptionalPlusDigitsCases | main/src/models/Contact.java:178 | `\+?[0-9]{7,15}` accepts exactly 7 to 15 digits, with or without one leading `+` |
| Patterns.LinkedinUrlAccepted | main/src/models/Contact.java:183 | http or https, with or without "www.", then "linkedin.com/" and any one-line path, is accepted |
| Patterns.LinkedinHostAccepted | main/src/models/Contact.java:183 | after the scheme, an optional "www.", "linkedin.com/" and any one-line path match the host part |
| Patterns.LinkedinUrlNeedsPath | main/src/models/Contact.java:183 | "https://linkedin.com" without the slash is refused |
| Patterns.LinkedinUrlNeedsHttp | main/src/models/Contact.java:183 | an ftp URL is refused |
| Patterns.LinkedinUrlSingleLine | main/src/models/Contact.java:183 | a path with a line break is refused, as `.` does not match it |
| Calendar.ParseIsoLocalDate | main/src/utils/InputValidator.java:92 | a parsed date is a real calendar date with a year within ±999,999,999; text starting with a digit parses only if it is ten characters long with a year from 0 to 9999 |
| Calendar.ParseFormatRoundTrip | main/src/utils/InputValidator.java:92 | every real date with a year within ±999,999,999 parses back from its own ISO text |
| Calendar.FormatParseRoundTrip | main/src/utils/InputValidator.java:92 | formatting a parsed date and parsing again gives the same date; accepted text that starts with a digit is exactly the ISO text of its date |
| Calendar.StrictDayOfMonth | main/src/utils/InputValidator.java:92 | "2024-02-30" does not parse |
| Calendar.LeapDayOnlyInLeapYears | main/src/utils/InputValidator.java:92 | February 29 parses in 2024 but not in 2023 |
| Calendar.CompareDates | src/main/java/com/emirfurqan/services/ContactService.java:109 | the date comparison is negative, zero or positive exactly when the first date is before, equal to or after the second |
| Calendar.DaysInMonth | main/src/utils/InputValidator.java:92 | every month has 28 to 31 days |
| Calendar.PlusYears | main/src/models/Contact.java:197 | adding years keeps month and day, except that February 29 becomes February 28 in a common year |
| Calendar.PlusYearsMonotone | main/src/models/Contact.java:197 | adding the same number of years keeps dates in order |
| Calendar.MinusYears | main/src/utils/InputValidator.java:203 | subtracting years gives a real date |
| Calendar.ParseYear | main/src/utils/InputValidator.java:92 | an accepted year field is within ±999,999,999; an unsigned one is exactly four digits with a value from 0 to 9999 |
| Calendar.ParseYearText | main/src/utils/InputValidator.java:92 | the year field of every year within ±999,999,999 parses back to that year |
| Calendar.UnsignedTextIsCanonical | main/src/utils/InputValidator.java:92 | accepted text starting with a digit is exactly the ISO text of the date it parses to |
| Calendar.MinusOneYearParses | main/src/utils/InputValidator.java:92 | "-0001-01-01" parses to January 1 of year -1 |
| Calendar.FiveDigitYearParses | main/src/utils/InputValidator.java:92 | "+10000-01-01" parses to January 1 of year 10000 |
| Calendar.PaddedSignedYearIsNotCanonical | main/src/utils/InputValidator.java:92 | "+00001-01-01" parses to January 1 of year 1, whose own text is "0001-01-01" |
| Calendar.SignedYearsRefused | main/src/utils/InputValidator.java:92 | "+2024-01-01" (a plus sign on four digits), "-0000-01-01" (minus zero) and "20240-01-01" (an unsigned five-digit year) are refused |
| InputValidator.SignedYearDatesValid | main/src/utils/InputValidator.java:89-97 | "-0001-01-01" and "+10000-01-01" are valid dates and "+2024-01-01" is not |
| InputValidator.SignedYearBirthdates | main/src/utils/InputValidator.java:220-246 | for a today between year 150 and 9999, "-0001-01-01" gets the too-old message and "+10000-01-01" the future message |
| InputValidator.SupplementaryCharCountsTwice | main/src/utils/InputValidator.java:118-143 | 49 letters followed by one emoji are 51 UTF-16 code units long, fail the length check and get "must be at most 50 characters (current: 51)" |
| JavaText.Utf16Length | main/src/utils/InputValidator.java:121 | the UTF-16 length is between the number of code points and twice that number |
| JavaText.Utf16LengthOfBmp | main/src/utils/InputValidator.java:121 | text made only of Basic Multilingual Plane characters has one UTF-16 code unit per character |
| JavaText.Utf16LengthAppend | main/src/utils/InputValidator.java:121 | appending a character adds one code unit, or two for a character above U+FFFF |
| JavaText.Trim | main/src/controllers/TesterMenuController.java:127 | the trimmed text is the middle of the input, neither end is a control character or blank, and it is empty iff the input is all such characters |
| JavaText.TrimIdempotent | main/src/controllers/TesterMenuController.java:163 | trimming twice is trimming once |
| JavaText.EqualsIgnoreCaseIsLowerEquality | main/src/controllers/SeniorDeveloperMenuController.java:289 | two strings are equal ignoring case iff their lower-cased forms are equal |
| JavaText.CompareIgnoreCaseIsTotalPreorder | src/main/java/com/emirfurqan/services/ContactService.java:105-108 | `CASE_INSENSITIVE_ORDER` is antisymmetric and transitive, and compares equal iff the case-folded strings are equal |
| JavaText.IndexOf | main/src/services/StatisticalInfoService.java:113 | the position found is the first occurrence, and there is none iff the character is absent |
| JavaText.LastIndexOf | main/src/models/Contact.java:173 | the position found is the last occurrence, and there is none iff the character is absent |
| JavaText.ParseIntegerOfIntToString | main/src/controllers/BaseMenuController.java:80 | parsing the decimal text of an in-range number gives that number back |
| Counting.GroupCountIsMultiplicity | main/src/services/StatisticalInfoService.java:37-38 | each key of a group count maps to how often it occurs, at least once |
| Counting.GroupCountSum | main/src/services/StatisticalInfoService.java:37-38 | the counts of a grouping add up to the number of items grouped |
| Counting.SumValuesIncrement | src/main/java/com/emirfurqan/services/StatisticalInfoService.java:33-34 | a `getOrDefault + 1` update raises the sum of the counts by exactly one |

## Left out

- Console output: every `println`, the ANSI colour codes, `ConsoleUtils` and the `AsciiAnimations` banners are not modelled. A menu session records notices instead of the text it prints.
- `AuthService` and `PasswordHasher`: database calls and SHA-256 through `MessageDigest`. Login is the parameter `authenticate` of `EmirfurqanApplication`, and the login result is a parameter of `Application.StartApp`. A password change is an effect in the trace.
- `LoginMenu` (main tree): its console loop is not part of this model. Its result is a parameter of `Application.StartApp`.
- JDBC execution, `DatabaseConnection` and `UserDaoImplementation`: not modelled. In `ContactDaoImplementation` only the SQL text and the bound values are modelled. Statement execution, the `ResultSet` constructors and the swallowed `SQLException`s are left out, as are `getAllContacts`, `addContact` and `deleteContact`, which build constant SQL.
- The service calls of the main-tree controllers (`listAll`, `searchByField`, `updateContact`, `undoLastOperation`, the `UserService` calls) belong to classes that are not part of this model. They are effects in the trace. The answers the Manager menu needs from them (the user list) are the parameter `services`.
- The `DatabaseException` a service may throw inside a menu: not modelled. It would leave `runMenuLoop` and `startApp` uncaught.
- The role controllers and `BaseMenuController` of the `com/emirfurqan` tree are TODO stubs. A menu session of that tree is the parameter `session` of `EmirfurqanApplication.StartApp`.
- The legacy `main/src/menus/*Menu.java` files only delegate to a service that is not shown, and `main/src/services/UserService.java` only delegates. Neither is modelled.
- `averageAge` in the main-tree statistics: a floating-point average of `Period` years, left out.
- `Contact.updateTimestamp` and `Contact.toString`: the first is `SetUpdatedAt` with the clock as its argument; the second only formats text for display.
- `LocalDate.now()` and `LocalDateTime.now()`: parameters (`today`, `month`, `now`).
- Unicode: case mapping is modelled for ASCII letters only. `\p{L}` and `Character.isLetter` cover the ASCII, Latin-1 and Latin Extended-A letters. `Integer.parseInt` accepts only ASCII digits. `String.compareTo` and `CASE_INSENSITIVE_ORDER` compare UTF-16 code units while the model compares code points; the two orders differ only between a character above U+FFFF and one from U+E000 to U+FFFF.
- The `Role` enum file is not part of this model. `Roles` assumes its constants are exactly TESTER, JUNIOR_DEVELOPER, SENIOR_DEVELOPER and MANAGER, as the `switch` statements of both `routeToRoleMenu` methods list.
- The `UndoService` of the main tree is not part of this model. `BaseMenuController` keeps its history as a plain stack with `canUndo` and pop, like the `com/emirfurqan` one.
- The `Contact` class of the `com/emirfurqan` tree is not part of this model. `EmirfurqanContactService` uses a record with the sorted fields only. The sort is modelled as a stable insertion sort with the same result as `List.sort`; its in-place mutation of the caller's list is not modelled.
- BaseMenuController.Perform: a prompt whose console runs out records none of the calls it made before the `nextLine` that threw. In `updateUser`, for example, `listUsers` and `saveState` have already run. Such a session ends the program with the uncaught NoSuchElementException. `ManagerMenuController.UpdateUserOutOfInputIsPrefix` shows, for that prompt, that the dropped calls are the ones a longer console makes first. So the role confinement lemmas, stated over finished prompts, cover them too.
- ManagerMenuController.UpdateUser: does not record the `listUsers` call and the saved snapshot when the console runs out after a found id, for the reason in the line above.
- The Tester, Junior and Senior controllers of the main tree do not compile as written. Each declares `protected` overrides of the public `changePassword` and `logout` of `BaseMenuController` (lines 105 and 143), and a `private` override of its public `undo`. Each uses an undeclared field `user`, whereas the base class names it `currentUser`, and imports `utils.ConsoleColors`, which does not exist. Their `authService.changePassword(user, currentPassword, newPassword)` matches no method: `AuthService.changePassword` takes an `int` and a `String` (main/src/auth/AuthService.java:71). The model reads each controller as its author evidently meant:
  - its own `changePassword`, `logout` and `undo` replace the base ones;
  - `user` is the logged-in user;
  - the password change is the effect `ChangePasswordChecked` with the current and the new password;
  - logout calls `System.exit(0)`;
  - the colour codes are console output and are not modelled.
- Locale: Java's no-argument `toUpperCase` and `toLowerCase` follow the default locale. The model uses the root-locale (ASCII) mapping throughout. Under a Turkish locale "i" upper-cases to "İ". Then `Roles.DisplayNameRoutes` ("Junior Developer" to JUNIOR_DEVELOPER), the key and order handling of `ContactPrompts.EntryKey` and `ContactPrompts.Sort`, and the field lookup of `EmirfurqanContactService` would all behave differently.
