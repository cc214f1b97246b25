/**
 * The prompt sequences that main/src/controllers/TesterMenuController.java,
 * JuniorDeveloperMenuController.java and SeniorDeveloperMenuController.java
 * each carry a copy of: the single-field search, the field/value entry loop,
 * the multi-field search, the sort prompt, the contact update, the checked
 * password change and the undo call. Where the copies differ (the search
 * types offered, whether an empty search is reported) the difference is a
 * parameter. Each prompt reads from the unread console lines and answers
 * with a `Reply`, or `None` when the console runs out.
 */
module ContactPrompts {
  import opened Results
  import opened JavaText
  import opened BaseMenuController

  // ---------------------------------------------------------------------------
  // The field/value entry loop
  // ---------------------------------------------------------------------------

  /** A field name as typed: trimmed, and lower-cased for searches. */
  function EntryKey(line: string, lowerKeys: bool): string
  {
    if lowerKeys then ToLower(Trim(line)) else Trim(line)
  }

  /** A key the loop can store: non-empty, no blank at either end, and in
      lower case when keys are lower-cased. */
  predicate Settled(k: string, lowerKeys: bool)
  {
    |k| > 0 && k[0] > ' ' && k[|k| - 1] > ' ' && (lowerKeys ==> ToLower(k) == k)
  }

  lemma EntryKeySettled(line: string, lowerKeys: bool)
    requires |EntryKey(line, lowerKeys)| > 0
    ensures Settled(EntryKey(line, lowerKeys), lowerKeys)
  {
    var k := EntryKey(line, lowerKeys);
    if lowerKeys {
      var t := Trim(line);
      assert ToLower(k) == k by {
        assert forall i :: 0 <= i < |k| ==> ToLowerChar(ToLowerChar(t[i])) == ToLowerChar(t[i]);
      }
    }
  }

  /** The `while (true)` loop that reads a field name, stops at a blank one,
      and otherwise reads a value and puts the pair into the map, replacing
      an earlier value of the same field. The answer is the map and the
      number of lines read, or `None` when the console runs out. */
  function CollectEntries(input: seq<string>, lowerKeys: bool, acc: map<string, string>)
    : (r: Option<(map<string, string>, nat)>)
    ensures r.Some? ==> 0 < r.value.1 <= |input|
    ensures r.Some? ==> acc.Keys <= r.value.0.Keys
    ensures r.Some? ==> forall k :: k in r.value.0 && k !in acc ==> Settled(k, lowerKeys)
    ensures |input| > 0 && TrimIsEmpty(input[0]) ==> r == Some((acc, 1))
    ensures r.Some? && |input| > 0 && !TrimIsEmpty(input[0]) ==> EntryKey(input[0], lowerKeys) in r.value.0
    decreases |input|
  {
    if |input| == 0 then None
    else
      var key := EntryKey(input[0], lowerKeys);
      if |key| == 0 then Some((acc, 1))
      else if |input| < 2 then None
      else
        EntryKeySettled(input[0], lowerKeys);
        var acc' := acc[key := Trim(input[1])];
        match CollectEntries(input[2..], lowerKeys, acc')
        case None => None
        case Some((entries, n)) =>
          assert forall k :: k in entries && k !in acc ==> Settled(k, lowerKeys) by {
            forall k | k in entries && k !in acc ensures Settled(k, lowerKeys) {
              if k != key {
                assert k !in acc';
              }
            }
          }
          Some((entries, n + 2))
  }

  /** One turn of the loop: a non-blank field name and its value, then
      whatever the rest of the console gives. */
  lemma CollectEntriesStep(input: seq<string>, lowerKeys: bool, acc: map<string, string>,
                           acc': map<string, string>, entries: map<string, string>, n: nat)
    requires |input| >= 2 && !TrimIsEmpty(input[0])
    requires acc' == acc[EntryKey(input[0], lowerKeys) := Trim(input[1])]
    requires CollectEntries(input[2..], lowerKeys, acc') == Some((entries, n))
    ensures CollectEntries(input, lowerKeys, acc) == Some((entries, n + 2))
  {
    assert |EntryKey(input[0], lowerKeys)| > 0;
  }

  /** A field entered twice keeps the value entered last. */
  lemma RepeatedFieldOverwrites(field: string, first: string, second: string, done: string, lowerKeys: bool)
    requires !TrimIsEmpty(field) && TrimIsEmpty(done)
    ensures CollectEntries([field, first, field, second, done], lowerKeys, map[])
      == Some((map[EntryKey(field, lowerKeys) := Trim(second)], 5))
  {
    var k := EntryKey(field, lowerKeys);
    var once, twice := map[k := Trim(first)], map[k := Trim(second)];
    assert once[k := Trim(second)] == twice;
    assert [done][0] == done;
    assert CollectEntries([done], lowerKeys, twice) == Some((twice, 1));
    var tail := [field, second, done];
    assert tail[0] == field && tail[1] == second && tail[2..] == [done];
    CollectEntriesStep(tail, lowerKeys, once, twice, twice, 1);
    var input := [field, first, field, second, done];
    assert input[0] == field && input[1] == first && input[2..] == tail;
    assert map[][k := Trim(first)] == once;
    CollectEntriesStep(input, lowerKeys, map[], once, twice, 3);
  }

  // ---------------------------------------------------------------------------
  // Searches and sorting
  // ---------------------------------------------------------------------------

  /** `searchContactsSingle()`: reads the search type; a non-number is
      reported without reading a value. Otherwise the value is read, and
      type `t` in 1..|fields| searches `fields[t-1]` for the trimmed value;
      any other number is reported and nothing is searched. */
  function SearchSingle(input: seq<string>, fields: seq<string>): (r: Option<Reply>)
    ensures r.None? <==> |input| == 0 || (ParseInt(input[0]).Some? && |input| < 2)
    ensures r.Some? && ParseInt(input[0]).None? ==> r.value == Reply(1, [], [InvalidSearchInput])
    ensures r.Some? && ParseInt(input[0]).Some? ==> r.value.consumed == 2
    ensures r.Some? ==> (r.value.calls != [] <==> ParseInt(input[0]).Some? && 1 <= ParseInt(input[0]).value <= |fields|)
    ensures r.Some? && r.value.calls != [] ==>
      r.value.calls == [SearchByField(fields[ParseInt(input[0]).value - 1], Trim(input[1]))]
    ensures r.Some? && r.value.calls == [] && ParseInt(input[0]).Some? ==> r.value.notices == [InvalidSearchType]
    ensures r.Some? ==> forall e :: e in r.value.calls ==> e.SearchByField?
  {
    if |input| == 0 then None
    else
      match ParseInt(input[0])
      case None => Some(Reply(1, [], [InvalidSearchInput]))
      case Some(t) =>
        if |input| < 2 then None
        else if 1 <= t <= |fields| then Some(Reply(2, [SearchByField(fields[t - 1], Trim(input[1]))], []))
        else Some(Reply(2, [], [InvalidSearchType]))
  }

  /** `searchContactsMultiple()`: collects lower-cased criteria and runs the
      search only when at least one was entered. One copy reports an empty
      search as cancelled (`reportEmpty`), the others say nothing. */
  function SearchMultiple(input: seq<string>, reportEmpty: bool): (r: Option<Reply>)
    ensures r.None? <==> CollectEntries(input, true, map[]).None?
    ensures r.Some? ==> r.value.consumed == CollectEntries(input, true, map[]).value.1
    ensures r.Some? ==> (r.value.calls == [] <==> TrimIsEmpty(input[0]))
    ensures r.Some? && TrimIsEmpty(input[0]) ==>
      r.value == Reply(1, [], if reportEmpty then [SearchCancelled] else [])
    ensures r.Some? && r.value.calls != [] ==>
      var criteria := CollectEntries(input, true, map[]).value.0;
      r.value.calls == [SearchByMultipleFields(criteria)] && |criteria| > 0
      && forall k :: k in criteria ==> Settled(k, true)
    ensures r.Some? ==> forall e :: e in r.value.calls ==> e.SearchByMultipleFields?
  {
    match CollectEntries(input, true, map[])
    case None => None
    case Some((criteria, n)) =>
      assert |criteria| == 0 <==> TrimIsEmpty(input[0]);
      if |criteria| > 0 then Some(Reply(n, [SearchByMultipleFields(criteria)], []))
      else Some(Reply(n, [], if reportEmpty then [SearchCancelled] else []))
  }

  const Ascending: string := "ASC"
  const Descending: string := "DESC"

  /** `sortContacts()`: the trimmed field and the trimmed, upper-cased order;
      an order other than ASC or DESC is refused before the service call. */
  function Sort(input: seq<string>): (r: Option<Reply>)
    ensures r.None? <==> |input| < 2
    ensures r.Some? ==> r.value.consumed == 2
    ensures r.Some? ==>
      var order := ToUpper(Trim(input[1]));
      (r.value.calls != [] <==> order == Ascending || order == Descending)
    ensures r.Some? && r.value.calls != [] ==> r.value.calls == [SortContacts(Trim(input[0]), ToUpper(Trim(input[1])))]
    ensures r.Some? && r.value.calls == [] ==> r.value.notices == [BadSortOrder]
    ensures r.Some? ==> forall e :: e in r.value.calls ==> e.SortContacts?
  {
    if |input| < 2 then None
    else
      var field := Trim(input[0]);
      var order := ToUpper(Trim(input[1]));
      if order != Ascending && order != Descending then Some(Reply(2, [], [BadSortOrder]))
      else Some(Reply(2, [SortContacts(field, order)], []))
  }

  /** Upper-casing makes the order check ignore case, and trimming makes it
      ignore surrounding blanks. */
  lemma SortOrderIgnoresCase(field: string)
    ensures Sort([field, " desc "]) == Some(Reply(2, [SortContacts(Trim(field), Descending)], []))
  {
    var line := " desc ";
    assert LeadingTrimmed(line) == 1;
    assert TrailingTrimmed(line[1..]) == 1;
    assert Trim(line) == "desc";
  }

  // ---------------------------------------------------------------------------
  // Update, password, undo
  // ---------------------------------------------------------------------------

  /** `updateContact()`: a contact id that `Long.parseLong` refuses is
      reported before anything else is read; otherwise the fields to change
      are collected. */
  function Update(input: seq<string>): (r: Option<Reply>)
    ensures r.Some? ==> 0 < r.value.consumed <= |input|
    ensures r.Some? ==> forall e :: e in r.value.calls ==> e.UpdateContact?
    ensures r.Some? && ParseLong(input[0]).None? ==> r.value == Reply(1, [], [InvalidId])
    ensures r.Some? && ParseLong(input[0]).Some? ==> |input| >= 2
    ensures r.Some? ==>
      (r.value.calls != [] <==> ParseLong(input[0]).Some? && !TrimIsEmpty(input[1]))
    ensures r.Some? && r.value.calls != [] ==>
      r.value.calls[0].UpdateContact? && r.value.calls[0].contactId == ParseLong(input[0]).value
    ensures r.Some? && ParseLong(input[0]).Some? ==>
      UpdateFields(input[1..], ParseLong(input[0]).value).Some?
      && r.value.calls == UpdateFields(input[1..], ParseLong(input[0]).value).value.calls
  {
    if |input| == 0 then None
    else
      match ParseLong(input[0])
      case None => Some(Reply(1, [], [InvalidId]))
      case Some(id) =>
        match UpdateFields(input[1..], id)
        case None => None
        case Some(reply) => Some(reply.(consumed := reply.consumed + 1))
  }

  /** The field entry of `updateContact()`: trimmed field names (case kept)
      and values; an empty collection cancels the update before the service
      is called. */
  function UpdateFields(input: seq<string>, id: int): (r: Option<Reply>)
    ensures r.None? <==> CollectEntries(input, false, map[]).None?
    ensures r.Some? ==> r.value.consumed == CollectEntries(input, false, map[]).value.1
    ensures r.Some? ==> (r.value.calls == [] <==> TrimIsEmpty(input[0]))
    ensures r.Some? && TrimIsEmpty(input[0]) ==> r.value == Reply(1, [], [UpdateCancelled])
    ensures r.Some? && r.value.calls != [] ==>
      var fields := CollectEntries(input, false, map[]).value.0;
      r.value.calls == [UpdateContact(id, fields)] && |fields| > 0
      && forall k :: k in fields ==> Settled(k, false)
  {
    match CollectEntries(input, false, map[])
    case None => None
    case Some((fields, n)) =>
      assert |fields| == 0 <==> TrimIsEmpty(input[0]);
      if |fields| == 0 then Some(Reply(n, [], [UpdateCancelled]))
      else Some(Reply(n, [UpdateContact(id, fields)], []))
  }

  /** The overriding `changePassword()`: reads the current and the new
      password and hands both to AuthService unchecked. */
  function ChangePasswordChecked(input: seq<string>): (r: Option<Reply>)
    ensures r.None? <==> |input| < 2
    ensures r.Some? ==> r.value == Reply(2, [BaseMenuController.ChangePasswordChecked(input[0], input[1])], [])
  {
    if |input| < 2 then None
    else Some(Reply(2, [BaseMenuController.ChangePasswordChecked(input[0], input[1])], []))
  }

  /** The overriding `undo()`: the contact service's undo is called and its
      IllegalStateException, if any, is reported, so the loop goes on. */
  const UndoOperation: Reply := Reply(0, [UndoLastOperation], [])
}
