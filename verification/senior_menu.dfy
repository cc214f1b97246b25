/**
 * main/src/controllers/SeniorDeveloperMenuController.java: the junior
 * developer's menu (with the tester's silent empty search) plus creating
 * and deleting contacts; both logout entries end the program.
 */
module SeniorDeveloperMenuController {
  import opened Results
  import opened JavaText
  import opened BaseMenuController
  import ContactPrompts

  /** The columns behind search types 1 and 2. */
  const SearchFields: seq<string> := ["first_name", "last_name"]

  /** The confirmation a deletion needs, compared ignoring case. */
  const Confirmation: string := "YES"

  /** `addContact()`: four trimmed lines, passed on unchecked. */
  function AddContact(input: seq<string>): (r: Option<Reply>)
    ensures r.None? <==> |input| < 4
    ensures r.Some? ==> r.value.consumed == 4 && r.value.notices == []
    ensures r.Some? ==> |r.value.calls| == 1 && r.value.calls[0].AddContact?
    ensures r.Some? ==>
      var c := r.value.calls[0];
      c.firstName == Trim(input[0]) && c.lastName == Trim(input[1])
      && c.email == Trim(input[2]) && c.phone == Trim(input[3])
  {
    if |input| < 4 then None
    else Some(Reply(4, [Effect.AddContact(Trim(input[0]), Trim(input[1]), Trim(input[2]), Trim(input[3]))], []))
  }

  /** `deleteContact()`: an id `Long.parseLong` refuses is reported before
      the confirmation is read; otherwise the contact is deleted exactly
      when the trimmed confirmation equals "YES" ignoring case. */
  function DeleteContact(input: seq<string>): (r: Option<Reply>)
    ensures r.None? <==> |input| == 0 || (ParseLong(input[0]).Some? && |input| < 2)
    ensures r.Some? && ParseLong(input[0]).None? ==> r.value == Reply(1, [], [InvalidId])
    ensures r.Some? && ParseLong(input[0]).Some? ==> r.value.consumed == 2
    ensures r.Some? ==>
      (r.value.calls != [] <==> ParseLong(input[0]).Some? && EqualsIgnoreCase(Trim(input[1]), Confirmation))
    ensures r.Some? && r.value.calls != [] ==> r.value.calls == [Effect.DeleteContact(ParseLong(input[0]).value)]
    ensures r.Some? && r.value.calls == [] && ParseLong(input[0]).Some? ==> r.value.notices == [DeletionCancelled]
  {
    if |input| == 0 then None
    else
      match ParseLong(input[0])
      case None => Some(Reply(1, [], [InvalidId]))
      case Some(id) =>
        if |input| < 2 then None
        else if EqualsIgnoreCase(Trim(input[1]), Confirmation) then Some(Reply(2, [Effect.DeleteContact(id)], []))
        else Some(Reply(2, [], [DeletionCancelled]))
  }

  /** A lower-case "yes" with blanks around it still confirms. */
  lemma LowerCaseYesConfirms(id: string)
    requires ParseLong(id).Some?
    ensures DeleteContact([id, " yes "]) == Some(Reply(2, [Effect.DeleteContact(ParseLong(id).value)], []))
  {
    var line := " yes ";
    assert LeadingTrimmed(line) == 1;
    assert TrailingTrimmed(line[1..]) == 1;
    assert Trim(line) == "yes";
    assert CharEqualsIgnoreCase('y', 'Y') && CharEqualsIgnoreCase('e', 'E') && CharEqualsIgnoreCase('s', 'S');
  }

  /** A confirmation of a different length never deletes. */
  lemma OtherAnswersCancel(id: string, answer: string)
    requires ParseLong(id).Some? && |Trim(answer)| != 3
    ensures DeleteContact([id, answer]) == Some(Reply(2, [], [DeletionCancelled]))
  {
  }

  /** The service calls the senior developer menu makes. */
  predicate SeniorCall(e: Effect)
  {
    e.ChangePasswordChecked? || e.ListContacts? || e.SearchByField? || e.SearchByMultipleFields?
    || e.SortContacts? || e.UpdateContact? || e.AddContact? || e.DeleteContact? || e.UndoLastOperation?
  }

  lemma SeniorCallsNoUserAdministration(e: Effect)
    requires SeniorCall(e)
    ensures !UserAdministration(e)
  {
  }

  /** `handleUserSelection(option)`: both logout entries end the program;
      every other entry runs its prompt. */
  function Handle(s: Session, option: Int32): (r: Step)
    ensures Follows(r.session, s)
    ensures r.Halt? <==> option == 0 || option == 2
    ensures r.Halt? ==> r.session == s
    ensures r.OutOfInput? ==> r.session.input == []
    ensures r.session.history == s.history && r.session.exitRequested == s.exitRequested
    ensures forall e :: e in Added(s, r.session) ==> SeniorCall(e)
    ensures option != 9 ==> forall e :: e in Added(s, r.session) ==> !e.DeleteContact?
  {
    if option == 0 || option == 2 then Halt(s)
    else Perform(s, Entry(s.input, option))
  }

  /** The prompt behind each entry that does not log out; each makes at
      most one call, and only entry 9 deletes. */
  function Entry(input: seq<string>, option: Int32): (r: Option<Reply>)
    requires option != 0 && option != 2
    ensures r.Some? ==> r.value.consumed <= |input| && |r.value.calls| <= 1
    ensures r.Some? ==> forall e :: e in r.value.calls ==> SeniorCall(e)
    ensures r.Some? && option != 9 ==> forall e :: e in r.value.calls ==> !e.DeleteContact?
    ensures option == 3 ==> r == Some(Reply(0, [ListContacts(true)], []))
    ensures option == 10 ==> r == Some(Reply(0, [UndoLastOperation], []))
    ensures !(1 <= option <= 10) ==> r == Some(Reply(0, [], [InvalidSelection]))
  {
    match option
    case 1 => ContactPrompts.ChangePasswordChecked(input)
    case 3 => Some(Reply(0, [ListContacts(true)], []))
    case 4 => ContactPrompts.SearchSingle(input, SearchFields)
    case 5 => ContactPrompts.SearchMultiple(input, false)
    case 6 => ContactPrompts.Sort(input)
    case 7 => ContactPrompts.Update(input)
    case 8 => AddContact(input)
    case 9 => DeleteContact(input)
    case 10 => Some(ContactPrompts.UndoOperation)
    case _ => Some(Reply(0, [], [InvalidSelection]))
  }

  lemma HandleWellBehaved()
    ensures WellBehaved(Handle)
  {
  }

  /** A contact is deleted only through entry 9, with a parsable id and
      the confirmation. */
  lemma DeletionConfirmed(s: Session, option: Int32, id: int)
    requires Effect.DeleteContact(id) in Added(s, Handle(s, option).session)
    ensures option == 9 && |s.input| >= 2
    ensures ParseLong(s.input[0]) == Some(id) && EqualsIgnoreCase(Trim(s.input[1]), Confirmation)
  {
  }

  /** No menu entry administers a user. */
  lemma HandleNoUserAdministration()
    ensures Confined(Handle, e => !UserAdministration(e))
  {
    forall s: Session, option: Int32, e: Effect | e in Added(s, Handle(s, option).session)
      ensures !UserAdministration(e)
    {
      SeniorCallsNoUserAdministration(e);
    }
  }

  /** A whole senior developer session leaves the users alone. */
  lemma SeniorSessionNoUserAdministration(s: Session)
    ensures forall e :: e in Added(s, RunMenuLoop(Handle, s).session) ==> !UserAdministration(e)
  {
    HandleWellBehaved();
    HandleNoUserAdministration();
    MenuLoopConfined(Handle, e => !UserAdministration(e), s.(exitRequested := false));
  }
}
