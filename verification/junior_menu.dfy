/**
 * main/src/controllers/JuniorDeveloperMenuController.java: the tester's
 * menu with the detailed listing, a reported empty search and the contact
 * update; both logout entries end the program.
 */
module JuniorDeveloperMenuController {
  import opened Results
  import opened JavaText
  import opened BaseMenuController
  import ContactPrompts

  /** The columns behind search types 1 and 2. */
  const SearchFields: seq<string> := ["first_name", "last_name"]

  /** The service calls the junior developer menu makes. */
  predicate JuniorCall(e: Effect)
  {
    e.ChangePasswordChecked? || e.ListContacts? || e.SearchByField? || e.SearchByMultipleFields?
    || e.SortContacts? || e.UpdateContact? || e.UndoLastOperation?
  }

  /** What a junior developer may cause: contacts are neither created nor
      deleted, and no user is administered. */
  predicate NoCreateOrDelete(e: Effect)
  {
    !e.AddContact? && !e.DeleteContact? && !UserAdministration(e)
  }

  lemma JuniorCallsNoCreateOrDelete(e: Effect)
    requires JuniorCall(e)
    ensures NoCreateOrDelete(e)
  {
  }

  /** `handleUserSelection(option)`: both logout entries end the program;
      every other entry runs its prompt. */
  function Handle(s: Session, option: Int32): (r: Step)
    ensures Follows(r.session, s)
    ensures r.Halt? <==> option == 0 || option == 2
    ensures r.Halt? ==> r.session == s
    ensures r.OutOfInput? ==> r.session.input == []
    ensures r.session.history == s.history && r.session.exitRequested == s.exitRequested
    ensures forall e :: e in Added(s, r.session) ==> JuniorCall(e)
  {
    if option == 0 || option == 2 then Halt(s)
    else Perform(s, Entry(s.input, option))
  }

  /** The prompt behind each entry that does not log out; each makes at
      most one call. */
  function Entry(input: seq<string>, option: Int32): (r: Option<Reply>)
    requires option != 0 && option != 2
    ensures r.Some? ==> r.value.consumed <= |input| && |r.value.calls| <= 1
    ensures r.Some? ==> forall e :: e in r.value.calls ==> JuniorCall(e)
    ensures option == 3 ==> r == Some(Reply(0, [ListContacts(true)], []))
    ensures option == 8 ==> r == Some(Reply(0, [UndoLastOperation], []))
    ensures !(1 <= option <= 8) ==> r == Some(Reply(0, [], [InvalidSelection]))
  {
    match option
    case 1 => ContactPrompts.ChangePasswordChecked(input)
    case 3 => Some(Reply(0, [ListContacts(true)], []))
    case 4 => ContactPrompts.SearchSingle(input, SearchFields)
    case 5 => ContactPrompts.SearchMultiple(input, true)
    case 6 => ContactPrompts.Sort(input)
    case 7 => ContactPrompts.Update(input)
    case 8 => Some(ContactPrompts.UndoOperation)
    case _ => Some(Reply(0, [], [InvalidSelection]))
  }

  lemma HandleWellBehaved()
    ensures WellBehaved(Handle)
  {
  }

  /** No menu entry creates or deletes a contact or administers a user. */
  lemma HandleNoCreateOrDelete()
    ensures Confined(Handle, NoCreateOrDelete)
  {
    forall s: Session, option: Int32, e: Effect | e in Added(s, Handle(s, option).session)
      ensures NoCreateOrDelete(e)
    {
      JuniorCallsNoCreateOrDelete(e);
    }
  }

  /** A whole junior developer session creates and deletes no contact. */
  lemma JuniorSessionNoCreateOrDelete(s: Session)
    ensures forall e :: e in Added(s, RunMenuLoop(Handle, s).session) ==> NoCreateOrDelete(e)
  {
    HandleWellBehaved();
    HandleNoCreateOrDelete();
    MenuLoopConfined(Handle, NoCreateOrDelete, s.(exitRequested := false));
  }

  /** An empty multi-field search reads one line and is reported as
      cancelled. */
  lemma EmptySearchReported(s: Session)
    requires |s.input| > 0 && TrimIsEmpty(s.input[0])
    ensures Handle(s, 5) == Continue(Notify(Skip(s, 1), SearchCancelled))
  {
  }

  /** A parsable id followed by a field, a value and a blank line updates
      that one field of that contact. */
  lemma SingleFieldUpdate(s: Session)
    requires |s.input| >= 4 && ParseLong(s.input[0]).Some?
    requires !TrimIsEmpty(s.input[1]) && TrimIsEmpty(s.input[3])
    ensures Added(s, Handle(s, 7).session)
      == [UpdateContact(ParseLong(s.input[0]).value, map[Trim(s.input[1]) := Trim(s.input[2])])]
  {
    var fields := s.input[1..];
    assert fields[2..][0] == s.input[3];
    var acc := map[][ContactPrompts.EntryKey(fields[0], false) := Trim(fields[1])];
    ContactPrompts.CollectEntriesStep(fields, false, map[], acc, acc, 1);
  }
}
