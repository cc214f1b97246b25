/**
 * main/src/controllers/TesterMenuController.java: the read-only role. Its
 * menu offers the checked password change, the contact listing, the two
 * searches, sorting and the contact service's undo; both logout entries end
 * the program.
 */
module TesterMenuController {
  import opened Results
  import opened JavaText
  import opened BaseMenuController
  import ContactPrompts

  /** The columns behind search types 1, 2 and 3. */
  const SearchFields: seq<string> := ["first_name", "last_name", "email"]

  /** The service calls the tester menu makes. */
  predicate TesterCall(e: Effect)
  {
    e.ChangePasswordChecked? || e.ListContacts? || e.SearchByField? || e.SearchByMultipleFields?
    || e.SortContacts? || e.UndoLastOperation?
  }

  /** What a tester may cause: no contact is changed and no user is
      administered. */
  predicate ReadOnly(e: Effect)
  {
    !ContactMutation(e) && !UserAdministration(e)
  }

  lemma TesterCallsReadOnly(e: Effect)
    requires TesterCall(e)
    ensures ReadOnly(e)
  {
  }

  /** `handleUserSelection(option)`: both logout entries end the program;
      every other entry runs its prompt. */
  function Handle(s: Session, option: Int32): (r: Step)
    ensures Follows(r.session, s)
    ensures r.Halt? <==> option == 0 || option == 2
    ensures r.Halt? ==> r.session == s
    ensures r.OutOfInput? ==> r.session.input == []
    ensures r.session.history == s.history && r.session.exitRequested == s.exitRequested
    ensures forall e :: e in Added(s, r.session) ==> TesterCall(e)
  {
    if option == 0 || option == 2 then Halt(s)
    else Perform(s, Entry(s.input, option))
  }

  /** The prompt behind each entry that does not log out. No entry changes
      a contact or administers a user, and each makes at most one call. */
  function Entry(input: seq<string>, option: Int32): (r: Option<Reply>)
    requires option != 0 && option != 2
    ensures r.Some? ==> r.value.consumed <= |input| && |r.value.calls| <= 1
    ensures r.Some? ==> forall e :: e in r.value.calls ==> TesterCall(e)
    ensures option == 3 ==> r == Some(Reply(0, [ListContacts(false)], []))
    ensures option == 7 ==> r == Some(Reply(0, [UndoLastOperation], []))
    ensures !(1 <= option <= 7) ==> r == Some(Reply(0, [], [InvalidSelection]))
  {
    match option
    case 1 => ContactPrompts.ChangePasswordChecked(input)
    case 3 => Some(Reply(0, [ListContacts(false)], []))
    case 4 => ContactPrompts.SearchSingle(input, SearchFields)
    case 5 => ContactPrompts.SearchMultiple(input, false)
    case 6 => ContactPrompts.Sort(input)
    case 7 => Some(ContactPrompts.UndoOperation)
    case _ => Some(Reply(0, [], [InvalidSelection]))
  }

  lemma HandleWellBehaved()
    ensures WellBehaved(Handle)
  {
  }

  /** No menu entry changes a contact or administers a user. */
  lemma HandleReadOnly()
    ensures Confined(Handle, ReadOnly)
  {
    forall s: Session, option: Int32, e: Effect | e in Added(s, Handle(s, option).session)
      ensures ReadOnly(e)
    {
      TesterCallsReadOnly(e);
    }
  }

  /** A whole tester session, however long, leaves the contacts and the
      users as they were (apart from the contact service's undo). */
  lemma TesterSessionReadOnly(s: Session)
    ensures forall e :: e in Added(s, RunMenuLoop(Handle, s).session) ==> ReadOnly(e)
  {
    HandleWellBehaved();
    HandleReadOnly();
    MenuLoopConfined(Handle, ReadOnly, s.(exitRequested := false));
  }

  /** An empty multi-field search reads one line and says nothing. */
  lemma EmptySearchSilent(s: Session)
    requires |s.input| > 0 && TrimIsEmpty(s.input[0])
    ensures Handle(s, 5) == Continue(Skip(s, 1))
  {
  }

  /** Search type 3 searches the email column; the value is trimmed. */
  lemma EmailSearchable(s: Session)
    requires |s.input| >= 2 && ParseInt(s.input[0]) == Some(3)
    ensures Handle(s, 4) == Continue(Skip(s, 2).(trace := s.trace + [SearchByField("email", Trim(s.input[1]))]))
  {
  }
}
