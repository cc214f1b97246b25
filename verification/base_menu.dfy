/**
 * main/src/controllers/BaseMenuController.java: the menu loop every role
 * controller runs, and the password change, logout and undo it offers.
 *
 * The console is the sequence of lines not read yet; `scanner.nextLine()` on
 * an exhausted console throws NoSuchElementException, which no controller
 * catches. The services a controller calls are not part of this model: each
 * call is recorded as an `Effect` appended to the session's trace, and the
 * warnings the guards print are recorded as `Notice`s. Other console output
 * is left out.
 */
module BaseMenuController {
  import opened Results
  import opened JavaText
  import UserModel

  type User = UserModel.User

  /** A call into a service. */
  datatype Effect =
    | ChangePasswordOf(userId: Int32, newPassword: string)
    | ChangePasswordChecked(currentPassword: string, newPassword: string)
    | ListContacts(detailed: bool)
    | SearchByField(field: string, value: string)
    | SearchByMultipleFields(criteria: map<string, string>)
    | SortContacts(field: string, order: string)
    | UpdateContact(contactId: int, fields: map<string, string>)
    | AddContact(firstName: string, lastName: string, email: string, phone: string)
    | DeleteContact(contactId: int)
    | UndoLastOperation
    | ViewStatistics
    | ListUsers
    | UpdateUser(user: User)
    | AddUser(user: User)
    | DeleteUser(userId: Int32)

  /** Create, update or delete of a contact. */
  predicate ContactMutation(e: Effect)
  {
    e.UpdateContact? || e.AddContact? || e.DeleteContact?
  }

  /** Any call into the contact service. */
  predicate ContactAccess(e: Effect)
  {
    || e.ListContacts? || e.SearchByField? || e.SearchByMultipleFields? || e.SortContacts?
    || e.UndoLastOperation? || ContactMutation(e)
  }

  /** Any call into the user or statistics services. */
  predicate UserAdministration(e: Effect)
  {
    e.ViewStatistics? || e.ListUsers? || e.UpdateUser? || e.AddUser? || e.DeleteUser?
  }

  /** A warning printed by a guard that turned the input down. */
  datatype Notice =
    | NotANumber
    | EmptyPassword
    | PasswordMismatch
    | NothingToUndo
    | InvalidSelection
    | InvalidSearchInput
    | InvalidSearchType
    | BadSortOrder
    | SearchCancelled
    | InvalidId
    | UpdateCancelled
    | DeletionCancelled
    | UserNotFound(userId: Int32)
    | Rejected(message: string)
    | EmptyUsername
    | EmptyRole

  /** One controller's state: the logged-in user, the unread console lines,
      the service calls and warnings so far, the undo stack (top last) and
      the `exitRequested` flag. */
  datatype Session = Session(
    currentUser: User,
    input: seq<string>,
    trace: seq<Effect>,
    notices: seq<Notice>,
    history: seq<User>,
    exitRequested: bool)

  /** A new controller for `user` reading from `input`. */
  function Start(user: User, input: seq<string>): (s: Session)
    ensures s.input == input && s.trace == [] && s.history == [] && !s.exitRequested
  {
    Session(user, input, [], [], [], false)
  }

  /** How a handler leaves: back to the loop, through `System.exit`, or with
      the console used up. */
  datatype Step = Continue(session: Session) | Halt(session: Session) | OutOfInput(session: Session)

  /** `handleUserSelection(option)` of one role. */
  type Handler = (Session, Int32) -> Step

  function Call(s: Session, e: Effect): Session
  {
    s.(trace := s.trace + [e])
  }

  function Notify(s: Session, n: Notice): Session
  {
    s.(notices := s.notices + [n])
  }

  /** The console with its first `n` lines read. */
  function Skip(s: Session, n: nat): Session
    requires n <= |s.input|
  {
    s.(input := s.input[n..])
  }

  /** `t` is `s` after some further steps: more lines read, more calls made,
      the same user. */
  predicate Follows(t: Session, s: Session)
  {
    && |t.input| <= |s.input| && t.input == s.input[|s.input| - |t.input|..]
    && |s.trace| <= |t.trace| && t.trace[..|s.trace|] == s.trace
    && t.currentUser == s.currentUser
  }

  lemma FollowsTransitive(u: Session, t: Session, s: Session)
    requires Follows(u, t) && Follows(t, s)
    ensures Follows(u, s)
  {
    assert u.trace[..|s.trace|] == u.trace[..|t.trace|][..|s.trace|];
    assert u.input == s.input[|s.input| - |u.input|..] by {
      assert t.input[|t.input| - |u.input|..] == s.input[|s.input| - |u.input|..];
    }
  }

  /** The calls made between `s` and `t`. */
  function Added(s: Session, t: Session): seq<Effect>
    requires Follows(t, s)
  {
    t.trace[|s.trace|..]
  }

  /** The calls made from `s` to `u` are those made from `s` to `t`, then
      those made from `t` to `u`. */
  lemma AddedSplits(s: Session, t: Session, u: Session)
    requires Follows(t, s) && Follows(u, t)
    ensures Follows(u, s) && Added(s, u) == Added(s, t) + Added(t, u)
  {
    FollowsTransitive(u, t, s);
    var ut := u.trace;
    assert ut[..|t.trace|] == t.trace;
    assert ut[|s.trace|..] == ut[|s.trace|..|t.trace|] + ut[|t.trace|..];
  }

  /** A handler only reads lines and appends calls. */
  ghost predicate WellBehaved(handle: Handler)
  {
    forall s: Session, option: Int32 :: Follows(handle(s, option).session, s)
  }

  /** Every call a handler makes satisfies `allowed`. */
  ghost predicate Confined(handle: Handler, allowed: Effect -> bool)
    requires WellBehaved(handle)
  {
    forall s: Session, option: Int32, e: Effect ::
      e in Added(s, handle(s, option).session) ==> allowed(e)
  }

  /** What a prompt did: how many console lines it read, the calls it made
      and the warnings it printed. A prompt whose console runs out yields
      no reply. */
  datatype Reply = Reply(consumed: nat, calls: seq<Effect>, notices: seq<Notice>)

  /** The session after a prompt: its lines read, its calls and warnings
      appended; the undo stack and the flag are untouched. */
  function Perform(s: Session, reply: Option<Reply>): (r: Step)
    requires reply.Some? ==> reply.value.consumed <= |s.input|
    ensures Follows(r.session, s)
    ensures r.OutOfInput? <==> reply.None?
    ensures r.Continue? <==> reply.Some?
    ensures Added(s, r.session) == if reply.Some? then reply.value.calls else []
    ensures r.session.history == s.history && r.session.exitRequested == s.exitRequested
  {
    match reply
    case None => OutOfInput(s.(input := []))
    case Some(p) =>
      Continue(s.(input := s.input[p.consumed..], trace := s.trace + p.calls, notices := s.notices + p.notices))
  }

  datatype Ending = Returned | Halted | InputEnded

  /** A finished menu loop: the final session and how it ended. */
  datatype Run = Run(session: Session, ending: Ending)

  /** `runMenuLoop()`: the flag is cleared on entry. */
  function RunMenuLoop(handle: Handler, s: Session): (r: Run)
    requires WellBehaved(handle)
    ensures Follows(r.session, s)
    ensures r.ending == Returned ==> r.session.exitRequested
    ensures r.ending == InputEnded ==> r.session.input == []
  {
    MenuLoop(handle, s.(exitRequested := false))
  }

  /** How one iteration of the loop leaves: the loop is over, or it goes
      on from a later session. */
  datatype Turn = Done(run: Run) | Again(next: Session)

  /** Option `option` handed to the handler: it ends the program, runs out
      of console, or returns, and option 0 then raises the flag. */
  function Dispatch(handle: Handler, t: Session, option: Int32): (r: Turn)
    requires WellBehaved(handle)
    ensures r.Done? ==> Follows(r.run.session, t) && r.run.ending != Returned
    ensures r.Done? && r.run.ending == InputEnded ==> r.run.session.input == []
    ensures r.Again? ==> Follows(r.next, t)
  {
    HandlerFollows(handle, t, option);
    match handle(t, option)
    case Halt(u) => Done(Run(u, Halted))
    case OutOfInput(u) => Done(Run(u.(input := []), InputEnded))
    case Continue(u) => Again(if option == 0 then u.(exitRequested := true) else u)
  }

  /** One iteration of the loop: read a line; a line that is not a number is
      reported and skipped; otherwise it is dispatched. */
  function MenuTurn(handle: Handler, s: Session): (r: Turn)
    requires WellBehaved(handle) && |s.input| > 0
    ensures r.Done? ==> Follows(r.run.session, s) && r.run.ending != Returned
    ensures r.Done? && r.run.ending == InputEnded ==> r.run.session.input == []
    ensures r.Again? ==> Follows(r.next, s) && |r.next.input| < |s.input|
  {
    var t := Skip(s, 1);
    SkipFollows(s);
    match ParseInt(s.input[0])
    case None => Again(Notify(t, NotANumber))
    case Some(option) =>
      var r := Dispatch(handle, t, option);
      FollowsTransitive(if r.Done? then r.run.session else r.next, t, s);
      r
  }

  /** The `while (!exitRequested)` loop, one `MenuTurn` per iteration. */
  function MenuLoop(handle: Handler, s: Session): (r: Run)
    requires WellBehaved(handle)
    ensures Follows(r.session, s)
    ensures r.ending == Returned ==> r.session.exitRequested
    ensures r.ending == InputEnded ==> r.session.input == []
    decreases |s.input|
  {
    FollowsReflexive(s);
    if s.exitRequested then Run(s, Returned)
    else if |s.input| == 0 then Run(s, InputEnded)
    else
      match MenuTurn(handle, s)
      case Done(run) => run
      case Again(next) =>
        var r := MenuLoop(handle, next);
        FollowsTransitive(r.session, next, s);
        r
  }

  lemma FollowsReflexive(s: Session)
    ensures Follows(s, s)
  {
    assert s.input[|s.input| - |s.input|..] == s.input;
    assert s.trace[..|s.trace|] == s.trace;
  }

  /** Reading a line, and then reporting it, only moves the console on. */
  lemma SkipFollows(s: Session)
    requires |s.input| > 0
    ensures Follows(Skip(s, 1), s) && Follows(Notify(Skip(s, 1), NotANumber), s)
  {
    var t := Skip(s, 1);
    assert t.input == s.input[|s.input| - |t.input|..];
    assert t.trace[..|s.trace|] == s.trace;
  }

  lemma HandlerFollows(handle: Handler, s: Session, option: Int32)
    requires WellBehaved(handle)
    ensures Follows(handle(s, option).session, s)
  {
  }

  /** The flag a controller enters with makes no difference: the loop
      always reads at least one line when there is one. */
  lemma RunMenuLoopResetsFlag(handle: Handler, s: Session)
    requires WellBehaved(handle)
    ensures RunMenuLoop(handle, s) == RunMenuLoop(handle, s.(exitRequested := !s.exitRequested))
    ensures |s.input| > 0 ==> |RunMenuLoop(handle, s).session.input| < |s.input|
  {
    assert s.(exitRequested := !s.exitRequested).(exitRequested := false) == s.(exitRequested := false);
    if |s.input| > 0 {
      MenuLoopReads(handle, s.(exitRequested := false));
    }
  }

  lemma MenuLoopReads(handle: Handler, s: Session)
    requires WellBehaved(handle)
    requires !s.exitRequested && |s.input| > 0
    ensures |MenuLoop(handle, s).session.input| < |s.input|
  {
    match MenuTurn(handle, s)
    case Done(run) =>
    case Again(next) =>
      assert Follows(MenuLoop(handle, next).session, next);
  }

  /** A line that is not a number reaches no handler: the loop goes on with
      the next line, having only reported it. */
  lemma NonNumericNotDispatched(handle: Handler, s: Session)
    requires WellBehaved(handle)
    requires !s.exitRequested && |s.input| > 0 && ParseInt(s.input[0]).None?
    ensures MenuLoop(handle, s) == MenuLoop(handle, Notify(Skip(s, 1), NotANumber))
  {
  }

  /** Option 0 is dispatched first; if its handler returns, the loop ends
      right after it, reading nothing more. */
  lemma ZeroEndsLoop(handle: Handler, s: Session)
    requires WellBehaved(handle)
    requires !s.exitRequested && |s.input| > 0 && ParseInt(s.input[0]) == Some(0)
    requires handle(Skip(s, 1), 0).Continue?
    ensures MenuLoop(handle, s) == Run(handle(Skip(s, 1), 0).session.(exitRequested := true), Returned)
  {
  }

  /** A handler that sets the flag (`logout()`) ends the loop after the
      current iteration, whatever the option was. */
  lemma FlagEndsLoop(handle: Handler, s: Session, option: Int32)
    requires WellBehaved(handle)
    requires !s.exitRequested && |s.input| > 0 && ParseInt(s.input[0]) == Some(option)
    requires handle(Skip(s, 1), option).Continue? && handle(Skip(s, 1), option).session.exitRequested
    ensures MenuLoop(handle, s) == Run(handle(Skip(s, 1), option).session, Returned)
  {
    var u := handle(Skip(s, 1), option).session;
    assert (if option == 0 then u.(exitRequested := true) else u) == u;
  }

  /** Whatever the handler may call, the whole loop calls. */
  lemma {:induction false} MenuLoopConfined(handle: Handler, allowed: Effect -> bool, s: Session)
    requires WellBehaved(handle) && Confined(handle, allowed)
    ensures forall e :: e in Added(s, MenuLoop(handle, s).session) ==> allowed(e)
    decreases |s.input|
  {
    var r := MenuLoop(handle, s);
    if !s.exitRequested && |s.input| > 0 {
      var t := Skip(s, 1);
      match ParseInt(s.input[0])
      case None =>
        var n := Notify(t, NotANumber);
        MenuLoopConfined(handle, allowed, n);
        assert Added(s, r.session) == Added(n, r.session);
      case Some(option) =>
        var u := handle(t, option).session;
        assert forall e :: e in Added(t, u) ==> allowed(e);
        if handle(t, option).Continue? {
          var next := if option == 0 then u.(exitRequested := true) else u;
          MenuLoopConfined(handle, allowed, next);
          AddedSplits(t, u, r.session);
          assert Added(s, r.session) == Added(t, u) + Added(next, r.session);
        } else {
          assert Added(s, r.session) == Added(t, u);
        }
    }
  }

  /** A handler that never raises the flag and never returns from option
      0 (it ends the program instead, as `System.exit` does). */
  ghost predicate NeverReturns(handle: Handler)
  {
    forall s: Session, option: Int32 :: handle(s, option).Continue? ==>
      option != 0 && handle(s, option).session.exitRequested == s.exitRequested
  }

  /** With such a handler the loop never returns to its caller: it ends
      the program or runs out of console. */
  lemma {:induction false} MenuLoopNeverReturns(handle: Handler, s: Session)
    requires WellBehaved(handle) && NeverReturns(handle) && !s.exitRequested
    ensures MenuLoop(handle, s).ending != Returned
    decreases |s.input|
  {
    if |s.input| > 0 {
      var t := Skip(s, 1);
      match ParseInt(s.input[0])
      case None =>
        MenuLoopNeverReturns(handle, Notify(t, NotANumber));
      case Some(option) =>
        if handle(t, option).Continue? {
          MenuLoopNeverReturns(handle, handle(t, option).session);
        }
    }
  }

  // ---------------------------------------------------------------------------
  // changePassword, logout, undo
  // ---------------------------------------------------------------------------

  /** `changePassword()`: reads the new password and its confirmation; a
      blank password, then a mismatch, is refused before AuthService is
      called with the user's id. */
  function ChangePassword(userId: Int32, input: seq<string>): (r: Option<Reply>)
    ensures r.None? <==> |input| < 2
    ensures r.Some? ==> r.value.consumed == 2
    ensures r.Some? ==> (r.value.calls != [] <==> !IsBlank(input[0]) && input[0] == input[1])
    ensures r.Some? && r.value.calls != [] ==> r.value.calls == [ChangePasswordOf(userId, input[0])]
    ensures r.Some? && IsBlank(input[0]) ==> r.value.notices == [EmptyPassword]
    ensures r.Some? && !IsBlank(input[0]) && input[0] != input[1] ==> r.value.notices == [PasswordMismatch]
  {
    if |input| < 2 then None
    else
      var newPassword := input[0];
      if IsBlank(newPassword) then Some(Reply(2, [], [EmptyPassword]))
      else if newPassword != input[1] then Some(Reply(2, [], [PasswordMismatch]))
      else Some(Reply(2, [ChangePasswordOf(userId, newPassword)], []))
  }

  /** A blank password is refused as empty even when the confirmation
      differs: emptiness is checked first. */
  lemma BlankCheckedBeforeMismatch(userId: Int32, confirmation: string)
    requires confirmation != " "
    ensures ChangePassword(userId, [" ", confirmation]) == Some(Reply(2, [], [EmptyPassword]))
  {
    assert IsBlank(" ") by { assert IsWhitespace(" "[0]); }
  }

  /** `logout()` only sets the flag; nothing else changes. */
  function Logout(s: Session): (r: Session)
    ensures r.exitRequested
    ensures r.(exitRequested := s.exitRequested) == s
  {
    s.(exitRequested := true)
  }

  /** `undo()`: with an empty stack it reports "Nothing to undo." and pops
      nothing; otherwise it pops exactly the top state. */
  function Undo(s: Session): (r: Session)
    ensures |s.history| == 0 ==> r == Notify(s, NothingToUndo)
    ensures |s.history| > 0 ==> r.history + [s.history[|s.history| - 1]] == s.history
    ensures r.(history := s.history, notices := s.notices) == s
  {
    if |s.history| == 0 then Notify(s, NothingToUndo)
    else s.(history := s.history[..|s.history| - 1])
  }

  /** A state pushed before a change is the one `undo()` pops next. */
  lemma UndoPopsLastPushed(s: Session, snapshot: User)
    ensures Undo(s.(history := s.history + [snapshot])) == s
  {
    assert (s.history + [snapshot])[..|s.history|] == s.history;
  }
}
