/**
 * main/src/controllers/ManagerMenuController.java: user administration.
 * The manager changes their own password through the base prompt, logs out
 * through the base flag, views statistics, lists, updates, adds and deletes
 * users, and uses the base undo. Updating and deleting first look the user
 * up in `userService.listUsers()` and push it onto the undo stack.
 *
 * The user listing and the clock are parameters (`Services`), each a
 * function of the calls made so far, since both change as the session goes.
 */
module ManagerMenuController {
  import opened Results
  import opened JavaText
  import opened Calendar
  import opened BaseMenuController
  import UserModel
  import InputValidator

  datatype Services = Services(listUsers: seq<Effect> -> seq<User>, now: seq<Effect> -> DateTime)

  // ---------------------------------------------------------------------------
  // Looking a user up
  // ---------------------------------------------------------------------------

  /** Position `i` holds the first user with id `id`. */
  predicate FirstWithId(users: seq<User>, id: Int32, i: nat)
  {
    i < |users| && users[i].userId == id && forall j :: 0 <= j < i ==> users[j].userId != id
  }

  /** `users.stream().filter(u -> u.getUserId() == userId).findFirst()`. */
  function FindUser(users: seq<User>, id: Int32): (r: Option<User>)
    ensures r.None? <==> forall u :: u in users ==> u.userId != id
    ensures r.Some? ==> exists i: nat :: FirstWithId(users, id, i) && users[i] == r.value
  {
    if |users| == 0 then None
    else if users[0].userId == id then
      assert FirstWithId(users, id, 0);
      Some(users[0])
    else
      match FindUser(users[1..], id)
      case None =>
        assert forall u :: u in users ==> u == users[0] || u in users[1..];
        None
      case Some(u) =>
        ghost var i: nat :| FirstWithId(users[1..], id, i) && users[1..][i] == u;
        assert FirstWithId(users, id, i + 1);
        Some(u)
  }

  // ---------------------------------------------------------------------------
  // Names
  // ---------------------------------------------------------------------------

  function NameLabel(first: bool): string
  {
    if first then "First name" else "Last name"
  }

  /** The name a line becomes after `formatName`. */
  function Formatted(line: string): Option<string>
  {
    InputValidator.FormatName(Some(line))
  }

  /** A name line as both prompts handle it: formatted, checked by
      `getNameErrorMessage`, then given to the throwing setter, whose
      message is printed if it throws. A name the validator accepts is
      one the setter accepts, so only the validator's message is ever
      printed. */
  function EnterName(u: User, line: string, first: bool): (r: Result<User, string>)
    ensures r.Err? <==> InputValidator.GetNameErrorMessage(Formatted(line), Some(NameLabel(first))).Some?
    ensures r.Err? ==> r.error == InputValidator.GetNameErrorMessage(Formatted(line), Some(NameLabel(first))).value
    ensures r.Ok? && first ==> r.value == u.(firstName := Formatted(line))
    ensures r.Ok? && !first ==> r.value == u.(lastName := Formatted(line))
  {
    var name := Formatted(line);
    match InputValidator.GetNameErrorMessage(name, Some(NameLabel(first)))
    case Some(message) => Err(message)
    case None =>
      var outcome := if first then UserModel.SetFirstName(u, name) else UserModel.SetLastName(u, name);
      match outcome.thrown
      case Some(message) => assert false; Err(message)
      case None => Ok(outcome.user)
  }

  /** A name line in `updateUser()`: a blank line keeps the current name. */
  function EditName(u: User, line: string, first: bool): (r: Result<User, string>)
    ensures IsBlank(line) ==> r == Ok(u)
    ensures !IsBlank(line) ==> r == EnterName(u, line, first)
  {
    if IsBlank(line) then Ok(u) else EnterName(u, line, first)
  }

  // ---------------------------------------------------------------------------
  // The prompts
  // ---------------------------------------------------------------------------

  /** What a manager prompt did: its reply and the state it pushed onto
      the undo stack, if any. */
  datatype Action = Action(reply: Reply, snapshot: Option<User>)

  /** The session after a manager prompt. */
  function Apply(s: Session, a: Option<Action>): (r: Step)
    requires a.Some? ==> a.value.reply.consumed <= |s.input|
    ensures Follows(r.session, s)
    ensures r.OutOfInput? <==> a.None?
    ensures r.Continue? <==> a.Some?
    ensures Added(s, r.session) == if a.Some? then a.value.reply.calls else []
    ensures r.session.exitRequested == s.exitRequested
    ensures a.None? || a.value.snapshot.None? ==> r.session.history == s.history
    ensures a.Some? && a.value.snapshot.Some? ==> r.session.history == s.history + [a.value.snapshot.value]
  {
    match a
    case None => Perform(s, None)
    case Some(act) =>
      var t := Perform(s, Some(act.reply)).session;
      Continue(if act.snapshot.None? then t else t.(history := t.history + [act.snapshot.value]))
  }

  /** The part of `updateUser()` after the user was found and saved: the
      username, first-name, last-name and role lines, each kept when blank.
      A rejected name ends the prompt without saving the user. The undo
      stack holds the very object being edited, so the state it ends up
      holding is the edited one. */
  function EditUser(target: User, lines: seq<string>): (r: Option<Action>)
    ensures |lines| >= 4 ==> r.Some?
    ensures r.Some? ==> 2 <= r.value.reply.consumed <= 4 && r.value.reply.consumed <= |lines|
    ensures r.Some? ==> r.value.snapshot.Some?
    ensures r.Some? ==>
      var saved := r.value.snapshot.value;
      saved.userId == target.userId && saved.passwordHash == target.passwordHash
      && saved.createdAt == target.createdAt
    ensures r.Some? ==> (r.value.reply.calls != [] <==> r.value.reply.consumed == 4)
    ensures r.Some? && r.value.reply.calls != [] ==>
      r.value.reply == Reply(4, [Effect.UpdateUser(r.value.snapshot.value)], [])
    ensures r.Some? && r.value.reply.calls == [] ==>
      |r.value.reply.notices| == 1 && r.value.reply.notices[0].Rejected?
    ensures |lines| >= 4 && IsBlank(lines[0]) && IsBlank(lines[1]) && IsBlank(lines[2]) && IsBlank(lines[3]) ==>
      r == Some(Action(Reply(4, [Effect.UpdateUser(target)], []), Some(target)))
  {
    if |lines| < 2 then None
    else
      var named := if IsBlank(lines[0]) then target else UserModel.SetUsername(target, Some(lines[0]));
      match EditName(named, lines[1], true)
      case Err(message) => Some(Action(Reply(2, [], [Rejected(message)]), Some(named)))
      case Ok(first) =>
        if |lines| < 3 then None
        else
          match EditName(first, lines[2], false)
          case Err(message) => Some(Action(Reply(3, [], [Rejected(message)]), Some(first)))
          case Ok(last) =>
            if |lines| < 4 then None
            else
              var edited := if IsBlank(lines[3]) then last else UserModel.SetUserRole(last, Some(lines[3]));
              Some(Action(Reply(4, [Effect.UpdateUser(edited)], []), Some(edited)))
  }

  /** `updateUser()`: an id `Integer.parseInt` refuses ends the prompt
      before the users are listed; an id nobody has ends it after listing,
      before anything is saved; otherwise the found user is saved and
      edited. */
  function UpdateUser(users: seq<User>, input: seq<string>): (r: Option<Action>)
    ensures r.Some? ==> 0 < r.value.reply.consumed <= |input|
    ensures r.Some? && ParseInt(input[0]).None? ==> r.value == Action(Reply(1, [], [InvalidId]), None)
    ensures r.Some? && ParseInt(input[0]).Some? ==> |r.value.reply.calls| > 0 && r.value.reply.calls[0] == ListUsers
    ensures r.Some? && ParseInt(input[0]).Some? ==>
      (r.value.snapshot.Some? <==> FindUser(users, ParseInt(input[0]).value).Some?)
    ensures r.Some? && ParseInt(input[0]).Some? && FindUser(users, ParseInt(input[0]).value).None? ==>
      r.value == Action(Reply(1, [ListUsers], [UserNotFound(ParseInt(input[0]).value)]), None)
    ensures r.Some? && ParseInt(input[0]).Some? && FindUser(users, ParseInt(input[0]).value).Some? ==>
      && EditUser(FindUser(users, ParseInt(input[0]).value).value, input[1..]).Some?
      && var edit := EditUser(FindUser(users, ParseInt(input[0]).value).value, input[1..]).value;
      r.value.snapshot == edit.snapshot && r.value.reply.calls == [ListUsers] + edit.reply.calls
  {
    if |input| == 0 then None
    else
      match ParseInt(input[0])
      case None => Some(Action(Reply(1, [], [InvalidId]), None))
      case Some(id) =>
        match FindUser(users, id)
        case None => Some(Action(Reply(1, [ListUsers], [UserNotFound(id)]), None))
        case Some(target) =>
          match EditUser(target, input[1..])
          case None => None
          case Some(edit) =>
            var reply := edit.reply;
            Some(Action(Reply(reply.consumed + 1, [ListUsers] + reply.calls, reply.notices), edit.snapshot))
  }

  /** A console that runs out inside `updateUser()` drops only calls a longer
      console makes first: with five more lines the same prompt finishes,
      and when the id was a number it has listed the users first. */
  lemma UpdateUserOutOfInputIsPrefix(users: seq<User>, input: seq<string>, more: seq<string>)
    requires |more| >= 5
    ensures UpdateUser(users, input).None? ==> UpdateUser(users, input + more).Some?
    ensures UpdateUser(users, input).None? && |input| > 0 && ParseInt(input[0]).Some? ==>
      && FindUser(users, ParseInt(input[0]).value).Some?
      && UpdateUser(users, input + more).value.reply.calls[0] == ListUsers
      && UpdateUser(users, input + more).value.snapshot.Some?
  {
    var all := input + more;
    if |input| == 0 {
      assert all == more;
      if ParseInt(more[0]).Some? && FindUser(users, ParseInt(more[0]).value).Some? {
        assert |more[1..]| >= 4;
      }
    } else if UpdateUser(users, input).None? {
      assert all[0] == input[0];
      match ParseInt(input[0])
      case None =>
      case Some(id) =>
        var target := FindUser(users, id).value;
        assert all[1..] == input[1..] + more;
        assert EditUser(target, all[1..]).Some?;
    }
  }

  /** `addUser()`: username, first name, last name and role, checked in
      that order; the first failed check ends the prompt. A user that
      passes is stored with the creation time and without id or password. */
  function AddUser(now: DateTime, input: seq<string>): (r: Option<Action>)
    ensures r.Some? ==> r.value.snapshot.None? && 0 < r.value.reply.consumed <= |input|
    ensures r.Some? && IsBlank(input[0]) ==> r.value.reply == Reply(1, [], [EmptyUsername])
    ensures r.Some? ==> (r.value.reply.calls != [] <==> r.value.reply.consumed == 4 && !IsBlank(input[3]))
    ensures r.Some? && r.value.reply.calls != [] ==>
      && !IsBlank(input[0])
      && EnterName(UserModel.Blank, input[1], true).Ok?
      && EnterName(UserModel.Blank, input[2], false).Ok?
      && r.value.reply.calls == [Effect.AddUser(UserModel.User(
           UserModel.Blank.userId, Some(input[0]), None, Formatted(input[1]), Formatted(input[2]),
           Some(input[3]), Some(now)))]
  {
    if |input| == 0 then None
    else if IsBlank(input[0]) then Some(Action(Reply(1, [], [EmptyUsername]), None))
    else
      var named := UserModel.SetUsername(UserModel.Blank, Some(input[0]));
      if |input| < 2 then None
      else
        match EnterName(named, input[1], true)
        case Err(message) => Some(Action(Reply(2, [], [Rejected(message)]), None))
        case Ok(first) =>
          if |input| < 3 then None
          else
            match EnterName(first, input[2], false)
            case Err(message) => Some(Action(Reply(3, [], [Rejected(message)]), None))
            case Ok(last) =>
              if |input| < 4 then None
              else if IsBlank(input[3]) then Some(Action(Reply(4, [], [EmptyRole]), None))
              else
                var user := UserModel.SetCreatedAt(UserModel.SetUserRole(last, Some(input[3])), Some(now));
                Some(Action(Reply(4, [Effect.AddUser(user)], []), None))
  }

  /** `deleteUser()`: the id checks of `updateUser()`, then the found user
      is saved and deleted by id. */
  function DeleteUser(users: seq<User>, input: seq<string>): (r: Option<Action>)
    ensures r.None? <==> |input| == 0
    ensures r.Some? && ParseInt(input[0]).None? ==> r.value == Action(Reply(1, [], [InvalidId]), None)
    ensures r.Some? && ParseInt(input[0]).Some? ==>
      var id := ParseInt(input[0]).value;
      match FindUser(users, id)
      case None => r.value == Action(Reply(1, [ListUsers], [UserNotFound(id)]), None)
      case Some(target) =>
        r.value == Action(Reply(1, [ListUsers, Effect.DeleteUser(id)], []), Some(target)) && target.userId == id
  {
    if |input| == 0 then None
    else
      match ParseInt(input[0])
      case None => Some(Action(Reply(1, [], [InvalidId]), None))
      case Some(id) =>
        match FindUser(users, id)
        case None => Some(Action(Reply(1, [ListUsers], [UserNotFound(id)]), None))
        case Some(target) =>
          ghost var i: nat :| FirstWithId(users, id, i) && users[i] == target;
          Some(Action(Reply(1, [ListUsers, Effect.DeleteUser(id)], []), Some(target)))
  }

  // ---------------------------------------------------------------------------
  // The menu
  // ---------------------------------------------------------------------------

  /** The service calls the manager menu makes. */
  predicate ManagerCall(e: Effect)
  {
    e.ChangePasswordOf? || e.ViewStatistics? || e.ListUsers? || e.UpdateUser? || e.AddUser? || e.DeleteUser?
  }

  lemma ManagerCallsNoContactAccess(e: Effect)
    requires ManagerCall(e)
    ensures !ContactAccess(e)
  {
  }

  /** `handleUserSelection(option)`: 2 and 0 log out through the flag, so
      the manager returns to the login screen; 8 is the base undo. */
  function Handle(services: Services, s: Session, option: Int32): (r: Step)
    ensures Follows(r.session, s)
    ensures !r.Halt?
    ensures option == 0 || option == 2 ==> r == Continue(Logout(s))
    ensures option == 8 ==> r == Continue(Undo(s))
    ensures r.OutOfInput? ==> r.session.input == []
    ensures option != 5 && option != 7 && option != 8 ==> r.session.history == s.history
    ensures forall e :: e in Added(s, r.session) ==> ManagerCall(e)
  {
    if option == 0 || option == 2 then Continue(Logout(s))
    else if option == 8 then Continue(Undo(s))
    else Apply(s, Entry(services, s, option))
  }

  /** The prompt behind each entry other than logout and undo; only
      updating and deleting save a state. */
  function Entry(services: Services, s: Session, option: Int32): (r: Option<Action>)
    requires option != 0 && option != 2 && option != 8
    ensures r.Some? ==> r.value.reply.consumed <= |s.input|
    ensures r.Some? ==> forall e :: e in r.value.reply.calls ==> ManagerCall(e)
    ensures r.Some? && option != 5 && option != 7 ==> r.value.snapshot.None?
    ensures option == 3 ==> r == Some(Action(Reply(0, [ViewStatistics], []), None))
    ensures option == 4 ==> r == Some(Action(Reply(0, [ListUsers], []), None))
    ensures !(1 <= option <= 7) ==> r == Some(Action(Reply(0, [], [InvalidSelection]), None))
  {
    match option
    case 1 =>
      var reply := ChangePassword(s.currentUser.userId, s.input);
      if reply.None? then None else Some(Action(reply.value, None))
    case 3 => Some(Action(Reply(0, [ViewStatistics], []), None))
    case 4 => Some(Action(Reply(0, [ListUsers], []), None))
    case 5 => UpdateUser(services.listUsers(s.trace), s.input)
    case 6 => AddUser(services.now(s.trace), s.input)
    case 7 => DeleteUser(services.listUsers(s.trace), s.input)
    case _ => Some(Action(Reply(0, [], [InvalidSelection]), None))
  }

  function Handler(services: Services): (r: BaseMenuController.Handler)
    ensures forall s, option :: r(s, option) == Handle(services, s, option)
  {
    (s: Session, option: Int32) => Handle(services, s, option)
  }

  lemma HandlerWellBehaved(services: Services)
    ensures WellBehaved(Handler(services))
  {
  }

  /** No manager entry reads or changes a contact. */
  lemma HandlerNoContactAccess(services: Services)
    ensures WellBehaved(Handler(services))
    ensures Confined(Handler(services), e => !ContactAccess(e))
  {
    forall s: Session, option: Int32, e: Effect | e in Added(s, Handler(services)(s, option).session)
      ensures !ContactAccess(e)
    {
      ManagerCallsNoContactAccess(e);
    }
  }

  /** A whole manager session never touches a contact. */
  lemma ManagerSessionNoContactAccess(services: Services, s: Session)
    ensures forall e :: e in Added(s, RunMenuLoop(Handler(services), s).session) ==> !ContactAccess(e)
  {
    HandlerNoContactAccess(services);
    MenuLoopConfined(Handler(services), e => !ContactAccess(e), s.(exitRequested := false));
  }

  /** Saving before an update and undoing right after pops exactly that
      save: the state pushed is the user as persisted. */
  lemma UndoAfterUpdatePopsPersisted(services: Services, s: Session)
    requires Handle(services, s, 5).Continue?
    requires Added(s, Handle(services, s, 5).session) != [] && |Added(s, Handle(services, s, 5).session)| == 2
    ensures var t := Handle(services, s, 5).session;
      |t.history| == |s.history| + 1 && Added(s, t)[1] == Effect.UpdateUser(t.history[|t.history| - 1])
      && Undo(t).history == s.history
  {
    var t := Handle(services, s, 5).session;
    var users := services.listUsers(s.trace);
    var id := ParseInt(s.input[0]).value;
    var edit := EditUser(FindUser(users, id).value, s.input[1..]).value;
    assert edit.reply.calls != [];
  }
}
