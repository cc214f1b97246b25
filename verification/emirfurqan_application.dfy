/**
 * src/main/java/com/emirfurqan/app/Application.java: the login screen,
 * which re-prompts until a login succeeds or "exit" is typed, and
 * `startApp()`, which runs login and menu sessions one after another until
 * the login screen sees "exit", then shuts down once.
 *
 * The console is the sequence of lines still to be read. `AuthService.login`
 * is the parameter `authenticate` (`None` when it throws). The role menus
 * of this tree are stubs; a menu session is the parameter `session`, giving
 * how many lines the session read after its first choice, or `None` when
 * an exception ended it. Reading past the last line throws, and nothing in
 * `startApp()` catches it.
 */
module EmirfurqanApplication {
  import opened Results
  import opened JavaText
  import opened Roles
  import EmirfurqanUser

  type User = EmirfurqanUser.User

  /** `username.equalsIgnoreCase("exit")`. */
  predicate IsExit(line: string)
  {
    EqualsIgnoreCase(line, "exit")
  }

  /** How the login screen returns: "exit" (`running` is cleared and `null`
      returned) or a user, with the console that is left. */
  datatype Login = Exit(rest: seq<string>) | LoggedIn(user: User, rest: seq<string>)

  /** Username and password pairs that each failed to log in. */
  predicate Rejected(authenticate: (string, string) -> Option<User>, lines: seq<string>)
    decreases |lines|
  {
    |lines| == 0 ||
    (|lines| >= 2 && !IsExit(lines[0]) && authenticate(lines[0], lines[1]).None?
     && Rejected(authenticate, lines[2..]))
  }

  /** `showLoginScreen()`. `None`: the console ran out. The login screen
      reads up to some line and leaves the rest of the console: an exit
      line, or a username with the password that logs it in. */
  function ShowLoginScreen(authenticate: (string, string) -> Option<User>, input: seq<string>): (r: Option<Login>)
    ensures r.Some? ==> |r.value.rest| < |input| && input[|input| - |r.value.rest|..] == r.value.rest
    ensures r.Some? && r.value.Exit? ==> IsExit(input[|input| - |r.value.rest| - 1])
    ensures r.Some? && r.value.LoggedIn? ==>
      && |input| - |r.value.rest| >= 2
      && authenticate(input[|input| - |r.value.rest| - 2], input[|input| - |r.value.rest| - 1]) == Some(r.value.user)
    decreases |input|
  {
    if |input| == 0 then None
    else if IsExit(input[0]) then Some(Exit(input[1..]))
    else if |input| < 2 then None
    else match authenticate(input[0], input[1])
      case Some(user) => Some(LoggedIn(user, input[2..]))
      case None =>
        var r := ShowLoginScreen(authenticate, input[2..]);
        if r.Some? then
          var k := |input| - |r.value.rest|;
          assert input[2..][|input[2..]| - |r.value.rest|..] == input[k..];
          assert input[2..][k - 3] == input[k - 1];
          if r.value.LoggedIn? then
            assert input[2..][k - 4] == input[k - 2];
            r
          else
            r
        else
          r
  }

  /** Everything the login screen read before the line it stopped at was
      failed username and password pairs; when the console ran out, it ran
      out after such pairs, possibly in the middle of one. */
  lemma {:induction false} LoginScreenRejections(authenticate: (string, string) -> Option<User>, input: seq<string>,
                                                 r: Option<Login>)
    requires r == ShowLoginScreen(authenticate, input)
    ensures r.Some? && r.value.Exit? ==> Rejected(authenticate, input[..|input| - |r.value.rest| - 1])
    ensures r.Some? && r.value.LoggedIn? ==>
      && Rejected(authenticate, input[..|input| - |r.value.rest| - 2])
      && !IsExit(input[|input| - |r.value.rest| - 2])
    ensures r.None? ==>
      Rejected(authenticate, input) || (Rejected(authenticate, input[..|input| - 1]) && !IsExit(input[|input| - 1]))
  {
    if r.None? {
      RejectedBeforeRunningOut(authenticate, input);
    } else if r.value.Exit? {
      RejectedBeforeExit(authenticate, input, r.value.rest);
    } else {
      RejectedBeforeLogin(authenticate, input, r.value.user, r.value.rest);
    }
  }

  lemma {:induction false} RejectedBeforeRunningOut(authenticate: (string, string) -> Option<User>, input: seq<string>)
    requires ShowLoginScreen(authenticate, input).None?
    ensures Rejected(authenticate, input) || (Rejected(authenticate, input[..|input| - 1]) && !IsExit(input[|input| - 1]))
    decreases |input|
  {
    if |input| >= 2 && !IsExit(input[0]) {
      RejectedBeforeRunningOut(authenticate, input[2..]);
      ShiftPrefix(input, |input| - 1);
      ShiftPrefix(input, |input|);
    } else if |input| == 1 {
      assert input[..0] == [];
    }
  }

  lemma {:induction false} RejectedBeforeExit(authenticate: (string, string) -> Option<User>, input: seq<string>,
                                              rest: seq<string>)
    requires ShowLoginScreen(authenticate, input) == Some(Exit(rest))
    ensures Rejected(authenticate, input[..|input| - |rest| - 1])
    decreases |input|
  {
    if IsExit(input[0]) {
      assert input[..0] == [];
    } else {
      RejectedBeforeExit(authenticate, input[2..], rest);
      ShiftPrefix(input, |input| - |rest| - 1);
    }
  }

  lemma {:induction false} RejectedBeforeLogin(authenticate: (string, string) -> Option<User>, input: seq<string>,
                                               user: User, rest: seq<string>)
    requires ShowLoginScreen(authenticate, input) == Some(LoggedIn(user, rest))
    ensures Rejected(authenticate, input[..|input| - |rest| - 2])
    ensures !IsExit(input[|input| - |rest| - 2])
    decreases |input|
  {
    if authenticate(input[0], input[1]).Some? {
      assert input[..0] == [];
    } else {
      RejectedBeforeLogin(authenticate, input[2..], user, rest);
      var k := |input| - |rest|;
      ShiftPrefix(input, k - 2);
      assert input[2..][k - 4] == input[k - 2];
    }
  }

  lemma ShiftPrefix(input: seq<string>, m: int)
    requires 2 <= |input| && m <= |input|
    ensures 2 <= m ==> input[..m][2..] == input[2..][..m - 2] && input[..m][0] == input[0] && input[..m][1] == input[1]
  {
  }

  /** Conversely, failed attempts followed by "exit" lead out of the login
      screen, and failed attempts followed by good credentials log in. */
  lemma {:induction false} LoginScreenAfterRejections(authenticate: (string, string) -> Option<User>,
                                                      failed: seq<string>, attempt: seq<string>, rest: seq<string>)
    requires Rejected(authenticate, failed)
    requires |attempt| > 0
    requires IsExit(attempt[0]) ==> |attempt| == 1
    requires !IsExit(attempt[0]) ==> |attempt| == 2 && authenticate(attempt[0], attempt[1]).Some?
    ensures ShowLoginScreen(authenticate, failed + attempt + rest) ==
      if IsExit(attempt[0]) then Some(Exit(rest))
      else Some(LoggedIn(authenticate(attempt[0], attempt[1]).value, rest))
    decreases |failed|
  {
    var input := failed + attempt + rest;
    if |failed| == 0 {
      assert input == attempt + rest;
      assert input[0] == attempt[0];
      if IsExit(attempt[0]) {
        assert input[1..] == rest;
      } else {
        assert input[1] == attempt[1] && input[2..] == rest;
      }
    } else {
      assert input[0] == failed[0] && input[1] == failed[1];
      assert input[2..] == failed[2..] + attempt + rest;
      LoginScreenAfterRejections(authenticate, failed[2..], attempt, rest);
    }
  }

  /** A role string `setUserRole` of this tree accepts ("admin" or "user")
      names no role of the enum, so such a user is sent back to the login
      screen. */
  lemma StoredRolesNeverRoute(u: User, v: Option<string>)
    requires EmirfurqanUser.IsAdminName(v) || EmirfurqanUser.IsUserName(v)
    ensures RouteOf(EmirfurqanUser.SetUserRole(u, v).userRole) == UnknownRole
  {
    var name := v.value;
    assert |RoleKey(name)| == |name| <= 5;
    forall role: Role ensures RoleKey(name) != ConstantName(role) {
      assert |ConstantName(role)| >= 6;
    }
  }

  /** One login and where it was routed. */
  datatype Visit = Visit(user: User, route: Route)

  /** `shutdown()` was reached, or an exception ended the program. */
  datatype Ending = Shutdown | Crashed

  datatype AppRun = AppRun(visits: seq<Visit>, ending: Ending)

  function Prepend(v: Visit, r: AppRun): AppRun
  {
    r.(visits := [v] + r.visits)
  }

  /** `user` is what `authenticate` returned for some username and
      password pair on the console. */
  ghost predicate LoggedInFrom(authenticate: (string, string) -> Option<User>, input: seq<string>, user: User)
  {
    exists j :: 0 <= j < |input| - 1 && authenticate(input[j], input[j + 1]) == Some(user)
  }

  /** Some line of the console is "exit" in some letter case. */
  ghost predicate ExitTyped(input: seq<string>)
  {
    exists j :: 0 <= j < |input| && IsExit(input[j])
  }

  /** `startApp()`: login, route, and again, until "exit". */
  function StartApp(authenticate: (string, string) -> Option<User>,
                    session: (Role, User, seq<string>) -> Option<nat>,
                    input: seq<string>): (r: AppRun)
    ensures RunFacts(authenticate, input, r)
    decreases |input|
  {
    match ShowLoginScreen(authenticate, input)
    case None => AppRun([], Crashed)
    case Some(Exit(rest)) =>
      assert ExitTyped(input) by {
        ExitWitness(input, |input| - |rest| - 1);
      }
      AppRun([], Shutdown)
    case Some(LoggedIn(user, rest)) =>
      var k := |input| - |rest|;
      assert LoggedInFrom(authenticate, input, user) by {
        LoginWitness(authenticate, input, k - 2, user);
      }
      var visit := Visit(user, RouteOf(user.userRole));
      match Resume(session, visit, rest)
      case None => AppRun([visit], Crashed)
      case Some(skip) =>
          var next := StartApp(authenticate, session, rest[skip..]);
          assert rest == input[|input| - |rest|..] && skip <= |rest|;
          PrependKeepsFacts(authenticate, input, rest, skip, visit, next);
          Prepend(visit, next)
  }

  /** How many lines `routeToRoleMenu` reads before the login screen shows
      again: none for an unknown role, the menu session's lines for a known
      one. `None`: an exception ends the program, because the role is null,
      the session threw, or the session ran past the last line. */
  function Resume(session: (Role, User, seq<string>) -> Option<nat>, visit: Visit, rest: seq<string>): (r: Option<nat>)
    ensures r.Some? ==> r.value <= |rest| && visit.route != NullRole
    ensures visit.route == UnknownRole ==> r == Some(0)
    ensures visit.route.Menu? ==> (r.Some? <==>
      session(visit.route.role, visit.user, rest).Some? && 1 + session(visit.route.role, visit.user, rest).value <= |rest|)
    ensures visit.route.Menu? && r.Some? ==> r.value == 1 + session(visit.route.role, visit.user, rest).value
  {
    match visit.route
    case NullRole => None
    case UnknownRole => Some(0)
    case Menu(role) =>
      var read := session(role, visit.user, rest);
      if read.Some? && 1 + read.value <= |rest| then Some(1 + read.value) else None
  }

  lemma DropTwice(input: seq<string>, k: nat, skip: nat)
    requires k + skip <= |input|
    ensures input[k..][skip..] == input[k + skip..]
  {
  }

  lemma ExitWitness(input: seq<string>, j: nat)
    requires j < |input| && IsExit(input[j])
    ensures ExitTyped(input)
  {
  }

  lemma LoginWitness(authenticate: (string, string) -> Option<User>, input: seq<string>, j: nat, user: User)
    requires j + 1 < |input| && authenticate(input[j], input[j + 1]) == Some(user)
    ensures LoggedInFrom(authenticate, input, user)
  {
  }

  /** The facts `StartApp` states, about a run on `input`. */
  ghost predicate RunFacts(authenticate: (string, string) -> Option<User>, input: seq<string>, r: AppRun)
  {
    && (forall i :: 0 <= i < |r.visits| ==> r.visits[i].route == RouteOf(r.visits[i].user.userRole))
    && (forall i :: 0 <= i < |r.visits| ==> LoggedInFrom(authenticate, input, r.visits[i].user))
    && (forall i :: 0 <= i < |r.visits| && r.visits[i].route == NullRole ==>
          i == |r.visits| - 1 && r.ending == Crashed)
    && (r.ending == Shutdown ==> ExitTyped(input))
  }

  /** A routed login followed by the later rounds, on what is left of the
      console `skip` lines after the login, keeps the facts. */
  lemma PrependKeepsFacts(authenticate: (string, string) -> Option<User>, input: seq<string>, rest: seq<string>,
                          skip: nat, visit: Visit, next: AppRun)
    requires |rest| <= |input| && rest == input[|input| - |rest|..] && skip <= |rest|
    requires visit.route == RouteOf(visit.user.userRole) && visit.route != NullRole
    requires LoggedInFrom(authenticate, input, visit.user)
    requires RunFacts(authenticate, rest[skip..], next)
    ensures RunFacts(authenticate, input, Prepend(visit, next))
  {
    var offset := |input| - |rest| + skip;
    DropTwice(input, |input| - |rest|, skip);
    assert input[offset..] == rest[skip..];
    PrependAtOffset(authenticate, input, offset, visit, next);
  }

  lemma PrependAtOffset(authenticate: (string, string) -> Option<User>, input: seq<string>, offset: nat,
                        visit: Visit, next: AppRun)
    requires offset <= |input|
    requires visit.route == RouteOf(visit.user.userRole) && visit.route != NullRole
    requires LoggedInFrom(authenticate, input, visit.user)
    requires RunFacts(authenticate, input[offset..], next)
    ensures RunFacts(authenticate, input, Prepend(visit, next))
  {
    SuffixKeepsFacts(authenticate, input, offset, next);
    var r := Prepend(visit, next);
    forall i | 0 <= i < |r.visits|
      ensures r.visits[i].route == RouteOf(r.visits[i].user.userRole)
      ensures LoggedInFrom(authenticate, input, r.visits[i].user)
      ensures r.visits[i].route == NullRole ==> i == |r.visits| - 1 && r.ending == Crashed
    {
      if i > 0 {
        assert r.visits[i] == next.visits[i - 1];
      }
    }
  }

  /** What the later rounds saw on the rest of the console, the whole
      console has too. */
  lemma SuffixKeepsFacts(authenticate: (string, string) -> Option<User>, input: seq<string>, offset: nat, next: AppRun)
    requires offset <= |input|
    requires forall i :: 0 <= i < |next.visits| ==> LoggedInFrom(authenticate, input[offset..], next.visits[i].user)
    requires next.ending == Shutdown ==> ExitTyped(input[offset..])
    ensures forall i :: 0 <= i < |next.visits| ==> LoggedInFrom(authenticate, input, next.visits[i].user)
    ensures next.ending == Shutdown ==> ExitTyped(input)
  {
    forall i | 0 <= i < |next.visits| ensures LoggedInFrom(authenticate, input, next.visits[i].user) {
      SuffixKeepsLogin(authenticate, input, offset, next.visits[i].user);
    }
    if next.ending == Shutdown {
      var after := input[offset..];
      var j :| 0 <= j < |after| && IsExit(after[j]);
      assert after[j] == input[offset + j];
    }
  }

  lemma SuffixKeepsLogin(authenticate: (string, string) -> Option<User>, input: seq<string>, offset: nat, user: User)
    requires offset <= |input| && LoggedInFrom(authenticate, input[offset..], user)
    ensures LoggedInFrom(authenticate, input, user)
  {
    var after := input[offset..];
    var j :| 0 <= j < |after| - 1 && authenticate(after[j], after[j + 1]) == Some(user);
    assert after[j] == input[offset + j] && after[j + 1] == input[offset + j + 1];
    LoginWitness(authenticate, input, offset + j, user);
  }

  /** One round of `startApp()` after the login screen let `user` in and
      `routeToRoleMenu` came back after `skip` lines. */
  lemma LoginRound(authenticate: (string, string) -> Option<User>,
                   session: (Role, User, seq<string>) -> Option<nat>,
                   input: seq<string>, user: User, rest: seq<string>, route: Route, skip: nat)
    requires ShowLoginScreen(authenticate, input) == Some(LoggedIn(user, rest))
    requires route == RouteOf(user.userRole) && Resume(session, Visit(user, route), rest) == Some(skip)
    ensures StartApp(authenticate, session, input) ==
      Prepend(Visit(user, route), StartApp(authenticate, session, rest[skip..]))
  {
  }

  /** Failed attempts, then good credentials: the login screen lets the
      user in. */
  lemma LoggedInAfterRejections(authenticate: (string, string) -> Option<User>,
                                failed: seq<string>, username: string, password: string, rest: seq<string>)
    requires Rejected(authenticate, failed) && !IsExit(username)
    requires authenticate(username, password).Some?
    ensures ShowLoginScreen(authenticate, failed + [username, password] + rest)
      == Some(LoggedIn(authenticate(username, password).value, rest))
  {
    LoginScreenAfterRejections(authenticate, failed, [username, password], rest);
  }

  /** "exit" in any letter case after any number of failed logins ends
      the program through `shutdown()`. */
  lemma ExitShutsDown(authenticate: (string, string) -> Option<User>,
                      session: (Role, User, seq<string>) -> Option<nat>,
                      failed: seq<string>, line: string, rest: seq<string>)
    requires Rejected(authenticate, failed) && IsExit(line)
    ensures StartApp(authenticate, session, failed + [line] + rest) == AppRun([], Shutdown)
  {
    LoginScreenAfterRejections(authenticate, failed, [line], rest);
  }

  /** A login whose role names no role of the enum goes back to the login
      screen: the program keeps running on the rest of the console. */
  lemma UnknownRoleReturnsToLogin(authenticate: (string, string) -> Option<User>,
                                  session: (Role, User, seq<string>) -> Option<nat>,
                                  input: seq<string>, user: User, rest: seq<string>)
    requires ShowLoginScreen(authenticate, input) == Some(LoggedIn(user, rest))
    requires RouteOf(user.userRole) == UnknownRole
    ensures StartApp(authenticate, session, input) == Prepend(Visit(user, UnknownRole), StartApp(authenticate, session, rest))
  {
    LoginRound(authenticate, session, input, user, rest, UnknownRole, 0);
    assert rest[0..] == rest;
  }

  /** A menu session that returns leads back to the login screen for the
      next login, on the console the session left. */
  lemma MenuSessionReturnsToLogin(authenticate: (string, string) -> Option<User>,
                                  session: (Role, User, seq<string>) -> Option<nat>,
                                  input: seq<string>, user: User, rest: seq<string>, role: Role, read: nat)
    requires ShowLoginScreen(authenticate, input) == Some(LoggedIn(user, rest))
    requires RouteOf(user.userRole) == Menu(role)
    requires session(role, user, rest) == Some(read) && 1 + read <= |rest|
    ensures StartApp(authenticate, session, input)
      == Prepend(Visit(user, Menu(role)), StartApp(authenticate, session, rest[1 + read..]))
  {
    assert Resume(session, Visit(user, Menu(role)), rest) == Some(1 + read);
    LoginRound(authenticate, session, input, user, rest, Menu(role), 1 + read);
  }

  /** A user without a role makes `routeToRoleMenu` throw, and nothing
      catches it: the program ends without `shutdown()`. So does a menu
      session that throws. */
  lemma ExceptionEndsProgram(authenticate: (string, string) -> Option<User>,
                             session: (Role, User, seq<string>) -> Option<nat>,
                             input: seq<string>, user: User, rest: seq<string>)
    requires ShowLoginScreen(authenticate, input) == Some(LoggedIn(user, rest))
    requires user.userRole.None? || (RouteOf(user.userRole).Menu? && session(RouteOf(user.userRole).role, user, rest).None?)
    ensures StartApp(authenticate, session, input) == AppRun([Visit(user, RouteOf(user.userRole))], Crashed)
  {
  }
}
