/**
 * main/src/app/Application.java: one login, then the menu of the user's
 * role, then `shutdown()`. The login screen (menus/LoginMenu.java) is not
 * part of this model: its result is a parameter, and `input` is the
 * console after it. `startApp()` clears `running` after the first pass
 * whatever happened, so at most one menu session runs and every path that
 * returns normally ends in `shutdown()`.
 */
module Application {
  import opened Results
  import opened JavaText
  import opened BaseMenuController
  import opened Roles
  import TesterMenuController
  import JuniorDeveloperMenuController
  import SeniorDeveloperMenuController
  import ManagerMenuController

  /** The program's course: the route taken (`None` when the login screen
      returned null), the menu session if one ran, and whether `shutdown()`
      was reached. */
  datatype AppRun = AppRun(route: Option<Route>, menu: Option<Run>, shutdown: bool)

  /** The `handleUserSelection` of each role's controller. */
  function HandlerFor(role: Role, services: ManagerMenuController.Services): (r: Handler)
    ensures WellBehaved(r)
    ensures role != Manager ==> NeverReturns(r)
  {
    match role
    case Tester =>
      TesterMenuController.HandleWellBehaved();
      TesterMenuController.Handle
    case JuniorDeveloper =>
      JuniorDeveloperMenuController.HandleWellBehaved();
      JuniorDeveloperMenuController.Handle
    case SeniorDeveloper =>
      SeniorDeveloperMenuController.HandleWellBehaved();
      SeniorDeveloperMenuController.Handle
    case Manager =>
      ManagerMenuController.HandlerWellBehaved(services);
      ManagerMenuController.Handler(services)
  }

  /** `startApp()` after the login screen. */
  function StartApp(login: Option<User>, input: seq<string>, services: ManagerMenuController.Services): (r: AppRun)
    ensures r.route == if login.None? then None else Some(RouteOf(login.value.userRole))
    ensures r.menu.Some? <==> r.route.Some? && r.route.value.Menu?
    ensures r.menu.Some? ==> Follows(r.menu.value.session, Start(login.value, input))
    ensures r.shutdown <==> r.route != Some(NullRole) && (r.menu.None? || r.menu.value.ending == Returned)
  {
    match login
    case None => AppRun(None, None, true)
    case Some(user) =>
      match RouteOf(user.userRole)
      case Menu(role) =>
        var run := RunMenuLoop(HandlerFor(role, services), Start(user, input));
        AppRun(Some(Menu(role)), Some(run), run.ending == Returned)
      case route => AppRun(Some(route), None, route != NullRole)
  }

  /** Only a manager's session can come back to `startApp()`: the other
      controllers end the program on logout. And a manager who logs out
      is not shown the login screen again: the program shuts down. */
  lemma OnlyManagerReachesShutdownAfterMenu(login: Option<User>, input: seq<string>, services: ManagerMenuController.Services)
    ensures var r := StartApp(login, input, services);
      r.menu.Some? && r.shutdown ==> r.route == Some(Menu(Manager))
  {
    var r := StartApp(login, input, services);
    if r.menu.Some? && r.route.value.role != Manager {
      var handle := HandlerFor(r.route.value.role, services);
      MenuLoopNeverReturns(handle, Start(login.value, input).(exitRequested := false));
    }
  }

  /** A manager choosing 0 at the first prompt ends the program through
      `shutdown()`, not back at the login screen. */
  lemma ManagerLogoutShutsDown(user: User, choice: string, rest: seq<string>, services: ManagerMenuController.Services)
    requires RouteOf(user.userRole) == Menu(Manager) && ParseInt(choice) == Some(0)
    ensures var r := StartApp(Some(user), [choice] + rest, services);
      r.shutdown && r.menu.value.ending == Returned && r.menu.value.session.input == rest
  {
    var s := Start(user, [choice] + rest);
    var handle := ManagerMenuController.Handler(services);
    ManagerMenuController.HandlerWellBehaved(services);
    assert Skip(s, 1).input == rest;
    ZeroEndsLoop(handle, s);
  }

  /** What each role's session may have done to the data. */
  lemma SessionCapabilities(login: Option<User>, input: seq<string>, services: ManagerMenuController.Services)
    ensures var r := StartApp(login, input, services);
      r.menu.Some? ==>
        var added := Added(Start(login.value, input), r.menu.value.session);
        && (r.route.value.role == Tester ==> forall e :: e in added ==> !ContactMutation(e) && !UserAdministration(e))
        && (r.route.value.role == JuniorDeveloper ==> forall e :: e in added ==> !e.AddContact? && !e.DeleteContact? && !UserAdministration(e))
        && (r.route.value.role == SeniorDeveloper ==> forall e :: e in added ==> !UserAdministration(e))
        && (r.route.value.role == Manager ==> forall e :: e in added ==> !ContactAccess(e))
  {
    var r := StartApp(login, input, services);
    if r.menu.Some? {
      var s := Start(login.value, input);
      match r.route.value.role
      case Tester => TesterMenuController.TesterSessionReadOnly(s);
      case JuniorDeveloper => JuniorDeveloperMenuController.JuniorSessionNoCreateOrDelete(s);
      case SeniorDeveloper => SeniorDeveloperMenuController.SeniorSessionNoUserAdministration(s);
      case Manager => ManagerMenuController.ManagerSessionNoContactAccess(services, s);
    }
  }
}
