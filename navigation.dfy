/**
 * The navigation controller of routes.js: the current page, the
 * authentication flag and its persisted copy, the location fragment, and
 * the `navigateTo` / `handleRoute` pair that resolves the fragment, applies
 * the authentication policy and hands the page to the page loader.
 */
module Navigation {
  import opened Wrappers
  import opened Routes

  /** The pages that need a signed-in user (`protectedRoutes`). */
  predicate Protected(page: Page)
  {
    match page
    case Dashboard | Invoices | Expenses | Products | Clients | Reports | Settings => true
    case _ => false
  }

  /** The redirect targets of `handleRoute`. */
  const LoginPath := "/login"
  const DashboardPath := "/dashboard"

  /** The policy every committed page obeys. */
  predicate Permitted(page: Page, authenticated: bool)
  {
    (Protected(page) ==> authenticated) &&
    (page == Login || page == Signup ==> !authenticated)
  }

  /** `window.location.hash.slice(1) || '/'`, given the fragment after '#'. */
  function RouteOf(hash: string): (route: string)
    ensures route != []
    ensures hash == [] ==> route == "/"
    ensures hash != [] ==> route == hash
  {
    if hash == [] then "/" else hash
  }

  /** What one run of `handleRoute` does with a resolved match. */
  datatype Step = Redirect(target: string) | Commit(resolved: Match)

  function Decide(m: Match, authenticated: bool): (step: Step)
    ensures step.Commit? <==> Permitted(m.page, authenticated)
    ensures step.Commit? ==> step.resolved == m
    ensures step.Redirect? && !authenticated ==> step.target == LoginPath
    ensures step.Redirect? && authenticated ==> step.target == DashboardPath
  {
    if Protected(m.page) && !authenticated then Redirect(LoginPath)
    else if (m.page == Login || m.page == Signup) && authenticated then Redirect(DashboardPath)
    else Commit(m)
  }

  /** The step `handleRoute` takes when the location fragment is `hash`. */
  function StepAt(hash: string, authenticated: bool): Step
  {
    Decide(MatchIn(Table, RouteOf(hash)), authenticated)
  }

  /** How many redirects a `handleRoute` run on `hash` still has to make before it commits. */
  function RedirectsAhead(hash: string, authenticated: bool): nat
  {
    if StepAt(hash, authenticated).Redirect? then 1 else 0
  }

  /** `/login` is the second entry's pattern and resolves to the login page. */
  lemma LoginPageResolves()
    ensures MatchIn(Table, LoginPath) == Match(Login, map[])
  {
    assert Pattern(Table[1]) == LoginPath && Table[1].page == Login;
    PatternResolvesToOwnPage(1);
  }

  /** `/dashboard` is the fifth entry's pattern and resolves to the dashboard page. */
  lemma DashboardPageResolves()
    ensures MatchIn(Table, DashboardPath) == Match(Dashboard, map[])
  {
    assert Pattern(Table[4]) == DashboardPath && Table[4].page == Dashboard;
    PatternResolvesToOwnPage(4);
  }

  /** A non-empty fragment is resolved as it stands. */
  lemma StepOfResolved(path: string, authenticated: bool, m: Match)
    requires path != [] && MatchIn(Table, path) == m
    ensures StepAt(path, authenticated) == Decide(m, authenticated)
  {
  }

  /** The redirect targets are committed as soon as they are handled. */
  lemma TargetCommits(target: string, authenticated: bool)
    requires if authenticated then target == DashboardPath else target == LoginPath
    ensures StepAt(target, authenticated).Commit?
  {
    if authenticated {
      DashboardPageResolves();
      StepOfResolved(target, authenticated, Match(Dashboard, map[]));
    } else {
      LoginPageResolves();
      StepOfResolved(target, authenticated, Match(Login, map[]));
    }
  }

  /** A redirect target is committed as soon as it is handled: no second redirect follows. */
  lemma RedirectLandsDirectly(hash: string, authenticated: bool)
    requires StepAt(hash, authenticated).Redirect?
    ensures StepAt(StepAt(hash, authenticated).target, authenticated).Commit?
  {
    TargetCommits(StepAt(hash, authenticated).target, authenticated);
  }

  /** Where a `handleRoute` run ends: the final fragment and the match handed to `loadPage`. */
  datatype Visit = Visit(hash: string, committed: Match)

  /**
   * The outcome of `handleRoute` on fragment `hash`: commit the match, or
   * follow the redirect once and commit what the target resolves to.
   */
  function Settle(hash: string, authenticated: bool): (v: Visit)
    ensures Permitted(v.committed.page, authenticated)
  {
    match StepAt(hash, authenticated)
    case Commit(m) => Visit(hash, m)
    case Redirect(target) =>
      match StepAt(target, authenticated)
      case Commit(m) => Visit(target, m)
      case Redirect(_) =>
        RedirectLandsDirectly(hash, authenticated);
        assert false;
        Visit(target, NotFound)
  }

  /** A run that redirects ends where a run started at the redirect target ends. */
  lemma SettleFollowsRedirect(hash: string, authenticated: bool)
    requires StepAt(hash, authenticated).Redirect?
    ensures Settle(hash, authenticated) == Settle(StepAt(hash, authenticated).target, authenticated)
  {
    RedirectLandsDirectly(hash, authenticated);
  }

  /** An unauthenticated user on a protected page ends on the login page; the protected page is not loaded. */
  lemma ProtectedPageRedirectsToLogin(hash: string)
    requires Protected(MatchIn(Table, RouteOf(hash)).page)
    ensures Settle(hash, false) == Visit(LoginPath, Match(Login, map[]))
  {
    var target := StepAt(hash, false).target;
    assert target == LoginPath;
    SettleFollowsRedirect(hash, false);
    LoginPageResolves();
    PermittedPageCommitsInPlace(target, false);
  }

  /** An authenticated user on the login or signup page ends on the dashboard. */
  lemma AuthPageRedirectsToDashboard(hash: string)
    requires MatchIn(Table, RouteOf(hash)).page == Login || MatchIn(Table, RouteOf(hash)).page == Signup
    ensures Settle(hash, true) == Visit(DashboardPath, Match(Dashboard, map[]))
  {
    var target := StepAt(hash, true).target;
    assert target == DashboardPath;
    SettleFollowsRedirect(hash, true);
    DashboardPageResolves();
    PermittedPageCommitsInPlace(target, true);
  }

  /** A page the policy allows is committed where it is, with the matched params. */
  lemma PermittedPageCommitsInPlace(hash: string, authenticated: bool)
    requires Permitted(MatchIn(Table, RouteOf(hash)).page, authenticated)
    ensures Settle(hash, authenticated) == Visit(hash, MatchIn(Table, RouteOf(hash)))
  {
  }

  /** Handling the fragment a run ended on again changes nothing. */
  lemma SettleIsIdempotent(hash: string, authenticated: bool)
    ensures Settle(Settle(hash, authenticated).hash, authenticated) == Settle(hash, authenticated)
  {
    var v := Settle(hash, authenticated);
    if StepAt(hash, authenticated).Redirect? {
      RedirectLandsDirectly(hash, authenticated);
    }
    PermittedPageCommitsInPlace(v.hash, authenticated);
  }

  /** An empty fragment is the route `/`, which is the home page, open to everyone. */
  lemma EmptyFragmentIsHome(authenticated: bool)
    ensures Settle("", authenticated) == Visit("", Match(Home, map[]))
  {
    assert Pattern(Table[0]) == RouteOf("") && Table[0].page == Home;
    PatternResolvesToOwnPage(0);
    PermittedPageCommitsInPlace("", authenticated);
  }

  /** Invoice detail pages are not protected: they load without signing in. */
  lemma InvoiceDetailIsOpen(x: string, authenticated: bool)
    requires '/' !in x && x != "new" && x != ":id"
    ensures Settle("/invoices/" + x, authenticated) == Visit("/invoices/" + x, Match(InvoiceDetail, map["id" := x]))
  {
    var path := "/invoices/" + x;
    InvoiceIdBinds(x);
    assert RouteOf(path) == path;
    PermittedPageCommitsInPlace(path, authenticated);
  }

  /** `localStorage.getItem('isAuthenticated') === 'true'`: None is a missing entry. */
  function ReadFlag(stored: Option<string>): bool
  {
    stored == Some("true")
  }

  /** The string `localStorage.setItem` keeps for a boolean. */
  function StoredForm(value: bool): (s: string)
    ensures ReadFlag(Some(s)) == value
  {
    if value then "true" else "false"
  }

  /**
   * The router's module-level state. `loads` records every call of the
   * page loader, in order; the page loader itself and the navigation
   * highlighting are not part of this model.
   */
  class Router {
    /** `currentPage` */
    var currentPage: Page
    /** `isAuthenticated` */
    var authenticated: bool
    /** The persisted `isAuthenticated` entry; None when there is none. */
    var stored: Option<string>
    /** `window.location.hash` without its leading '#'. */
    var hash: string
    /** Every `loadPage(page, params)` call so far, oldest first. */
    var loads: seq<Match>

    /** Module initialisation: the page starts at home and the flag is read back from storage. */
    constructor (initialHash: string, storedFlag: Option<string>)
      ensures currentPage == Home && hash == initialHash && loads == []
      ensures stored == storedFlag && authenticated == ReadFlag(storedFlag)
    {
      currentPage := Home;
      authenticated := ReadFlag(storedFlag);
      stored := storedFlag;
      hash := initialHash;
      loads := [];
    }

    /** `getCurrentRoute()` */
    method GetCurrentRoute() returns (route: string)
      ensures route == RouteOf(hash)
    {
      route := RouteOf(hash);
    }

    /** The exported `isAuthenticated()` accessor. */
    function IsAuthenticated(): bool
      reads this
    {
      authenticated
    }

    /**
     * The exported `setAuthenticated(value)`: the flag and its stored copy,
     * nothing else; the stored copy reads back as the same flag on the next load.
     */
    method SetAuthenticated(value: bool)
      modifies this
      ensures IsAuthenticated() == value && stored == Some(StoredForm(value))
      ensures ReadFlag(stored) == value
      ensures currentPage == old(currentPage) && hash == old(hash) && loads == old(loads)
    {
      authenticated := value;
      stored := Some(StoredForm(value));
    }

    /** `navigateTo(path)`: set the fragment, then handle it. */
    method NavigateTo(path: string)
      modifies this
      decreases RedirectsAhead(path, authenticated), 1
      ensures authenticated == old(authenticated) && stored == old(stored)
      ensures var v := Settle(path, old(authenticated));
        hash == v.hash && currentPage == v.committed.page && loads == old(loads) + [v.committed]
    {
      hash := path;
      HandleRoute();
    }

    /**
     * `handleRoute()`: resolve the fragment, redirect when the policy says
     * so, otherwise commit the page and load it.
     */
    method HandleRoute()
      modifies this
      decreases RedirectsAhead(hash, authenticated), 0
      ensures authenticated == old(authenticated) && stored == old(stored)
      ensures var v := Settle(old(hash), old(authenticated));
        hash == v.hash && currentPage == v.committed.page && loads == old(loads) + [v.committed]
    {
      var route := GetCurrentRoute();
      AllTableEntriesWellFormed();
      var m := MatchRoute(Table, route);
      if Protected(m.page) && !authenticated {
        RedirectLandsDirectly(hash, authenticated);
        SettleFollowsRedirect(hash, authenticated);
        NavigateTo(LoginPath);
        return;
      }
      if (m.page == Login || m.page == Signup) && authenticated {
        RedirectLandsDirectly(hash, authenticated);
        SettleFollowsRedirect(hash, authenticated);
        NavigateTo(DashboardPath);
        return;
      }
      PermittedPageCommitsInPlace(hash, authenticated);
      currentPage := m.page;
      loads := loads + [m];
    }
  }
}
