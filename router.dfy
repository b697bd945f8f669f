/**
 * The client-side route table and its `beforeEach` navigation guard.
 */
module Router {
  import opened Wrappers

  datatype Route = Route(path: string, name: string, requiresAuth: bool)

  /** The route table, in declaration order; only the login page is public. */
  const Routes: seq<Route> := [
    Route("/", "Home", true),
    Route("/dashboard", "Dashboard", true),
    Route("/students", "Students", true),
    Route("/attendance", "Attendance", true),
    Route("/login", "Login", false)
  ]

  /** `to.meta.requiresAuth` of the first route with the path; an unmatched path has empty meta. */
  function RequiresAuthIn(routes: seq<Route>, path: string): bool
  {
    if routes == [] then false
    else if routes[0].path == path then routes[0].requiresAuth
    else RequiresAuthIn(routes[1..], path)
  }

  /** The lookup answers true exactly when the first route with the path requires authentication. */
  lemma {:induction false} RequiresAuthInFirstMatch(routes: seq<Route>, path: string)
    ensures RequiresAuthIn(routes, path) <==>
      exists i :: 0 <= i < |routes| && routes[i].path == path && routes[i].requiresAuth
        && forall j :: 0 <= j < i ==> routes[j].path != path
  {
    if routes != [] && routes[0].path != path {
      var rest := routes[1..];
      RequiresAuthInFirstMatch(rest, path);
      if RequiresAuthIn(routes, path) {
        var i :| 0 <= i < |rest| && rest[i].path == path && rest[i].requiresAuth
          && forall j :: 0 <= j < i ==> rest[j].path != path;
        assert routes[i + 1] == rest[i];
        forall j | 0 <= j < i + 1 ensures routes[j].path != path {
          if j > 0 { assert routes[j] == rest[j - 1]; }
        }
      }
      if exists i :: 0 <= i < |routes| && routes[i].path == path && routes[i].requiresAuth
          && forall j :: 0 <= j < i ==> routes[j].path != path {
        var i :| 0 <= i < |routes| && routes[i].path == path && routes[i].requiresAuth
          && forall j :: 0 <= j < i ==> routes[j].path != path;
        assert i > 0 && rest[i - 1] == routes[i];
        forall j | 0 <= j < i - 1 ensures rest[j].path != path {
          assert rest[j] == routes[j + 1];
        }
      }
    }
  }

  function RequiresAuth(path: string): bool
  {
    RequiresAuthIn(Routes, path)
  }

  /** The stored `auth_token`: null and the empty string are falsy. */
  predicate HasToken(token: Option<string>)
  {
    token.Some? && token.value != ""
  }

  datatype Decision = Proceed | Redirect(target: string)

  /** The guard: protected page without a token goes to /login; /login with a token goes to /. */
  function BeforeEach(path: string, token: Option<string>): Decision
  {
    if RequiresAuth(path) && !HasToken(token) then Redirect("/login")
    else if path == "/login" && HasToken(token) then Redirect("/")
    else Proceed
  }

  /** Every route but /login is protected, and /login is not. */
  lemma OnlyLoginIsPublic()
    ensures forall i :: 0 <= i < |Routes| ==> (Routes[i].requiresAuth <==> Routes[i].path != "/login")
    ensures RequiresAuth("/") && RequiresAuth("/dashboard") && RequiresAuth("/students")
    ensures RequiresAuth("/attendance") && !RequiresAuth("/login")
  {
    assert Routes[1..][0].path == "/dashboard";
    assert Routes[1..][1..][0].path == "/students";
    assert Routes[1..][1..][1..][0].path == "/attendance";
    assert Routes[1..][1..][1..][1..][0].path == "/login";
    assert Routes[1..][1..][1..][1..][1..] == [];
  }

  /** A page the guard lets through is protected only with a token, and is /login only without one. */
  lemma ProceedIsSafe(path: string, token: Option<string>)
    requires BeforeEach(path, token) == Proceed
    ensures RequiresAuth(path) ==> HasToken(token)
    ensures path == "/login" ==> !HasToken(token)
  {
  }

  /** The guard accepts its own redirect target under the same token: no redirect loop. */
  lemma NoRedirectLoop(path: string, token: Option<string>)
    requires BeforeEach(path, token).Redirect?
    ensures BeforeEach(BeforeEach(path, token).target, token) == Proceed
  {
    OnlyLoginIsPublic();
  }

  /** Without a token every protected page leads to /login; with one, /login leads home and nothing else redirects. */
  lemma GuardDecisions(path: string, token: Option<string>)
    ensures !HasToken(token) && RequiresAuth(path) <==> BeforeEach(path, token) == Redirect("/login")
    ensures HasToken(token) && path == "/login" <==> BeforeEach(path, token) == Redirect("/")
    ensures HasToken(token) && path != "/login" ==> BeforeEach(path, token) == Proceed
  {
  }
}
