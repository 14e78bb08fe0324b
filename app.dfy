/**
 * The application shell: the `auth` flag, its mount check against the stored
 * token, logout, and which page each route renders.
 */
module App {
  import opened Common

  /** What a route's `element` renders. */
  datatype View = LoginPage | RegisterPage | EventPage | Navigate(to: string) | NoRoute

  /** `if (token)`: a stored token counts only when it is a non-empty string. */
  predicate TokenPresent(stored: Option<string>): (b: bool)
    ensures stored.None? ==> !b
    ensures stored.Some? ==> (b <==> |stored.value| > 0)
  {
    stored.Some? && stored.value != ""
  }

  /**
   * The route table: `/` and `/register` render their page when logged out and
   * redirect to `/events` when logged in; `/events` renders the event page only
   * when logged in and otherwise redirects to `/`.
   */
  function Element(path: string, auth: bool): (v: View)
    ensures path == "/" ==> v == if auth then Navigate("/events") else LoginPage
    ensures path == "/register" ==> v == if auth then Navigate("/events") else RegisterPage
    ensures path == "/events" ==> v == if auth then EventPage else Navigate("/")
    ensures v == EventPage ==> auth
  {
    if path == "/" then (if auth then Navigate("/events") else LoginPage)
    else if path == "/register" then (if auth then Navigate("/events") else RegisterPage)
    else if path == "/events" then (if auth then EventPage else Navigate("/"))
    else NoRoute
  }

  /** The page shown after following a redirect, if the element is one. */
  function Shown(path: string, auth: bool): View
  {
    match Element(path, auth)
    case Navigate(to) => Element(to, auth)
    case v => v
  }

  /**
   * The guard settles in one redirect: on every route the app renders the event
   * page exactly when logged in, and the login page or the register page
   * otherwise.
   */
  lemma GuardSettles(path: string, auth: bool)
    requires path in {"/", "/register", "/events"}
    ensures Shown(path, auth) == if auth then EventPage else if path == "/register" then RegisterPage else LoginPage
    ensures Shown(path, auth) == EventPage <==> auth
  {
  }

  /** The `App` component's state: the `auth` flag and the token kept in local storage. */
  class App {
    var auth: bool
    var storedToken: Option<string>

    /** `useState(false)`, with whatever local storage holds. */
    constructor (stored: Option<string>)
      ensures !auth && storedToken == stored
    {
      auth := false;
      storedToken := stored;
    }

    /** The mount effect: `setAuth(true)` when a token is stored; the flag is never cleared here. */
    method Mount()
      modifies this
      ensures auth == (old(auth) || TokenPresent(storedToken))
      ensures storedToken == old(storedToken)
    {
      if TokenPresent(storedToken) {
        auth := true;
      }
    }

    /** `handleLogout`: remove the stored token and clear the flag. */
    method HandleLogout()
      modifies this
      ensures !auth && storedToken.None?
    {
      storedToken := None;
      auth := false;
    }
  }

  /** First render and mount: the flag is set exactly when a token is stored. */
  method Start(stored: Option<string>) returns (app: App)
    ensures fresh(app)
    ensures app.auth <==> TokenPresent(stored)
    ensures app.storedToken == stored
  {
    app := new App(stored);
    app.Mount();
  }
}
