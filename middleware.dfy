/**
 * The request middleware of src/middleware.ts: which paths it runs on, and
 * for those, whether the request passes or is redirected. A session is the
 * decrypted token; only the role of its user matters here.
 */
module Middleware {
  import opened Base
  import Text

  /** A decrypted session token: the role of its `user`, None when absent. */
  datatype Token = Token(role: Option<string>)

  datatype Decision = Pass | Redirect(location: string)

  const LoginPath := "/login"
  const SetupPrefix := "/api/setup-web-users"
  const AdminPrefix := "/users"

  predicate IsPublic(path: string)
  {
    path == LoginPath || Text.StartsWith(path, SetupPrefix)
  }

  predicate IsAdmin(session: Option<Token>)
  {
    session.Some? && session.value.role == Some("admin")
  }

  /** The decision for a request the middleware runs on. */
  function Decide(path: string, session: Option<Token>): (d: Decision)
    ensures !IsPublic(path) && session.None? ==> d == Redirect(LoginPath)
    ensures IsPublic(path) && session.Some? ==> d == Redirect("/")
    ensures IsPublic(path) && session.None? ==> d == Pass
    ensures !IsPublic(path) && session.Some? ==>
      d == if Text.StartsWith(path, AdminPrefix) && !IsAdmin(session) then Redirect("/?error=Unauthorized") else Pass
  {
    var public := IsPublic(path);
    PublicIsNotAdmin(path);
    if !public && session.None? then Redirect(LoginPath)
    else if public && session.Some? then Redirect("/")
    else if Text.StartsWith(path, AdminPrefix) && !IsAdmin(session) then Redirect("/?error=Unauthorized")
    else Pass
  }

  /** No public path lies in the admin area. */
  lemma PublicIsNotAdmin(path: string)
    ensures IsPublic(path) ==> !Text.StartsWith(path, AdminPrefix)
  {
    if Text.StartsWith(path, AdminPrefix) {
      Text.PrefixChar(path, AdminPrefix, 1);
      assert path != LoginPath;
      if Text.StartsWith(path, SetupPrefix) {
        Text.PrefixChar(path, SetupPrefix, 1);
      }
    }
  }

  /**
   * The matcher `/((?!api|_next/static|_next/image|favicon.ico).*)`: a path
   * whose text after the leading '/' does not start with one of the excluded
   * prefixes. The '.' of the last alternative matches any character.
   */
  predicate Matched(path: string)
  {
    |path| >= 1 && path[0] == '/' &&
    var rest := path[1..];
    !Text.StartsWith(rest, "api") &&
    !Text.StartsWith(rest, "_next/static") &&
    !Text.StartsWith(rest, "_next/image") &&
    !(|rest| >= 11 && rest[..7] == "favicon" && rest[8..11] == "ico")
  }

  /** What happens to a request: unmatched paths are not seen by the middleware. */
  function Handle(path: string, session: Option<Token>): (d: Decision)
    ensures !Matched(path) ==> d == Pass
    ensures Matched(path) ==> d == Decide(path, session)
  {
    if Matched(path) then Decide(path, session) else Pass
  }

  /** A logged-in user asking for the login page is sent to the dashboard. */
  lemma LoggedInNeverSeesLogin(session: Option<Token>)
    requires session.Some?
    ensures Handle(LoginPath, session) == Redirect("/")
  {
    var rest := LoginPath[1..];
    assert LoginPath[0] == '/' && rest == "login";
    assert rest[..3] == "log";
  }

  /**
   * Without a session, the admin area sends the visitor to the login page,
   * not to the unauthorised page: the session rule comes first.
   */
  lemma SessionlessAdminPathGoesToLogin(path: string)
    requires Text.StartsWith(path, AdminPrefix)
    ensures Decide(path, None) == Redirect(LoginPath)
  {
    PublicIsNotAdmin(path);
  }

  /** The admin check is a prefix test: '/usersX' is guarded like '/users'. */
  lemma AdminPrefixIsTextual()
    ensures Decide("/usersX", Some(Token(Some("user")))) == Redirect("/?error=Unauthorized")
    ensures Decide("/users", Some(Token(None))) == Redirect("/?error=Unauthorized")
  {
    assert "/usersX"[..|AdminPrefix|] == AdminPrefix;
  }

  /** An admin session passes on every non-public path. */
  lemma AdminPasses(path: string, session: Option<Token>)
    requires !IsPublic(path) && IsAdmin(session)
    ensures Decide(path, session) == Pass
  {
  }

  /**
   * The matcher excludes every path beginning with '/api', so the
   * '/api/setup-web-users' public rule is never reached.
   */
  lemma SetupRouteNeverSeen(path: string, session: Option<Token>)
    requires Text.StartsWith(path, SetupPrefix)
    ensures !Matched(path)
    ensures Handle(path, session) == Pass
  {
    Text.PrefixChar(path, SetupPrefix, 1);
    Text.PrefixChar(path, SetupPrefix, 2);
    Text.PrefixChar(path, SetupPrefix, 3);
    assert path[1..][..3] == "api";
  }
}
