/**
 * The `login` server action of src/app/actions/auth.ts: a chain of guards over
 * the submitted credentials and the web_users row found for the username,
 * ending in the session payload. bcrypt.compare is the opaque `verify`;
 * `fault` stands for the lookup throwing. The cookie write and the redirect
 * are left out.
 */
module Auth {
  import opened Base
  import opened WebUsers

  /** 24 hours in milliseconds: the cookie's lifetime. */
  const SessionLifetimeMs := 24 * 60 * 60 * 1000

  const MissingCredentials := "Missing credentials"
  const InvalidCredentials := "Invalid username or password"
  const AccountDisabled := "Your account has been disabled. Please contact administrator."
  const InternalError := "Internal server error"

  datatype LoginResult = LoginFailed(message: string) | LoggedIn(session: SessionUser, expiresMs: int)

  /** SELECT * FROM web_users WHERE username = ?, first row. */
  function FindByUsername(table: seq<WebUser>, username: string): (r: Option<WebUser>)
    ensures r.None? <==> forall u :: u in table ==> u.username != username
    ensures r.Some? ==> r.value in table && r.value.username == username
  {
    FindFirst(table, (u: WebUser) => u.username == username)
  }

  /** The payload signed into the session token: exactly these four fields. */
  function Payload(u: WebUser): (s: SessionUser)
    ensures s.id == u.id && s.username == u.username && s.role == u.role && s.fullname == u.fullname
  {
    SessionUser(u.id, u.username, u.role, u.fullname)
  }

  function Login(username: Option<string>, password: Option<string>, table: seq<WebUser>,
                 verify: (string, string) -> bool, nowMs: int, fault: bool): (r: LoginResult)
    ensures !Truthy(username) || !Truthy(password) ==> r == LoginFailed(MissingCredentials)
    ensures Truthy(username) && Truthy(password) && fault ==> r == LoginFailed(InternalError)
    ensures r.LoggedIn? ==>
      Truthy(username) && Truthy(password) && !fault &&
      var u := FindByUsername(table, username.value);
      u.Some? && verify(password.value, u.value.passwordHash) && u.value.status == "active" &&
      r.session == Payload(u.value) && r.expiresMs == nowMs + SessionLifetimeMs
  {
    if !Truthy(username) || !Truthy(password) then LoginFailed(MissingCredentials)
    else if fault then LoginFailed(InternalError)
    else
      var u := FindByUsername(table, username.value);
      if u.None? || !verify(password.value, u.value.passwordHash) then LoginFailed(InvalidCredentials)
      else if u.value.status != "active" then LoginFailed(AccountDisabled)
      else LoggedIn(Payload(u.value), nowMs + SessionLifetimeMs)
  }

  /**
   * An unknown username and a wrong password are reported with the same
   * message, so the response does not reveal which accounts exist.
   */
  lemma InvalidCredentialsIff(username: Option<string>, password: Option<string>, table: seq<WebUser>,
                              verify: (string, string) -> bool, nowMs: int, fault: bool)
    ensures Login(username, password, table, verify, nowMs, fault) == LoginFailed(InvalidCredentials) <==>
      Truthy(username) && Truthy(password) && !fault &&
      ((forall u :: u in table ==> u.username != username.value) ||
       !verify(password.value, FindByUsername(table, username.value).value.passwordHash))
  {
  }

  /**
   * The disabled-account message needs a verified password: a disabled user
   * typing a wrong password sees the invalid-credentials message.
   */
  lemma DisabledOnlyAfterPassword(username: Option<string>, password: Option<string>, table: seq<WebUser>,
                                  verify: (string, string) -> bool, nowMs: int, fault: bool)
    ensures Login(username, password, table, verify, nowMs, fault) == LoginFailed(AccountDisabled) <==>
      Truthy(username) && Truthy(password) && !fault &&
      FindByUsername(table, username.value).Some? &&
      verify(password.value, FindByUsername(table, username.value).value.passwordHash) &&
      FindByUsername(table, username.value).value.status != "active"
  {
  }

  /** Login succeeds exactly when every guard passes and the status is 'active'. */
  lemma LoginSucceedsIff(username: Option<string>, password: Option<string>, table: seq<WebUser>,
                         verify: (string, string) -> bool, nowMs: int, fault: bool)
    ensures Login(username, password, table, verify, nowMs, fault).LoggedIn? <==>
      Truthy(username) && Truthy(password) && !fault &&
      FindByUsername(table, username.value).Some? &&
      verify(password.value, FindByUsername(table, username.value).value.passwordHash) &&
      FindByUsername(table, username.value).value.status == "active"
  {
  }

  /** Every outcome is one of the five the action returns. */
  lemma LoginOutcomes(username: Option<string>, password: Option<string>, table: seq<WebUser>,
                      verify: (string, string) -> bool, nowMs: int, fault: bool)
    ensures var r := Login(username, password, table, verify, nowMs, fault);
      r.LoggedIn? || r.message in {MissingCredentials, InternalError, InvalidCredentials, AccountDisabled}
  {
  }
}
