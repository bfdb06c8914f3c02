/**
 * The create/edit dialog of src/components/users/UserModal.tsx: the form it
 * opens with, the validation of `handleSubmit` and the request it sends, and
 * the error shown for a failed response. `encode` stands for
 * encodeURIComponent.
 */
module UserModal {
  import opened Base
  import opened UserTable

  datatype ServicePlan = ServicePlan(srvid: int, srvname: string)

  /** The form state sent as the JSON body. */
  datatype FormData = FormData(
    username: string,
    password: string,
    firstname: string,
    lastname: string,
    company: string,
    srvid: Option<int>)

  datatype Method = Put | Post

  /** What submitting does: show a validation error, or send one request. */
  datatype Submission = Invalid(message: string) | Send(verb: Method, url: string, body: FormData)

  const UsernameRequired := "Username is required"
  const PasswordRequired := "Password is required for new users"
  const OperationFailed := "Operation failed"
  const UsersUrl := "/api/users"

  /**
   * The form when the dialog opens: the user's columns with the password
   * blanked in edit mode; empty fields and the first plan in create mode.
   */
  function InitialForm(user: Option<ManagedUser>, services: seq<ServicePlan>): (f: FormData)
    ensures f.password == ""
    ensures user.None? ==> f.username == "" && f.firstname == "" && f.lastname == "" && f.company == ""
    ensures user.None? && services != [] ==> f.srvid == Some(services[0].srvid)
    ensures user.None? && services == [] ==> f.srvid.None?
    ensures user.Some? ==>
      f.username == user.value.username && f.firstname == user.value.firstname &&
      f.lastname == user.value.lastname && f.srvid == user.value.srvid &&
      f.company == (if user.value.company.Some? then user.value.company.value else "")
  {
    match user
    case Some(u) =>
      FormData(u.username, "", u.firstname, u.lastname,
        if u.company.Some? then u.company.value else "", u.srvid)
    case None =>
      FormData("", "", "", "", "", if |services| > 0 then Some(services[0].srvid) else None)
  }

  /** `handleSubmit` up to the fetch: the two guards, then method and URL by mode. */
  function Submit(form: FormData, user: Option<ManagedUser>, encode: string -> string): (s: Submission)
    ensures form.username == "" ==> s == Invalid(UsernameRequired)
    ensures form.username != "" && user.None? && form.password == "" ==> s == Invalid(PasswordRequired)
    ensures s.Send? ==> s.body == form
    ensures s.Send? && user.Some? ==> s.verb == Put && s.url == UsersUrl + "/" + encode(user.value.username)
    ensures s.Send? && user.None? ==> s.verb == Post && s.url == UsersUrl
  {
    if form.username == "" then Invalid(UsernameRequired)
    else if user.None? && form.password == "" then Invalid(PasswordRequired)
    else if user.Some? then Send(Put, UsersUrl + "/" + encode(user.value.username), form)
    else Send(Post, UsersUrl, form)
  }

  /**
   * A request is sent exactly when the username is filled in and, for a new
   * user, the password is too; editing accepts an empty password.
   */
  lemma SendIff(form: FormData, user: Option<ManagedUser>, encode: string -> string)
    ensures Submit(form, user, encode).Send? <==> form.username != "" && (user.Some? || form.password != "")
  {
  }

  /** The username check comes first: with both fields empty only it is reported. */
  lemma UsernameCheckFirst(form: FormData, user: Option<ManagedUser>, encode: string -> string)
    requires form.username == "" && form.password == ""
    ensures Submit(form, user, encode) == Invalid(UsernameRequired)
  {
  }

  /**
   * Edit addresses the user by the name it had when the dialog opened, not by
   * the (possibly edited) name in the form.
   */
  lemma EditTargetsOriginalName(form: FormData, u: ManagedUser, encode: string -> string)
    requires form.username != ""
    ensures Submit(form, Some(u), encode) == Send(Put, UsersUrl + "/" + encode(u.username), form)
  {
  }

  /**
   * The error shown once the request is made. `thrown` is the message of an
   * exception raised by `fetch` or by `res.json()` (a failed request, a body
   * that is not JSON); it is caught before `res.ok` is looked at, so it is
   * shown whatever the status. Otherwise there is no error when ok, and the
   * server's error text or the fallback when not.
   */
  function ResponseError(ok: bool, thrown: Option<string>, serverError: Option<string>): (e: Option<string>)
    ensures e.None? <==> ok && thrown.None?
    ensures thrown.Some? ==> e == thrown
    ensures thrown.None? && !ok && serverError.Some? && serverError.value != "" ==> e == serverError
    ensures thrown.None? && !ok && (serverError.None? || serverError == Some("")) ==> e == Some(OperationFailed)
  {
    if thrown.Some? then thrown
    else if ok then None
    else if serverError.Some? && serverError.value != "" then serverError
    else Some(OperationFailed)
  }

  /** Opening the dialog for a new user and submitting it unchanged never sends. */
  lemma FreshFormIsRejected(services: seq<ServicePlan>, encode: string -> string)
    ensures Submit(InitialForm(None, services), None, encode) == Invalid(UsernameRequired)
  {
  }
}
