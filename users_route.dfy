/**
 * The hotspot-user collection route of src/app/api/users/route.ts. GET passes
 * the user list through; POST builds the user record from the JSON body,
 * checks the two required fields and maps the outcome of the opaque
 * `createUser` to a status code. Thrown errors carry an optional `code`.
 */
module UsersRoute {
  import opened Base

  /** A JSON value as it arrives in a request body; a missing property is JNull. */
  datatype Json = JNull | JNum(n: int) | JStr(s: string) | JBool(b: bool)

  /** A thrown error: `error.code` (absent on parse errors) and `error.message`. */
  datatype Thrown = Thrown(code: Option<string>, message: string)

  /** An awaited call either returns a value or throws. */
  datatype Outcome<T> = Returned(value: T) | Threw(error: Thrown)

  datatype Body = Body(username: Json, password: Json, firstname: Json, lastname: Json,
                       company: Json, srvid: Json)

  /** UserManagementData: the fields copied from the body, srvid normalised. */
  datatype UserData = UserData(username: Json, password: Json, firstname: Json, lastname: Json,
                               company: Json, srvid: Option<Num>)

  /** What the JSON response carries. */
  datatype Payload<T> = ErrorPayload(error: string) | Created(message: string) | Data(value: T)

  datatype Response<T> = Response(status: nat, payload: Payload<T>)

  /** The outcome of POST, together with the record createUser received, if it was called. */
  datatype PostResult = PostResult(response: Response<()>, sent: Option<UserData>)

  const DuplicateCode := "ER_DUP_ENTRY"
  const RequiredMessage := "Username and Password are required"
  const CreatedMessage := "User created successfully"
  const DuplicateMessage := "Username already exists"

  /** JavaScript truthiness of a JSON value. */
  predicate Truthy(v: Json)
  {
    match v
    case JNull => false
    case JNum(n) => n != 0
    case JStr(s) => s != ""
    case JBool(b) => b
  }

  /** `Number(v)` for a truthy value; `parse` is the string-to-number conversion. */
  function ToNumber(v: Json, parse: string -> Num): (r: Num)
    ensures v.JNum? ==> r == Finite(v.n)
    ensures v.JStr? ==> r == parse(v.s)
    ensures v.JBool? ==> r == Finite(if v.b then 1 else 0)
  {
    match v
    case JNull => Finite(0)
    case JNum(n) => Finite(n)
    case JStr(s) => parse(s)
    case JBool(b) => Finite(if b then 1 else 0)
  }

  /** `body.srvid ? Number(body.srvid) : null` */
  function NormaliseSrvid(v: Json, parse: string -> Num): (r: Option<Num>)
    ensures r.None? <==> !Truthy(v)
    ensures r.Some? ==> r.value == ToNumber(v, parse)
  {
    if Truthy(v) then Some(ToNumber(v, parse)) else None
  }

  function ToUserData(b: Body, parse: string -> Num): (d: UserData)
    ensures d.username == b.username && d.password == b.password
    ensures d.firstname == b.firstname && d.lastname == b.lastname && d.company == b.company
    ensures d.srvid == NormaliseSrvid(b.srvid, parse)
  {
    UserData(b.username, b.password, b.firstname, b.lastname, b.company, NormaliseSrvid(b.srvid, parse))
  }

  /** The catch block: duplicate key is 409, every other error 500 with its message. */
  function ErrorResponse(e: Thrown): (r: Response<()>)
    ensures e.code == Some(DuplicateCode) ==> r == Response(409, ErrorPayload(DuplicateMessage))
    ensures e.code != Some(DuplicateCode) ==> r == Response(500, ErrorPayload(e.message))
  {
    if e.code == Some(DuplicateCode) then Response(409, ErrorPayload(DuplicateMessage))
    else Response(500, ErrorPayload(e.message))
  }

  /**
   * POST: `body` is the outcome of `request.json()`, `create` the outcome of
   * `createUser` for the record it is given.
   */
  function Post(body: Outcome<Body>, parse: string -> Num, create: UserData -> Outcome<()>): (r: PostResult)
    ensures body.Threw? ==> r.sent.None? && r.response == ErrorResponse(body.error)
    ensures body.Returned? && (!Truthy(body.value.username) || !Truthy(body.value.password)) ==>
      r == PostResult(Response(400, ErrorPayload(RequiredMessage)), None)
    ensures r.sent.Some? ==>
      body.Returned? && r.sent.value == ToUserData(body.value, parse) &&
      Truthy(r.sent.value.username) && Truthy(r.sent.value.password)
    ensures r.sent.Some? && create(r.sent.value).Returned? ==> r.response == Response(200, Created(CreatedMessage))
    ensures r.sent.Some? && create(r.sent.value).Threw? ==> r.response == ErrorResponse(create(r.sent.value).error)
  {
    match body
    case Threw(e) => PostResult(ErrorResponse(e), None)
    case Returned(b) =>
      var d := ToUserData(b, parse);
      if !Truthy(d.username) || !Truthy(d.password) then
        PostResult(Response(400, ErrorPayload(RequiredMessage)), None)
      else
        match create(d)
        case Returned(_) => PostResult(Response(200, Created(CreatedMessage)), Some(d))
        case Threw(e) => PostResult(ErrorResponse(e), Some(d))
  }

  /** GET: the list as the response body, or 500 with the error's message. */
  function Get<T>(users: Outcome<T>): (r: Response<T>)
    ensures users.Returned? ==> r.status == 200 && r.payload == Data(users.value)
    ensures users.Threw? ==> r.status == 500 && r.payload == ErrorPayload(users.error.message)
  {
    match users
    case Returned(u) => Response(200, Data(u))
    case Threw(e) => Response(500, ErrorPayload(e.message))
  }

  /**
   * The status of POST in terms of its inputs: 200 exactly when the body
   * parsed, both required fields are present and createUser returned; 400
   * exactly when a required field is missing; 409 exactly when the thrown
   * error is the duplicate key; 500 otherwise.
   */
  lemma PostStatus(body: Outcome<Body>, parse: string -> Num, create: UserData -> Outcome<()>)
    ensures var r := Post(body, parse, create);
      var valid := body.Returned? && Truthy(body.value.username) && Truthy(body.value.password);
      var thrown := if body.Threw? then Some(body.error)
                    else if valid && create(ToUserData(body.value, parse)).Threw? then Some(create(ToUserData(body.value, parse)).error)
                    else None;
      (r.response.status == 200 <==> valid && thrown.None?) &&
      (r.response.status == 400 <==> body.Returned? && !valid) &&
      (r.response.status == 409 <==> thrown.Some? && thrown.value.code == Some(DuplicateCode)) &&
      (r.response.status == 500 <==> thrown.Some? && thrown.value.code != Some(DuplicateCode))
  {
  }

  /** Success is reported only after createUser returned for the record sent. */
  lemma SuccessOnlyAfterCreate(body: Outcome<Body>, parse: string -> Num, create: UserData -> Outcome<()>)
    ensures var r := Post(body, parse, create);
      r.response.status == 200 ==> r.sent.Some? && create(r.sent.value).Returned?
  {
  }

  /** A zero, empty or false srvid is stored as null; a non-empty string is converted, even "0". */
  lemma FalsySrvidIsNull(parse: string -> Num)
    ensures NormaliseSrvid(JNum(0), parse).None?
    ensures NormaliseSrvid(JStr(""), parse).None?
    ensures NormaliseSrvid(JBool(false), parse).None?
    ensures NormaliseSrvid(JStr("0"), parse) == Some(parse("0"))
  {
  }
}
