/**
 * The four request handlers as functions from the server's state (the user
 * table and one client's session user) to a response and the next state.
 * Failures of the collaborators (the hasher, the database, the session
 * store) are boolean inputs, so that every error branch is reachable.
 */
module Handlers {
  import opened Wrappers
  import opened Hashing
  import opened Users
  import opened Responses

  /** A field of the JSON body: `None` when absent. */
  type Field = Option<string>

  /** The body of `POST /register`. */
  datatype Signup = Signup(firstname: Field, lastname: Field, username: Field, email: Field, password: Field)

  /** JavaScript truthiness of a string field: present and not empty. */
  predicate Present(f: Field) {
    f.Some? && f.value != ""
  }

  /** The presence check on the five signup fields. */
  predicate Complete(req: Signup) {
    Present(req.username) && Present(req.email) && Present(req.password) &&
    Present(req.firstname) && Present(req.lastname)
  }

  /** The user table and the session slot of the one client modelled. */
  datatype State = State(users: seq<User>, session: Option<string>)

  /** A handler's answer and the state it leaves behind. */
  datatype Step = Step(response: Response, state: State)

  /** The row the signup handler inserts: the password column holds `digest`. */
  function NewRow(req: Signup, digest: string): User
    requires Complete(req)
  {
    User(req.firstname.value, req.lastname.value, req.username.value, req.email.value, digest)
  }

  /**
   * `POST /register`: the presence check, then bcrypt.hash (which may fail),
   * then the INSERT (which may fail).
   */
  function Register(s: State, req: Signup, h: Hasher, salt: Salt, hashFails: bool, insertFails: bool): (r: Step)
    ensures r.state.session == s.session
    ensures r.response == IncompleteData <==> !Complete(req)
    ensures r.response == Registered <==> Complete(req) && !hashFails && !insertFails
    ensures r.response == IncompleteData || r.response == InternalError || r.response == Registered
    ensures r.response != Registered ==> r.state == s
    ensures Complete(req) && r.response == Registered ==>
              r.state.users == s.users + [NewRow(req, h.hash(req.password.value, salt))]
  {
    if !Complete(req) then Step(IncompleteData, s)
    else if hashFails then Step(InternalError, s)
    else
      var row := NewRow(req, h.hash(req.password.value, salt));
      if insertFails then Step(InternalError, s)
      else Step(Registered, s.(users := s.users + [row]))
  }

  /**
   * `POST /log-in`: the lookup (which may fail), then the ladder over its
   * first row: no row, a row without a password, a password that does not
   * compare, success.
   */
  function Login(s: State, username: string, password: string, h: Hasher, dbFails: bool): (r: Step)
    ensures r.state.users == s.users
    ensures r.response == LoginSuccessful ==> r.state.session == Some(username)
    ensures r.response != LoginSuccessful ==> r.state == s
    ensures r.response == LoginSuccessful || r.response == InvalidCredentials ||
            r.response == InvalidUserObject || r.response == InternalError
    ensures r.response.status == 401 ==> r.response == InvalidCredentials
    ensures dbFails ==> r.response == InternalError
    ensures !dbFails && NoRow(s.users, username) ==> r.response == InvalidCredentials
  {
    if dbFails then Step(InternalError, s)
    else
      var results := Select(s.users, username);
      if |results| == 0 then Step(InvalidCredentials, s)
      else
        var user := results[0];
        if user.password == "" then Step(InvalidUserObject, s)
        else if !h.compare(password, user.password) then Step(InvalidCredentials, s)
        else Step(LoginSuccessful, s.(session := Some(username)))
  }

  /** `GET /profile`: the session guard, then the session's username. */
  function Profile(s: State): (r: Response)
    ensures r == Unauthorized <==> s.session == None
    ensures s.session.Some? ==> r.status == 200 && r.body == ProfileBody(s.session.value)
  {
    if s.session.None? then Unauthorized
    else Response(200, ProfileBody(s.session.value))
  }

  /** `POST /logout`: destroy the session; a failing store keeps it. */
  function Logout(s: State, destroyFails: bool): (r: Step)
    ensures r.state.users == s.users
    ensures destroyFails ==> r.response == InternalError && r.state.session == s.session
    ensures !destroyFails ==> r.response == LogoutSuccessful && r.state.session == None
  {
    if destroyFails then Step(InternalError, s)
    else Step(LogoutSuccessful, s.(session := None))
  }

  /** One request to the routes above, with what its collaborators do. */
  datatype Request =
    | RegisterRequest(req: Signup, salt: Salt, hashFails: bool, insertFails: bool)
    | LoginRequest(username: string, password: string, dbFails: bool)
    | ProfileRequest
    | LogoutRequest(destroyFails: bool)

  /** The route table: each request goes to its handler. */
  function Serve(s: State, h: Hasher, q: Request): Step {
    match q
    case RegisterRequest(req, salt, hashFails, insertFails) => Register(s, req, h, salt, hashFails, insertFails)
    case LoginRequest(username, password, dbFails) => Login(s, username, password, h, dbFails)
    case ProfileRequest => Step(Profile(s), s)
    case LogoutRequest(destroyFails) => Logout(s, destroyFails)
  }

  /** The responses to a sequence of requests and the final state. */
  datatype Trace = Trace(responses: seq<Response>, state: State)

  function Run(s: State, h: Hasher, qs: seq<Request>): (t: Trace)
    ensures |t.responses| == |qs|
    decreases |qs|
  {
    if qs == [] then Trace([], s)
    else
      var first := Serve(s, h, qs[0]);
      var rest := Run(first.state, h, qs[1..]);
      Trace([first.response] + rest.responses, rest.state)
  }
}
