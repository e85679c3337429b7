/**
 * What the handlers promise across requests: when a log-in succeeds, that
 * the two kinds of bad credentials are indistinguishable, that a fresh
 * registration can log in, that the session only ever names a user of
 * the table, and the sign-up / log-in / profile / log-out lifecycle.
 */
module Properties {
  import opened Wrappers
  import opened Hashing
  import opened Users
  import opened Responses
  import opened Handlers

  /** A log-in succeeds exactly when the lookup works and the first row with
      that username has a password that the given one compares against. */
  lemma LoginSucceedsIff(s: State, username: string, password: string, h: Hasher, dbFails: bool)
    ensures Login(s, username, password, h, dbFails).response == LoginSuccessful <==>
              !dbFails &&
              exists k :: FirstRow(s.users, username, k) && s.users[k].password != "" &&
                          h.compare(password, s.users[k].password)
  {
    var r := Login(s, username, password, h, dbFails);
    if r.response == LoginSuccessful {
      FirstRowExists(s.users, username);
      var k :| FirstRow(s.users, username, k);
      SelectFirst(s.users, username, k);
    }
    if !dbFails && exists k :: FirstRow(s.users, username, k) && s.users[k].password != "" &&
                               h.compare(password, s.users[k].password) {
      var k :| FirstRow(s.users, username, k) && s.users[k].password != "" &&
               h.compare(password, s.users[k].password);
      SelectFirst(s.users, username, k);
    }
  }

  /** An unknown username and a wrong password for a known one get the same
      answer, and neither touches the state: the response is no oracle for
      whether an account exists. */
  lemma UnknownUserLikeWrongPassword(s1: State, u1: string, p1: string,
                                     s2: State, u2: string, p2: string, k: int, h: Hasher)
    requires NoRow(s1.users, u1)
    requires FirstRow(s2.users, u2, k) && s2.users[k].password != ""
    requires !h.compare(p2, s2.users[k].password)
    ensures Login(s1, u1, p1, h, false) == Step(InvalidCredentials, s1)
    ensures Login(s2, u2, p2, h, false) == Step(InvalidCredentials, s2)
    ensures Login(s1, u1, p1, h, false).response == Login(s2, u2, p2, h, false).response
  {
    SelectFirst(s2.users, u2, k);
  }

  /** A first matching row whose password column is empty is a server
      error, not a credentials error, and the session is not set. */
  lemma MissingStoredHash(s: State, username: string, password: string, k: int, h: Hasher)
    requires FirstRow(s.users, username, k) && s.users[k].password == ""
    ensures Login(s, username, password, h, false) == Step(InvalidUserObject, s)
  {
    SelectFirst(s.users, username, k);
  }

  /** Registering a new username and then logging in with the same password
      succeeds and puts exactly that username in the session. */
  lemma RegisterThenLogin(s: State, req: Signup, h: Hasher, salt: Salt)
    requires Sound(h) && Complete(req)
    requires NoRow(s.users, req.username.value)
    ensures var s' := Register(s, req, h, salt, false, false).state;
            Login(s', req.username.value, req.password.value, h, false) ==
              Step(LoginSuccessful, s'.(session := Some(req.username.value)))
  {
    var row := NewRow(req, h.hash(req.password.value, salt));
    SelectAppend(s.users, row, req.username.value);
  }

  /** The table keeps no uniqueness of usernames: a successful registration
      of a username that already has a row changes no log-in answer for it,
      since the log-in reads the first row. */
  lemma RegisterKeepsExistingAccount(s: State, req: Signup, h: Hasher, salt: Salt,
                                     password: string, dbFails: bool)
    requires Complete(req) && !NoRow(s.users, req.username.value)
    ensures var s' := Register(s, req, h, salt, false, false).state;
            Login(s', req.username.value, password, h, dbFails).response ==
              Login(s, req.username.value, password, h, dbFails).response
  {
    var name := req.username.value;
    var row := NewRow(req, h.hash(req.password.value, salt));
    SelectAppend(s.users, row, name);
    LoginReadsFirstRow(s, Register(s, req, h, salt, false, false).state, name, password, h, dbFails);
  }

  /** Two states with the same session and the same first row for a
      username give the same log-in answer for it. */
  lemma LoginReadsFirstRow(s1: State, s2: State, name: string, password: string, h: Hasher, dbFails: bool)
    requires s1.session == s2.session
    requires Select(s1.users, name) != [] && Select(s2.users, name) != []
    requires Select(s1.users, name)[0] == Select(s2.users, name)[0]
    ensures Login(s1, name, password, h, dbFails).response == Login(s2, name, password, h, dbFails).response
  {
  }

  /** The session, when set, names a username that has a row in the table. */
  predicate SessionBacked(s: State) {
    s.session.Some? ==> !NoRow(s.users, s.session.value)
  }

  /** Every handler keeps the session backed by the table and only ever
      appends to the table. */
  lemma ServeKeepsInvariant(s: State, h: Hasher, q: Request)
    requires SessionBacked(s)
    ensures SessionBacked(Serve(s, h, q).state)
    ensures s.users <= Serve(s, h, q).state.users
  {
  }

  /** The same over any sequence of requests. */
  lemma {:induction false} RunKeepsInvariant(s: State, h: Hasher, qs: seq<Request>)
    requires SessionBacked(s)
    ensures SessionBacked(Run(s, h, qs).state)
    ensures s.users <= Run(s, h, qs).state.users
    decreases |qs|
  {
    if qs != [] {
      var first := Serve(s, h, qs[0]);
      ServeKeepsInvariant(s, h, qs[0]);
      RunKeepsInvariant(first.state, h, qs[1..]);
    }
  }

  /** After a log-out the store did not refuse, the profile guard rejects. */
  lemma LogoutThenProfile(s: State, h: Hasher)
    ensures Run(s, h, [LogoutRequest(false), ProfileRequest]).responses == [LogoutSuccessful, Unauthorized]
  {
  }

  /** The whole lifecycle for one new user: sign up, a wrong password, the
      right password, the profile, log out, the profile again. */
  lemma Lifecycle(s: State, h: Hasher, salt: Salt)
    requires Sound(h) && NoRow(s.users, "alice")
    requires !h.compare("wrong", h.hash("secret1", salt))
    ensures var alice := Signup(Some("A"), Some("B"), Some("alice"), Some("a@x.com"), Some("secret1"));
            Run(s, h, [RegisterRequest(alice, salt, false, false),
                       LoginRequest("alice", "wrong", false),
                       LoginRequest("alice", "secret1", false),
                       ProfileRequest,
                       LogoutRequest(false),
                       ProfileRequest]).responses ==
              [Registered, InvalidCredentials, LoginSuccessful,
               Response(200, ProfileBody("alice")), LogoutSuccessful, Unauthorized]
  {
    var alice := Signup(Some("A"), Some("B"), Some("alice"), Some("a@x.com"), Some("secret1"));
    var q2 := [LoginRequest("alice", "wrong", false), LoginRequest("alice", "secret1", false),
               ProfileRequest, LogoutRequest(false), ProfileRequest];
    var s1 := Register(s, alice, h, salt, false, false).state;
    SelectAppend(s.users, NewRow(alice, h.hash("secret1", salt)), "alice");
    WrongThenRightPassword(s1, h, "alice", "wrong", "secret1", h.hash("secret1", salt));
    RunCons(s, h, RegisterRequest(alice, salt, false, false), q2);
    assert [RegisterRequest(alice, salt, false, false)] + q2 ==
             [RegisterRequest(alice, salt, false, false),
              LoginRequest("alice", "wrong", false),
              LoginRequest("alice", "secret1", false),
              ProfileRequest,
              LogoutRequest(false),
              ProfileRequest];
  }

  /** With the first row for `name` holding `stored`: a password that does
      not compare, one that does, the profile, a log-out, the profile again. */
  lemma WrongThenRightPassword(s: State, h: Hasher, name: string, wrong: string, right: string, stored: string)
    requires Select(s.users, name) != [] && Select(s.users, name)[0].password == stored
    requires stored != "" && !h.compare(wrong, stored) && h.compare(right, stored)
    ensures Run(s, h, [LoginRequest(name, wrong, false), LoginRequest(name, right, false),
                       ProfileRequest, LogoutRequest(false), ProfileRequest]).responses ==
              [InvalidCredentials, LoginSuccessful, Response(200, ProfileBody(name)), LogoutSuccessful, Unauthorized]
  {
    var q4 := [ProfileRequest, LogoutRequest(false), ProfileRequest];
    var q3 := [LoginRequest(name, right, false)] + q4;
    var s3 := Login(s, name, right, h, false).state;
    assert Serve(s, h, LoginRequest(name, wrong, false)) == Step(InvalidCredentials, s);
    assert Serve(s, h, LoginRequest(name, right, false)) == Step(LoginSuccessful, s3);
    SignedInThenLogout(s3, h, name);
    RunCons(s, h, LoginRequest(name, right, false), q4);
    RunCons(s, h, LoginRequest(name, wrong, false), q3);
  }

  /** With a session user: the profile, a log-out, the profile again. */
  lemma SignedInThenLogout(s: State, h: Hasher, name: string)
    requires s.session == Some(name)
    ensures Run(s, h, [ProfileRequest, LogoutRequest(false), ProfileRequest]).responses ==
              [Response(200, ProfileBody(name)), LogoutSuccessful, Unauthorized]
  {
    RunCons(s, h, ProfileRequest, [LogoutRequest(false), ProfileRequest]);
    RunCons(s, h, LogoutRequest(false), [ProfileRequest]);
  }

  /** Running a first request and then the rest. */
  lemma RunCons(s: State, h: Hasher, q: Request, qs: seq<Request>)
    ensures var first := Serve(s, h, q);
            Run(s, h, [q] + qs).responses == [first.response] + Run(first.state, h, qs).responses
  {
    assert ([q] + qs)[1..] == qs;
  }
}
