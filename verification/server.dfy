/**
 * The server as an object: the user table grows in place on sign-up and the
 * session slot is assigned on log-in and cleared on log-out. Each method
 * runs the handler's early-return ladder and is proved to produce the
 * response and the new state that the matching function of `Handlers`
 * specifies.
 *
 * `GET /profile-data` is not modelled: it has no session guard and
 * dereferences the session user unconditionally.
 */
module App {
  import opened Wrappers
  import opened Hashing
  import opened Users
  import opened Responses
  import Handlers

  class Server {
    var users: seq<User>
    var sessionUser: Option<string>

    /** The abstract state the handler functions work on. */
    ghost function Snapshot(): Handlers.State
      reads this
    {
      Handlers.State(users, sessionUser)
    }

    /** A server over an existing table, for a client with no session yet. */
    constructor (table: seq<User>)
      ensures users == table && sessionUser == None
    {
      users := table;
      sessionUser := None;
    }

    method Register(req: Handlers.Signup, h: Hasher, salt: Salt, hashFails: bool, insertFails: bool)
      returns (res: Response)
      modifies this
      ensures Handlers.Step(res, Snapshot()) ==
                Handlers.Register(old(Snapshot()), req, h, salt, hashFails, insertFails)
      ensures sessionUser == old(sessionUser)
      ensures res != Registered ==> users == old(users)
    {
      if !Handlers.Complete(req) {
        return IncompleteData;
      }
      if hashFails {
        return InternalError;
      }
      var hashedPassword := h.hash(req.password.value, salt);
      var row := User(req.firstname.value, req.lastname.value, req.username.value, req.email.value, hashedPassword);
      if insertFails {
        return InternalError;
      }
      users := users + [row];
      res := Registered;
    }

    method Login(username: string, password: string, h: Hasher, dbFails: bool)
      returns (res: Response)
      modifies this
      ensures Handlers.Step(res, Snapshot()) ==
                Handlers.Login(old(Snapshot()), username, password, h, dbFails)
      ensures users == old(users)
      ensures res != LoginSuccessful ==> sessionUser == old(sessionUser)
    {
      if dbFails {
        return InternalError;
      }
      var results := Select(users, username);
      if |results| == 0 {
        return InvalidCredentials;
      }
      var user := results[0];
      if user.password == "" {
        return InvalidUserObject;
      }
      var isPasswordValid := h.compare(password, user.password);
      if !isPasswordValid {
        return InvalidCredentials;
      }
      sessionUser := Some(username);
      res := LoginSuccessful;
    }

    method Profile() returns (res: Response)
      ensures res == Handlers.Profile(Snapshot())
      ensures res.status == 401 <==> sessionUser == None
    {
      if sessionUser == None {
        return Unauthorized;
      }
      res := Response(200, ProfileBody(sessionUser.value));
    }

    method Logout(destroyFails: bool) returns (res: Response)
      modifies this
      ensures Handlers.Step(res, Snapshot()) == Handlers.Logout(old(Snapshot()), destroyFails)
      ensures users == old(users)
    {
      if destroyFails {
        return InternalError;
      }
      sessionUser := None;
      res := LogoutSuccessful;
    }
  }

  /** A client of the class: sign up, log in, read the profile, log out. */
  method SessionLifecycle(h: Hasher, salt: Salt, table: seq<User>)
    requires Sound(h) && NoRow(table, "bob")
  {
    var server := new Server(table);
    var bob := Handlers.Signup(Some("B"), Some("C"), Some("bob"), Some("b@x.com"), Some("pw"));
    var r := server.Register(bob, h, salt, false, false);
    assert r == Registered;
    SelectAppend(table, Handlers.NewRow(bob, h.hash("pw", salt)), "bob");
    r := server.Login("bob", "pw", h, false);
    assert r == LoginSuccessful;
    r := server.Profile();
    assert r == Response(200, ProfileBody("bob"));
    r := server.Logout(false);
    r := server.Profile();
    assert r == Unauthorized;
  }
}
