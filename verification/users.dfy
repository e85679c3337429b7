/**
 * The `users` table: its rows, and the lookup `SELECT * FROM users WHERE
 * username = ?` that the log-in handler issues.
 */
module Users {
  /** One row: firstname, lastname, username, email and the stored password
      hash. A NULL or empty password column is the empty string. */
  datatype User = User(firstname: string, lastname: string, username: string, email: string, password: string)

  /** No row of `users` has username `name`. */
  predicate NoRow(users: seq<User>, name: string) {
    forall k :: 0 <= k < |users| ==> users[k].username != name
  }

  /** Row `k` is the first row of `users` with username `name`. */
  predicate FirstRow(users: seq<User>, name: string, k: int) {
    0 <= k < |users| && users[k].username == name && NoRow(users[..k], name)
  }

  /** The rows whose username is exactly `name`, in table order. */
  function Select(users: seq<User>, name: string): (rows: seq<User>)
    ensures |rows| <= |users|
    ensures forall r :: r in rows ==> r.username == name
    ensures forall k :: 0 <= k < |users| && users[k].username == name ==> users[k] in rows
    ensures rows == [] <==> NoRow(users, name)
  {
    if users == [] then []
    else if users[0].username == name then [users[0]] + Select(users[1..], name)
    else Select(users[1..], name)
  }

  /** The lookup returns rows of the table and nothing else. */
  lemma {:induction false} SelectFromTable(users: seq<User>, name: string)
    ensures forall r :: r in Select(users, name) ==> r in users
  {
    if users != [] {
      SelectFromTable(users[1..], name);
    }
  }

  /** The row the handler reads as `results[0]` is the first matching row of the table. */
  lemma {:induction false} SelectFirst(users: seq<User>, name: string, k: int)
    requires FirstRow(users, name, k)
    ensures Select(users, name) != [] && Select(users, name)[0] == users[k]
  {
    if k > 0 {
      assert users[0] == users[..k][0];
      assert users[1..][..k - 1] == users[1..k];
      assert forall j :: 0 <= j < k - 1 ==> users[1..k][j] == users[..k][j + 1];
      SelectFirst(users[1..], name, k - 1);
    }
  }

  /** When some row has username `name`, a first such row exists. */
  lemma {:induction false} FirstRowExists(users: seq<User>, name: string)
    requires !NoRow(users, name)
    ensures exists k :: FirstRow(users, name, k)
  {
    if users[0].username == name {
      assert FirstRow(users, name, 0);
    } else {
      assert !NoRow(users[1..], name) by {
        var k :| 0 <= k < |users| && users[k].username == name;
        assert users[1..][k - 1] == users[k];
      }
      FirstRowExists(users[1..], name);
      var j :| FirstRow(users[1..], name, j);
      assert users[..j + 1] == [users[0]] + users[1..][..j];
      assert FirstRow(users, name, j + 1);
    }
  }

  /** Appending a row adds it to the end of every lookup of its username and to no other. */
  lemma {:induction false} SelectAppend(users: seq<User>, row: User, name: string)
    ensures Select(users + [row], name) == Select(users, name) + (if row.username == name then [row] else [])
  {
    if users == [] {
      assert users + [row] == [row];
    } else {
      assert (users + [row])[1..] == users[1..] + [row];
      SelectAppend(users[1..], row, name);
    }
  }
}
