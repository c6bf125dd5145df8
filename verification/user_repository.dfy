/**
 * The `users` table (UserDao) and the login and registration rules
 * (UserRepository). The table has no unique index on `username`; names
 * stay unique only because `Register` refuses a taken one.
 */
module UserRepository {
  import opened Wrappers
  import opened Entities
  import opened KeySets

  type UserTable = map<int, UserRecord>

  /** Failure message of `login`, for an unknown name and for a wrong password alike. */
  const WrongCredentials := "用户名或密码错误"
  /** Failure message of `register` for a taken name. */
  const UsernameTaken := "用户名已存在"

  /** The ids of the users called `name`. */
  function KeysNamed(users: UserTable, name: string): (ks: set<int>)
    ensures forall k :: k in ks <==> k in users && users[k].username == name
  {
    set k | k in users && users[k].username == name
  }

  /**
   * `getUserByUsername`: `SELECT * FROM users WHERE username = :username`
   * yields the first matching row, the one with the smallest id.
   */
  function UserByUsername(users: UserTable, name: string): (r: Option<UserRecord>)
    ensures r.None? <==> forall k :: k in users ==> users[k].username != name
    ensures r.Some? ==> r.value in users.Values && r.value.username == name
  {
    var ks := KeysNamed(users, name);
    if ks == {} then None
    else
      LeastExists(ks);
      var k :| IsLeast(ks, k);
      Some(users[k])
  }

  /** No two users share a name. */
  ghost predicate UniqueUsernames(users: UserTable) {
    forall a, b :: a in users && b in users && users[a].username == users[b].username ==> a == b
  }

  /** Once no user is called `u.username`, storing `u` keeps names unique and makes the lookup find `u`. */
  lemma {:induction false} LookupAfterInsert(users: UserTable, k: int, u: UserRecord)
    requires UniqueUsernames(users) && k !in users
    requires UserByUsername(users, u.username).None?
    ensures UniqueUsernames(users[k := u])
    ensures UserByUsername(users[k := u], u.username) == Some(u)
  {
    var users' := users[k := u];
    forall j | j in users'
      ensures users'[j].username == u.username ==> users'[j] == u
    {
      if j != k {
        assert users'[j] == users[j];
      }
    }
  }

  /** The stored `users` table and its id counter. */
  class UserRepository {
    var users: UserTable
    var nextId: int

    ghost predicate Valid()
      reads this
    {
      nextId >= 1 && UniqueUsernames(users) &&
      forall k :: k in users ==> 0 < k < nextId && users[k].id == k
    }

    constructor ()
      ensures Valid() && users == map[]
    {
      users := map[];
      nextId := 1;
    }

    /**
     * `login`: succeeds with the stored user exactly when a user with that
     * name exists and its stored password equals `password`; otherwise
     * one message covers both an unknown name and a wrong password.
     */
    function Login(username: string, password: string): (r: Result<UserRecord, string>)
      reads this
      requires Valid()
      ensures r.Success? <==> exists k :: k in users && users[k].username == username && users[k].password == password
      ensures r.Success? ==> r.value in users.Values && r.value.username == username && r.value.password == password
      ensures r.Failure? ==> r.error == WrongCredentials
    {
      var found := UserByUsername(users, username);
      if found.Some? && found.value.password == password then Success(found.value)
      else Failure(WrongCredentials)
    }

    /** `getUserById`: the user with that id, or null. */
    function GetUserById(id: int): (r: Option<UserRecord>)
      reads this
      requires Valid()
      ensures r.Some? <==> id in users
      ensures r.Some? ==> r.value == users[id] && r.value.id == id
    {
      if id in users then Some(users[id]) else None
    }

    /**
     * `register`: a taken name fails and stores nothing; a fresh name stores
     * one user with that name and password and returns its new id, after
     * which logging in with the same pair yields that user.
     */
    method Register(username: string, password: string, now: int) returns (r: Result<int, string>)
      requires Valid()
      modifies this
      ensures Valid()
      ensures old(UserByUsername(users, username)).Some? ==>
                r == Failure(UsernameTaken) && users == old(users) && nextId == old(nextId)
      ensures old(UserByUsername(users, username)).None? ==>
                r.Success? && r.value == old(nextId) && r.value !in old(users) &&
                nextId == old(nextId) + 1 &&
                users == old(users)[r.value := UserRecord(r.value, username, password, now)]
      ensures r.Success? ==> Login(username, password) == Success(users[r.value])
    {
      var existing := UserByUsername(users, username);
      if existing.Some? {
        r := Failure(UsernameTaken);
      } else {
        var id := nextId;
        var u := UserRecord(id, username, password, now);
        LookupAfterInsert(users, id, u);
        users := users[id := u];
        nextId := nextId + 1;
        r := Success(id);
      }
    }
  }
}
