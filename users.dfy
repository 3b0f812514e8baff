/** The user table of the mock database and the lookups the login and
    registration handlers run over it (App.jsx:26-55, App.jsx:623-626). */
module Users {
  import opened Records

  /** The two seeded users: the administrator and a member, with distinct names
      and ids 1 and 2. */
  function SeedUsers(): (r: seq<User>)
    ensures |r| == 2 && DistinctNames(r) && SequentialIds(r)
    ensures r[0].username == "admin" && r[0].role == Admin && r[1].role == Member
  {
    [ User(1, "admin", "admin123", Admin),
      User(2, "researcher", "pass123", Member) ]
  }

  /** The credential test of `handleLogin`: both fields equal, case-sensitively. */
  predicate Matches(u: User, username: string, password: string): (r: bool)
    ensures r ==> u.username == username && u.password == password
    ensures !r ==> u.username != username || u.password != password
  {
    u.username == username && u.password == password
  }

  /** `users.find(...)` for login, as the index of the FIRST matching user. */
  function FirstMatch(users: seq<User>, username: string, password: string): (r: Option<nat>)
    ensures r.Some? ==> r.value < |users| && Matches(users[r.value], username, password)
    ensures r.Some? ==> forall j :: 0 <= j < r.value ==> !Matches(users[j], username, password)
    ensures r.None? ==> forall j :: 0 <= j < |users| ==> !Matches(users[j], username, password)
    decreases |users|
  {
    if users == [] then None
    else if Matches(users[0], username, password) then Some(0)
    else
      match FirstMatch(users[1..], username, password)
      case None => None
      case Some(i) => Some(i + 1)
  }

  /** `users.some(u => u.username === username)` of `handleRegister`. */
  predicate NameTaken(users: seq<User>, username: string): (r: bool)
    ensures r <==> username in (set u | u in users :: u.username)
  {
    exists i :: 0 <= i < |users| && users[i].username == username
  }

  /** The record `handleRegister` appends: the next id, the given credentials, role 'user'. */
  function NewUser(users: seq<User>, username: string, password: string): (u: User)
    ensures u.id == |users| + 1 && u.role == Member
    ensures Matches(u, username, password)
  {
    User(|users| + 1, username, password, Member)
  }

  /** No two users share a user name. */
  ghost predicate DistinctNames(users: seq<User>)
  {
    forall i, j :: 0 <= i < j < |users| ==> users[i].username != users[j].username
  }

  /** Every user's id is its position plus one (users are only ever appended). */
  ghost predicate SequentialIds(users: seq<User>)
  {
    forall i :: 0 <= i < |users| ==> users[i].id == i + 1
  }

  /** A name nobody has taken cannot sign in, whatever the password. */
  lemma FreeNameHasNoLogin(users: seq<User>, username: string, password: string)
    requires !NameTaken(users, username)
    ensures FirstMatch(users, username, password).None?
  {
  }

  /** With distinct names, a successful login identifies exactly one user. */
  lemma MatchUnique(users: seq<User>, username: string, password: string, i: nat)
    requires DistinctNames(users)
    requires i < |users| && Matches(users[i], username, password)
    ensures FirstMatch(users, username, password) == Some(i)
  {
    var r := FirstMatch(users, username, password);
    assert r.Some?;
  }

  /** Appending a user under an untaken name keeps the table well-formed. */
  lemma RegisterKeepsTable(users: seq<User>, username: string, password: string)
    requires DistinctNames(users) && SequentialIds(users)
    requires !NameTaken(users, username)
    ensures DistinctNames(users + [NewUser(users, username, password)])
    ensures SequentialIds(users + [NewUser(users, username, password)])
  {
    var users' := users + [NewUser(users, username, password)];
    forall i, j | 0 <= i < j < |users'|
      ensures users'[i].username != users'[j].username
    {
      if j == |users| {
        assert users'[i] == users[i];
      }
    }
  }
}
