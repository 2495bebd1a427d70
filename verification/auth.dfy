/** Registration and login over a user store held as a sequence in natural
    order. Salting, hashing, password comparison and token signing are
    oracles; a token is modelled by the user id its payload carries. */
module Auth {
  import opened Common

  datatype User = User(id: nat, username: string, email: string, password: string, lastLogin: Option<int>)

  /** The reply: a token for the user with that id, or status 400 with a message. */
  datatype AuthReply = Token(userId: nat) | Rejected(message: string)

  datatype AuthResult = AuthResult(reply: AuthReply, users: seq<User>)

  /** `findOne(filter)`: the first user in store order matching the filter. */
  function FindFirst(users: seq<User>, p: User -> bool): (k: Option<nat>)
    ensures k.Some? ==> k.value < |users| && p(users[k.value])
    ensures k.Some? ==> forall i :: 0 <= i < k.value ==> !p(users[i])
    ensures k.None? ==> forall i :: 0 <= i < |users| ==> !p(users[i])
  {
    if |users| == 0 then None
    else if p(users[0]) then Some(0)
    else match FindFirst(users[1..], p)
      case None => None
      case Some(k) => Some(k + 1)
  }

  /** Registered emails and usernames are each pairwise distinct. */
  predicate Unique(users: seq<User>) {
    forall i, j :: 0 <= i < j < |users| ==> users[i].email != users[j].email && users[i].username != users[j].username
  }

  const EmailTaken := "Email already registered"
  const UsernameTaken := "Username already taken"
  const InvalidCredentials := "Invalid credentials"

  /** `register`: reject when a user has the email or the username, naming the
      email when the user found has it; otherwise store the user with the
      hashed password and hand out a token. `salt` is `genSalt(10)`'s result
      and `newId` the id the store assigns. */
  function Register(
    users: seq<User>, username: string, email: string, password: string,
    salt: string, hash: (string, string) -> string, newId: nat): (r: AuthResult)
    ensures r.reply.Rejected? <==> exists i :: 0 <= i < |users| && (users[i].email == email || users[i].username == username)
    ensures r.reply.Rejected? ==> r.users == users
    ensures r.reply.Rejected? ==>
      var k := FindFirst(users, (u: User) => u.email == email || u.username == username).value;
      (r.reply.message == EmailTaken <==> users[k].email == email)
      && (r.reply.message == EmailTaken || r.reply.message == UsernameTaken)
    ensures r.reply.Token? ==>
      r.reply.userId == newId && r.users == users + [User(newId, username, email, hash(password, salt), None)]
  {
    match FindFirst(users, (u: User) => u.email == email || u.username == username)
    case Some(k) =>
      AuthResult(Rejected(if users[k].email == email then EmailTaken else UsernameTaken), users)
    case None =>
      AuthResult(Token(newId), users + [User(newId, username, email, hash(password, salt), None)])
  }

  /** A registration keeps emails and usernames unique. */
  lemma RegisterKeepsUnique(
    users: seq<User>, username: string, email: string, password: string,
    salt: string, hash: (string, string) -> string, newId: nat)
    requires Unique(users)
    ensures Unique(Register(users, username, email, password, salt, hash, newId).users)
  {
    var r := Register(users, username, email, password, salt, hash, newId);
    if r.reply.Token? {
      assert forall i :: 0 <= i < |users| ==> users[i].email != email && users[i].username != username;
    }
  }

  /** The message names whichever field the first user found shares: with
      the username held by an earlier user and the email by a later one, the
      reply says the username is taken. */
  lemma MessageFollowsStoreOrder()
    ensures var users := [User(1, "ann", "a@x", "h1", None), User(2, "bob", "b@x", "h2", None)];
      Register(users, "ann", "b@x", "pw", "s", (p: string, s: string) => p, 3).reply == Rejected(UsernameTaken)
  {
    var users := [User(1, "ann", "a@x", "h1", None), User(2, "bob", "b@x", "h2", None)];
    assert FindFirst(users, (u: User) => u.email == "b@x" || u.username == "ann") == Some(0);
    assert users[0].email != "b@x" by { assert users[0].email[0] == 'a'; }
  }

  /** One registration request. */
  datatype Registration = Registration(username: string, email: string, password: string, salt: string, newId: nat)

  /** Requests handled one after another. */
  function RegisterAll(users: seq<User>, reqs: seq<Registration>, hash: (string, string) -> string): seq<User>
    decreases |reqs|
  {
    if |reqs| == 0 then users
    else
      var q := reqs[0];
      RegisterAll(Register(users, q.username, q.email, q.password, q.salt, hash, q.newId).users, reqs[1..], hash)
  }

  /** Under sequential requests the store never holds two users with the same
      email or the same username. */
  lemma {:induction false} SequentialRegistrationsStayUnique(users: seq<User>, reqs: seq<Registration>, hash: (string, string) -> string)
    requires Unique(users)
    ensures Unique(RegisterAll(users, reqs, hash))
    decreases |reqs|
  {
    if |reqs| > 0 {
      var q := reqs[0];
      RegisterKeepsUnique(users, q.username, q.email, q.password, q.salt, hash, q.newId);
      SequentialRegistrationsStayUnique(Register(users, q.username, q.email, q.password, q.salt, hash, q.newId).users, reqs[1..], hash);
    }
  }

  /** `login`: the first user with the email, if the password matches its
      stored hash, gets `lastLogin` set to `now` and a token with its id;
      an unknown email and a wrong password get the same 400 reply. */
  function Login(users: seq<User>, email: string, password: string, compare: (string, string) -> bool, now: int): (r: AuthResult)
    ensures r.reply.Rejected? ==> r.reply.message == InvalidCredentials && r.users == users
    ensures (forall i :: 0 <= i < |users| ==> users[i].email != email) ==> r.reply.Rejected?
    ensures forall k :: 0 <= k < |users| && users[k].email == email && (forall i :: 0 <= i < k ==> users[i].email != email) ==>
      && (r.reply.Rejected? <==> !compare(password, users[k].password))
      && (r.reply.Token? ==> r.reply.userId == users[k].id && r.users == users[k := users[k].(lastLogin := Some(now))])
  {
    match FindFirst(users, (u: User) => u.email == email)
    case None => AuthResult(Rejected(InvalidCredentials), users)
    case Some(k) =>
      if !compare(password, users[k].password) then AuthResult(Rejected(InvalidCredentials), users)
      else AuthResult(Token(users[k].id), users[k := users[k].(lastLogin := Some(now))])
  }

  /** A login changes no registration: ids, usernames, emails and hashes stay,
      and so does every other user's `lastLogin`. */
  lemma LoginOnlyTouchesLastLogin(users: seq<User>, email: string, password: string, compare: (string, string) -> bool, now: int)
    ensures var r := Login(users, email, password, compare, now);
      && |r.users| == |users|
      && (forall i :: 0 <= i < |users| ==> r.users[i] == users[i].(lastLogin := r.users[i].lastLogin))
      && (forall i, j :: 0 <= i < |users| && 0 <= j < |users| && r.users[i] != users[i] && r.users[j] != users[j] ==> i == j)
  {
  }
}
