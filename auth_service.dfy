/** The auth service: the `users` table, signup and login, the admin user
    endpoints and the start-up seeding of the `admin` account. */
module AuthService {
  import opened Common
  import opened Tokens

  /** A decoded request body whose fields are strings; `None` is a `null` body. */
  type AuthBody = Option<map<string, string>>

  /** A row of the `users` table. */
  datatype User = User(username: string, passwordHash: string, role: string)

  /** `User.set_password`: the row with the hash of `password` in place of
      its old hash; a hash checks against the password it was made from. */
  function SetPassword(u: User, hasher: Hasher, password: string): (v: User)
    ensures v.username == u.username && v.role == u.role
    ensures hasher.Accepts() ==> CheckPassword(v, hasher, password)
  {
    u.(passwordHash := hasher.hash(password))
  }

  /** `User.check_password`. */
  predicate CheckPassword(u: User, hasher: Hasher, password: string): (ok: bool)
    ensures hasher.Accepts() && u.passwordHash == hasher.hash(password) ==> ok
  {
    hasher.check(u.passwordHash, password)
  }

  /** The row a signup, an admin create or the seeding inserts. */
  function NewUser(username: string, password: string, role: string, hasher: Hasher): (u: User)
    ensures u.username == username && u.role == role
    ensures hasher.Accepts() ==> CheckPassword(u, hasher, password)
  {
    SetPassword(User(username, "", role), hasher, password)
  }

  /** The collation the database compares `users.username` under, given by
      its sort key: two names are equal exactly when their keys are. MySQL's
      default utf8mb4 collation ignores case and accents, so "alice" and
      "ALICE" share a key; an exact comparison is the identity key. */
  type Collation = string -> string

  /** Two usernames the collation counts as equal. */
  predicate SameName(collation: Collation, a: string, b: string) {
    collation(a) == collation(b)
  }

  /** The `unique=True` index on `users.username`, under the collation. */
  ghost predicate UniqueUsernames(users: map<int, User>, collation: Collation) {
    forall i, j :: i in users && j in users && SameName(collation, users[i].username, users[j].username) ==> i == j
  }

  /** `User.query.filter_by(username=name).first()` finds a row. */
  predicate UsernameTaken(users: map<int, User>, name: string, collation: Collation): (taken: bool)
    ensures forall id :: id in users && users[id].username == name ==> taken
    ensures users == map[] ==> !taken
  {
    exists id :: id in users && SameName(collation, users[id].username, name)
  }

  /** Adding a row under a fresh id and a free username keeps usernames unique. */
  lemma InsertKeepsUnique(users: map<int, User>, id: int, u: User, collation: Collation)
    requires UniqueUsernames(users, collation) && id !in users && !UsernameTaken(users, u.username, collation)
    ensures UniqueUsernames(users[id := u], collation)
  {
  }

  /** The id of the one row whose username matches `name`, if there is one. */
  function FindUser(users: map<int, User>, name: string, collation: Collation): (r: Option<int>)
    requires UniqueUsernames(users, collation)
    ensures r.Some? <==> UsernameTaken(users, name, collation)
    ensures r.Some? ==> r.value in users && SameName(collation, users[r.value].username, name)
  {
    if UsernameTaken(users, name, collation) then
      var id :| id in users && SameName(collation, users[id].username, name);
      Some(id)
    else None
  }

  const ROLES: set<string> := {"user", "admin"}
  const BAD_CREDENTIALS: string := "Invalid username or password"

  datatype UserView = UserView(username: string, role: string)

  datatype Body =
    | Error(message: string)
    | Message(message: string)
    | LoggedIn(token: string, userId: int, role: string)
    | UserList(users: map<int, UserView>)
    | UserCreated(message: string, userId: int)

  datatype Response = Response(status: int, body: Body)

  /** The response of a gate that refused. */
  function Refusal(g: Gate): Response
    requires g.Denied?
  {
    Response(g.status, Error(g.message))
  }

  /** Row `id` matches the username given and checks against the password. */
  ghost predicate Credentials(users: map<int, User>, collation: Collation, hasher: Hasher, name: string, password: string, id: int) {
    id in users && SameName(collation, users[id].username, name) && CheckPassword(users[id], hasher, password)
  }

  /** `POST /login`: 422 when a credential is missing; a token carrying the
      row's id, stored username and role that expires 24 hours from `now`
      exactly when the username matches a row and the password checks;
      otherwise one 401 that does not say which of the two was wrong. */
  function Login(users: map<int, User>, collation: Collation, body: AuthBody, codec: TokenCodec, hasher: Hasher, now: int): (r: Response)
    requires UniqueUsernames(users, collation)
    ensures body.None? || "username" !in body.value || "password" !in body.value ==>
              r == Response(422, Error("Missing credentials"))
    ensures body.Some? && "username" in body.value && "password" in body.value ==>
              var name := body.value["username"];
              var password := body.value["password"];
              && (r.status == 200 <==> exists id :: Credentials(users, collation, hasher, name, password, id))
              && (forall id :: Credentials(users, collation, hasher, name, password, id) ==>
                    r == Response(200, LoggedIn(Issue(codec, id, users[id].username, users[id].role, now), id, users[id].role)))
              && (r.status != 200 ==> r == Response(401, Error(BAD_CREDENTIALS)))
  {
    if body.None? || "username" !in body.value || "password" !in body.value then
      Response(422, Error("Missing credentials"))
    else
      var name := body.value["username"];
      match FindUser(users, name, collation)
      case Some(id) =>
        var u := users[id];
        if CheckPassword(u, hasher, body.value["password"]) then
          assert Credentials(users, collation, hasher, name, body.value["password"], id);
          Response(200, LoggedIn(Issue(codec, id, u.username, u.role, now), id, u.role))
        else Response(401, Error(BAD_CREDENTIALS))
      case None => Response(401, Error(BAD_CREDENTIALS))
  }

  /** A token from a successful login passes the Authorization gate of every
      service for 24 hours, with the row's id, username and role. */
  lemma LoginTokenPassesGate(users: map<int, User>, collation: Collation, body: AuthBody, codec: TokenCodec, hasher: Hasher,
                             issuedAt: int, now: int)
    requires UniqueUsernames(users, collation) && codec.RoundTrips() && codec.Compact()
    requires Login(users, collation, body, codec, hasher, issuedAt).status == 200
    requires now < issuedAt + TOKEN_LIFETIME
    ensures var b := Login(users, collation, body, codec, hasher, issuedAt).body;
            && b.LoggedIn? && b.userId in users
            && Authenticate(Some(BEARER + b.token), codec, now)
               == Admitted(Claims(b.userId, users[b.userId].username, b.role, issuedAt + TOKEN_LIFETIME))
  {
    var id := FindUser(users, body.value["username"], collation).value;
    IssuedTokenPassesGate(codec, id, users[id].username, users[id].role, issuedAt, now);
  }

  /** `GET /users` (admin): every row as id, username and role; the password
      hash is never part of the answer. */
  function GetAllUsers(users: map<int, User>, header: Option<string>, codec: TokenCodec, now: int): (r: Response)
    ensures AuthenticateAdmin(header, codec, now).Denied? ==> r == Refusal(AuthenticateAdmin(header, codec, now))
    ensures Authenticate(header, codec, now).Admitted? && Authenticate(header, codec, now).claims.role != "admin" ==>
              r == Response(403, Error(ADMIN_REQUIRED))
    ensures AuthenticateAdmin(header, codec, now).Admitted? ==>
              && r.status == 200 && r.body.UserList?
              && r.body.users.Keys == users.Keys
              && forall id :: id in r.body.users ==> r.body.users[id] == UserView(users[id].username, users[id].role)
  {
    var g := AuthenticateAdmin(header, codec, now);
    if g.Denied? then Refusal(g)
    else Response(200, UserList(map id | id in users :: UserView(users[id].username, users[id].role)))
  }

  /** What one attempt of `create_sample_admin` meets: a working database,
      an OperationalError about a refused connection, another
      OperationalError, or any other exception. */
  datatype Attempt = Reachable | ConnectionRefused | OtherOperationalError | OtherFailure

  /** How `create_sample_admin` ends. */
  datatype Seeding = AdminExisted | AdminCreated | ErrorRaised | Abandoned | GaveUp

  /** The retries `create_sample_admin` makes: `max_retries` attempts, or none
      when it is not positive. */
  function AttemptBudget(maxRetries: int): nat {
    if maxRetries < 0 then 0 else maxRetries
  }

  /** The `users` table, its auto-increment counter and the collation of its
      username column. */
  class UserDb {
    var users: map<int, User>
    var nextId: int
    const collation: Collation

    /** User ids are positive and below the counter; usernames are unique. */
    ghost predicate Valid()
      reads this
    {
      && 1 <= nextId
      && (forall k :: k in users ==> 1 <= k < nextId)
      && UniqueUsernames(users, collation)
    }

    constructor (users: map<int, User>, nextId: int, collation: Collation)
      requires 1 <= nextId && (forall k :: k in users ==> 1 <= k < nextId) && UniqueUsernames(users, collation)
      ensures Valid() && this.users == users && this.nextId == nextId && this.collation == collation
    {
      this.users := users;
      this.nextId := nextId;
      this.collation := collation;
    }

    /** Inserts one row under the next id. */
    method Insert(u: User)
      requires Valid() && !UsernameTaken(users, u.username, collation)
      modifies this
      ensures Valid()
      ensures users == old(users)[old(nextId) := u] && old(nextId) !in old(users)
      ensures nextId == old(nextId) + 1
    {
      InsertKeepsUnique(users, nextId, u, collation);
      users := users[nextId := u];
      nextId := nextId + 1;
    }

    /** `create_sample_admin(max_retries, base_delay)`: attempt k (from 1)
        meets `connect(k)`. A refused connection sleeps `base_delay * k` and
        tries again; a working database inserts `admin` / `adminpass` with
        role `admin` unless a user `admin` exists; any other failure ends the
        loop. `delays` are the sleeps, in order. */
    method CreateSampleAdmin(maxRetries: int, baseDelay: int, connect: int -> Attempt, hasher: Hasher)
      returns (outcome: Seeding, delays: seq<int>)
      requires Valid()
      modifies this
      ensures Valid()
      ensures |delays| <= AttemptBudget(maxRetries)
      ensures forall k :: 1 <= k <= |delays| ==> connect(k) == ConnectionRefused
      ensures forall i :: 0 <= i < |delays| ==> delays[i] == baseDelay * (i + 1)
      ensures outcome == GaveUp ==> |delays| == AttemptBudget(maxRetries)
      ensures outcome != GaveUp ==>
                && |delays| < AttemptBudget(maxRetries)
                && outcome == match connect(|delays| + 1)
                              case Reachable => if UsernameTaken(old(users), "admin", collation) then AdminExisted else AdminCreated
                              case ConnectionRefused => GaveUp
                              case OtherOperationalError => ErrorRaised
                              case OtherFailure => Abandoned
      ensures outcome == AdminCreated ==>
                && users == old(users)[old(nextId) := NewUser("admin", "adminpass", "admin", hasher)]
                && nextId == old(nextId) + 1
      ensures outcome != AdminCreated ==> unchanged(this)
    {
      delays := [];
      var attempt := 1;
      while attempt <= maxRetries
        invariant 1 <= attempt && |delays| == attempt - 1 <= AttemptBudget(maxRetries)
        invariant forall k :: 1 <= k <= |delays| ==> connect(k) == ConnectionRefused
        invariant forall i :: 0 <= i < |delays| ==> delays[i] == baseDelay * (i + 1)
        invariant unchanged(this)
        decreases maxRetries - attempt
      {
        match connect(attempt)
        case Reachable =>
          if UsernameTaken(users, "admin", collation) {
            return AdminExisted, delays;
          }
          Insert(NewUser("admin", "adminpass", "admin", hasher));
          return AdminCreated, delays;
        case ConnectionRefused =>
          delays := delays + [baseDelay * attempt];
          attempt := attempt + 1;
        case OtherOperationalError =>
          return ErrorRaised, delays;
        case OtherFailure =>
          return Abandoned, delays;
      }
      outcome := GaveUp;
    }

    /** `POST /signup`: fields first (422), then a taken username (400), then
        the role (422); so a taken username with a bad role reports 400. */
    method Signup(body: AuthBody, hasher: Hasher) returns (r: Response)
      requires Valid()
      modifies this
      ensures Valid()
      ensures
        if body.None? || "username" !in body.value || "password" !in body.value || "role" !in body.value then
          r == Response(422, Error("Missing required fields")) && unchanged(this)
        else if UsernameTaken(old(users), body.value["username"], collation) then
          r == Response(400, Error("User  already exists")) && unchanged(this)
        else if body.value["role"] !in ROLES then
          r == Response(422, Error("Role must be user or admin")) && unchanged(this)
        else
          && r == Response(201, Message("User  created successfully"))
          && users == old(users)[old(nextId) := NewUser(body.value["username"], body.value["password"], body.value["role"], hasher)]
          && old(nextId) !in old(users)
          && nextId == old(nextId) + 1
    {
      if body.None? || "username" !in body.value || "password" !in body.value || "role" !in body.value {
        return Response(422, Error("Missing required fields"));
      }
      var data := body.value;
      if UsernameTaken(users, data["username"], collation) {
        return Response(400, Error("User  already exists"));
      }
      if data["role"] !in ROLES {
        return Response(422, Error("Role must be user or admin"));
      }
      Insert(NewUser(data["username"], data["password"], data["role"], hasher));
      r := Response(201, Message("User  created successfully"));
    }

    /** `POST /users` (admin): the gate and the role, then fields (422), a
        taken username (409), the role (422) and a password shorter than 6
        characters (422); only then one new row. */
    method CreateUser(header: Option<string>, body: AuthBody, codec: TokenCodec, hasher: Hasher, now: int) returns (r: Response)
      requires Valid()
      modifies this
      ensures Valid()
      ensures
        var g := AuthenticateAdmin(header, codec, now);
        if g.Denied? then
          r == Refusal(g) && unchanged(this)
        else if body.None? || "username" !in body.value || "password" !in body.value || "role" !in body.value then
          r == Response(422, Error("Missing username, password, or role")) && unchanged(this)
        else if UsernameTaken(old(users), body.value["username"], collation) then
          r == Response(409, Error("Username already exists")) && unchanged(this)
        else if body.value["role"] !in ROLES then
          r == Response(422, Error("Role must be user or admin")) && unchanged(this)
        else if |body.value["password"]| < 6 then
          r == Response(422, Error("Password must be at least 6 characters")) && unchanged(this)
        else
          && r == Response(201, UserCreated("User  created successfully", old(nextId)))
          && users == old(users)[old(nextId) := NewUser(body.value["username"], body.value["password"], body.value["role"], hasher)]
          && old(nextId) !in old(users)
          && nextId == old(nextId) + 1
    {
      var g := AuthenticateAdmin(header, codec, now);
      if g.Denied? {
        return Refusal(g);
      }
      if body.None? || "username" !in body.value || "password" !in body.value || "role" !in body.value {
        return Response(422, Error("Missing username, password, or role"));
      }
      var data := body.value;
      if UsernameTaken(users, data["username"], collation) {
        return Response(409, Error("Username already exists"));
      }
      if data["role"] !in ROLES {
        return Response(422, Error("Role must be user or admin"));
      }
      if |data["password"]| < 6 {
        return Response(422, Error("Password must be at least 6 characters"));
      }
      var id := nextId;
      Insert(NewUser(data["username"], data["password"], data["role"], hasher));
      r := Response(201, UserCreated("User  created successfully", id));
    }

    /** `DELETE /users/<id>` (admin): an admin's own id is refused (403)
        before existence is checked (404); otherwise exactly that row goes. */
    method DeleteUser(header: Option<string>, userId: int, codec: TokenCodec, now: int) returns (r: Response)
      requires Valid()
      modifies this
      ensures Valid()
      ensures
        var g := AuthenticateAdmin(header, codec, now);
        if g.Denied? then
          r == Refusal(g) && unchanged(this)
        else if g.claims.userId == userId then
          r == Response(403, Error("Cannot delete your own account")) && unchanged(this)
        else if userId !in old(users) then
          r == Response(404, Error("User  not found")) && unchanged(this)
        else
          && r == Response(200, Message("User  deleted successfully"))
          && users == old(users) - {userId}
          && nextId == old(nextId)
    {
      var g := AuthenticateAdmin(header, codec, now);
      if g.Denied? {
        return Refusal(g);
      }
      if g.claims.userId == userId {
        return Response(403, Error("Cannot delete your own account"));
      }
      if userId !in users {
        return Response(404, Error("User  not found"));
      }
      users := users - {userId};
      r := Response(200, Message("User  deleted successfully"));
    }
  }

  /** After a signup or an admin create adds a row under a fresh id with a
      free username, logging in with that username and password yields a
      token for the new row. */
  lemma SignupThenLogin(users: map<int, User>, collation: Collation, id: int, username: string, password: string, role: string,
                        codec: TokenCodec, hasher: Hasher, now: int)
    requires UniqueUsernames(users, collation) && id !in users && !UsernameTaken(users, username, collation)
    requires hasher.Accepts()
    ensures UniqueUsernames(users[id := NewUser(username, password, role, hasher)], collation)
    ensures Login(users[id := NewUser(username, password, role, hasher)], collation,
                  Some(map["username" := username, "password" := password]), codec, hasher, now)
         == Response(200, LoggedIn(Issue(codec, id, username, role, now), id, role))
  {
    var u := NewUser(username, password, role, hasher);
    InsertKeepsUnique(users, id, u, collation);
    var users' := users[id := u];
    assert Credentials(users', collation, hasher, username, password, id);
  }

  /** Under a case-insensitive collation a user signed up as "alice" logs in
      as "ALICE", and the token carries the stored name "alice". */
  lemma LoginIgnoresCase(users: map<int, User>, collation: Collation, id: int, password: string,
                         codec: TokenCodec, hasher: Hasher, now: int)
    requires UniqueUsernames(users, collation) && hasher.Accepts()
    requires id in users && users[id] == NewUser("alice", password, "user", hasher)
    requires collation("ALICE") == collation("alice")
    ensures Login(users, collation, Some(map["username" := "ALICE", "password" := password]), codec, hasher, now)
         == Response(200, LoggedIn(Issue(codec, id, "alice", "user", now), id, "user"))
  {
    assert Credentials(users, collation, hasher, "ALICE", password, id);
  }

  /** Login compares the username only through the collation: two names
      with the same comparison key get the same answer, token included. */
  lemma LoginUpToCollation(users: map<int, User>, collation: Collation, a: string, b: string, password: string,
                           codec: TokenCodec, hasher: Hasher, now: int)
    requires UniqueUsernames(users, collation) && SameName(collation, a, b)
    ensures Login(users, collation, Some(map["username" := a, "password" := password]), codec, hasher, now)
         == Login(users, collation, Some(map["username" := b, "password" := password]), codec, hasher, now)
  {
    var ra := Login(users, collation, Some(map["username" := a, "password" := password]), codec, hasher, now);
    var rb := Login(users, collation, Some(map["username" := b, "password" := password]), codec, hasher, now);
    assert forall id :: Credentials(users, collation, hasher, a, password, id) <==> Credentials(users, collation, hasher, b, password, id);
    if exists id :: Credentials(users, collation, hasher, a, password, id) {
      var id :| Credentials(users, collation, hasher, a, password, id);
      assert ra == Response(200, LoggedIn(Issue(codec, id, users[id].username, users[id].role, now), id, users[id].role));
    }
  }

  /** Once a username's row is deleted, that username logs in nowhere: the
      answer is the same 401 as for a wrong password. */
  lemma DeletedUserCannotLogIn(users: map<int, User>, collation: Collation, id: int, password: string,
                               codec: TokenCodec, hasher: Hasher, now: int)
    requires UniqueUsernames(users, collation) && id in users
    ensures UniqueUsernames(users - {id}, collation)
    ensures Login(users - {id}, collation, Some(map["username" := users[id].username, "password" := password]), codec, hasher, now)
         == Response(401, Error(BAD_CREDENTIALS))
  {
  }
}
