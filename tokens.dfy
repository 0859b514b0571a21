/** Bearer tokens and password hashes. Signing, signature checking and
    password hashing belong to foreign libraries (PyJWT, werkzeug); they are
    parameters here, described only by what the services rely on. */
module Tokens {
  import opened Common

  /** The claims a login token carries (auth/auth_service.py:113-118). */
  datatype Claims = Claims(userId: int, username: string, role: string, exp: int)

  /** HS256 signing under the shared secret: `sign` plays `jwt.encode`,
      `verify` the signature check inside `jwt.decode`. */
  datatype TokenCodec = TokenCodec(sign: Claims -> string, verify: string -> Option<Claims>) {
    /** A token this codec signed verifies to the claims it was signed with. */
    ghost predicate RoundTrips() {
      forall c :: verify(sign(c)) == Some(c)
    }
    /** Signed tokens are in the JWS compact form, base64url segments joined
        by dots: never empty and free of spaces. */
    ghost predicate Compact() {
      forall c :: sign(c) != "" && ' ' !in sign(c)
    }
  }

  /** The lifetime of a login token: 24 hours, in seconds. */
  const TOKEN_LIFETIME: int := 24 * 60 * 60

  /** `jwt.decode(token, JWT_SECRET, algorithms=['HS256'])` at time `now`
      (seconds), with `None` for the InvalidTokenError family: a bad
      signature, or an `exp` claim that is not after `now`. */
  function Decode(codec: TokenCodec, token: string, now: int): (r: Option<Claims>)
    ensures r.Some? ==> codec.verify(token) == r && now < r.value.exp
    ensures r.None? ==> codec.verify(token).None? || codec.verify(token).value.exp <= now
  {
    match codec.verify(token)
    case None => None
    case Some(c) => if now < c.exp then Some(c) else None
  }

  /** The token `login` issues at time `now`. */
  function Issue(codec: TokenCodec, userId: int, username: string, role: string, now: int): (token: string)
    ensures codec.RoundTrips() ==> codec.verify(token) == Some(Claims(userId, username, role, now + TOKEN_LIFETIME))
    ensures codec.Compact() ==> token != "" && ' ' !in token
  {
    codec.sign(Claims(userId, username, role, now + TOKEN_LIFETIME))
  }

  /** An issued token decodes to its claims for exactly 24 hours. */
  lemma IssuedTokenLifetime(codec: TokenCodec, userId: int, username: string, role: string, issuedAt: int, now: int)
    requires codec.RoundTrips()
    ensures Decode(codec, Issue(codec, userId, username, role, issuedAt), now)
         == if now < issuedAt + TOKEN_LIFETIME
            then Some(Claims(userId, username, role, issuedAt + TOKEN_LIFETIME))
            else None
  {
  }

  /** werkzeug's `generate_password_hash` and `check_password_hash`. */
  datatype Hasher = Hasher(hash: string -> string, check: (string, string) -> bool) {
    /** A hash checks against the password it was made from. */
    ghost predicate Accepts() {
      forall p :: check(hash(p), p)
    }
  }

  const BEARER: string := "Bearer "

  /** A space-free string contains no "Bearer ". */
  lemma SpaceFreeHasNoBearer(t: string)
    requires ' ' !in t
    ensures !Occurs(BEARER, t)
  {
    forall i | 0 <= i
      ensures !OccursAt(BEARER, t, i)
    {
      if i + |BEARER| <= |t| {
        assert t[i..i + |BEARER|][6] == t[i + 6] != ' ';
      }
    }
  }

  /** The outcome of the Authorization gate the book and auth services repeat
      in every protected handler. */
  datatype Gate = Denied(status: int, message: string) | Admitted(claims: Claims)

  const MISSING_HEADER: string := "Missing or invalid Authorization header"
  const INVALID_TOKEN: string := "Invalid or expired token"
  const ADMIN_REQUIRED: string := "Admin role required"

  /** The gate: the header must be present and start with "Bearer ", then
      the header with every "Bearer " removed must decode. Both failures are
      422, not 401. */
  function Authenticate(header: Option<string>, codec: TokenCodec, now: int): (g: Gate)
    ensures g.Denied? ==> g.status == 422
    ensures header.None? || !StartsWith(header.value, BEARER) ==> g == Denied(422, MISSING_HEADER)
    ensures header.Some? && StartsWith(header.value, BEARER) ==>
      match Decode(codec, RemoveAll(header.value, BEARER), now)
      case None => g == Denied(422, INVALID_TOKEN)
      case Some(c) => g == Admitted(c)
  {
    if header.None? || !StartsWith(header.value, BEARER) then Denied(422, MISSING_HEADER)
    else
      match Decode(codec, RemoveAll(header.value, BEARER), now)
      case None => Denied(422, INVALID_TOKEN)
      case Some(c) => Admitted(c)
  }

  /** The gate followed by `user_data.get('role') != 'admin'` (403). */
  function AuthenticateAdmin(header: Option<string>, codec: TokenCodec, now: int): (g: Gate)
    ensures Authenticate(header, codec, now).Denied? ==> g == Authenticate(header, codec, now)
    ensures Authenticate(header, codec, now).Admitted? ==>
      g == if Authenticate(header, codec, now).claims.role == "admin"
           then Authenticate(header, codec, now)
           else Denied(403, ADMIN_REQUIRED)
    ensures g.Admitted? ==> g.claims.role == "admin"
  {
    var g := Authenticate(header, codec, now);
    if g.Admitted? && g.claims.role != "admin" then Denied(403, ADMIN_REQUIRED) else g
  }

  /** A freshly issued token, sent as "Bearer <token>", passes the gate with
      its own claims for 24 hours. */
  lemma IssuedTokenPassesGate(codec: TokenCodec, userId: int, username: string, role: string, issuedAt: int, now: int)
    requires codec.RoundTrips() && codec.Compact()
    requires now < issuedAt + TOKEN_LIFETIME
    ensures Authenticate(Some(BEARER + Issue(codec, userId, username, role, issuedAt)), codec, now)
         == Admitted(Claims(userId, username, role, issuedAt + TOKEN_LIFETIME))
  {
    var c := Claims(userId, username, role, issuedAt + TOKEN_LIFETIME);
    var t := Issue(codec, userId, username, role, issuedAt);
    assert ' ' !in codec.sign(c);
    assert (BEARER + t)[..|BEARER|] == BEARER;
    RemoveAllPrefix(BEARER, t);
    SpaceFreeHasNoBearer(t);
    RemoveAllAbsent(t, BEARER);
    IssuedTokenLifetime(codec, userId, username, role, issuedAt, now);
  }

  /** A bare token without the "Bearer " prefix is refused with 422. */
  lemma BareTokenRefused(token: string, codec: TokenCodec, now: int)
    requires ' ' !in token
    ensures Authenticate(Some(token), codec, now) == Denied(422, MISSING_HEADER)
  {
    if |BEARER| <= |token| {
      assert token[..|BEARER|][6] == token[6] != ' ';
    }
  }
}
