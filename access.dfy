/** The access-control middleware: authenticateToken turns the Authorization header
    into an identity (or a 401), requireAdmin lets only the admin role through (or a
    403). Token verification and the user lookup are parameters. */
module Access {
  import opened Common

  /** The claims of a token. A token without a role claim is represented by role "",
      which the middleware treats like JavaScript treats a falsy value. */
  datatype Claims = Claims(userId: string, role: string)

  /** jsonwebtoken with the server's secret and expiry folded in: sign issues a token,
      verify gives None for a token that is malformed, wrongly signed or expired. */
  datatype Jwt = Jwt(sign: Claims -> string, verify: string -> Option<Claims>)

  /** The round-trip axiom of the signature scheme: what the server signs verifies to
      the claims it signed. A signed token is three base64url segments joined by dots,
      so it is non-empty and holds no space. */
  ghost predicate Sound(jwt: Jwt) {
    forall c :: jwt.verify(jwt.sign(c)) == Some(c) && jwt.sign(c) != "" && ' ' !in jwt.sign(c)
  }

  /** What the user lookup by id gives: the stored account, no user, or an error
      (a user id that is not an ObjectId makes the lookup throw). */
  datatype Account = Account(email: string, role: string)
  datatype Lookup = Found(account: Account) | Missing | LookupFailed

  /** The identity attached to an admitted request. */
  datatype Identity = Identity(id: string, email: string, role: string)

  /** Either the request goes on to the next handler with an identity, or the
      middleware answers it with a status and a message. */
  datatype Verdict = Proceed(user: Identity) | Deny(status: nat, message: string)

  /** The token is the second space-separated word of the header; the first word
      (the scheme) is not looked at. No header, no second word, or an empty second
      word gives no token. */
  function BearerToken(header: Option<string>): (t: Option<string>)
    ensures header.None? ==> t.None?
    ensures t.Some? ==> t.value != "" && ' ' !in t.value
  {
    if header.None? then None
    else
      var words := Split(header.value, ' ');
      if |words| < 2 || words[1] == "" then None else Some(words[1])
  }

  /** authenticateToken. */
  function Authenticate(header: Option<string>, jwt: Jwt, findById: string -> Lookup): (v: Verdict)
    ensures v.Deny? ==> v.status == 401
  {
    match BearerToken(header)
    case None => Deny(401, "Access token is required")
    case Some(token) =>
      match jwt.verify(token)
      case None => Deny(401, "Invalid or expired token")
      case Some(claims) =>
        match findById(claims.userId)
        case LookupFailed => Deny(401, "Invalid or expired token")
        case Missing => Deny(401, "Invalid token")
        case Found(account) =>
          Proceed(Identity(claims.userId, account.email, if claims.role != "" then claims.role else account.role))
  }

  /** requireAdmin: anything but an identity with role "admin" gets 403. */
  function RequireAdmin(user: Option<Identity>): (v: Verdict)
    ensures v.Proceed? <==> user.Some? && user.value.role == "admin"
    ensures v.Proceed? ==> v.user == user.value
    ensures v.Deny? ==> v == Deny(403, "Admin access required")
  {
    if user.None? || user.value.role != "admin" then Deny(403, "Admin access required")
    else Proceed(user.value)
  }

  /** The middleware chain of a route: authenticateToken, then requireAdmin on the
      admin-only routes. requireAdmin only runs when authentication called next. */
  function Chain(auth: Verdict, adminOnly: bool): (v: Verdict)
    ensures v.Proceed? <==> auth.Proceed? && (!adminOnly || auth.user.role == "admin")
    ensures v.Proceed? ==> v == auth
    ensures auth.Deny? ==> v == auth
    ensures auth.Proceed? && adminOnly && auth.user.role != "admin" ==> v == Deny(403, "Admin access required")
  {
    if auth.Deny? || !adminOnly then auth else RequireAdmin(Some(auth.user))
  }

  // ---------------------------------------------------------------------------
  // Properties

  /** A header without a space ("Bearer" alone, or a bare token) carries no token. */
  lemma OneWordHeaderIsRefused(header: string, jwt: Jwt, findById: string -> Lookup)
    requires ' ' !in header
    ensures Authenticate(Some(header), jwt, findById) == Deny(401, "Access token is required")
  {
  }

  /** The token is whatever follows the first space, whatever the scheme word is. */
  lemma BearerWordIsToken(scheme: string, token: string)
    requires ' ' !in scheme && ' ' !in token && token != ""
    ensures BearerToken(Some(scheme + " " + token)) == Some(token)
  {
    var parts := [scheme, token];
    assert Join(parts[1..], [' ']) == token;
    assert Join(parts, [' ']) == scheme + " " + token;
    SplitJoin(parts, ' ');
  }

  /** For a header of two or more space-free words, the token is the second word,
      and there is none when that word is empty ("Bearer " or "Bearer  x"). */
  lemma BearerTokenIsSecondWord(words: seq<string>)
    requires |words| >= 2 && forall k :: 0 <= k < |words| ==> ' ' !in words[k]
    ensures BearerToken(Some(Join(words, " "))) == if words[1] == "" then None else Some(words[1])
  {
    SplitJoin(words, ' ');
  }

  /** Which refusal is given when: "Access token is required" exactly when the header
      carries no token, "Invalid or expired token" exactly when the token fails
      verification or the user lookup throws, and "Invalid token" exactly when the
      token verifies but its user no longer exists. */
  lemma RefusalReasons(header: Option<string>, jwt: Jwt, findById: string -> Lookup)
    ensures Authenticate(header, jwt, findById) == Deny(401, "Access token is required")
      <==> BearerToken(header).None?
    ensures Authenticate(header, jwt, findById) == Deny(401, "Invalid or expired token")
      <==> BearerToken(header).Some?
           && (jwt.verify(BearerToken(header).value).None?
               || findById(jwt.verify(BearerToken(header).value).value.userId) == LookupFailed)
    ensures Authenticate(header, jwt, findById) == Deny(401, "Invalid token")
      <==> BearerToken(header).Some?
           && jwt.verify(BearerToken(header).value).Some?
           && findById(jwt.verify(BearerToken(header).value).value.userId) == Missing
  {
    assert "Access token is required"[0] != "Invalid or expired token"[0];
    assert |"Invalid token"| != |"Access token is required"| && |"Invalid token"| != |"Invalid or expired token"|;
  }

  /** next is reached exactly when there is a token, it verifies, and its user exists;
      the identity then takes the token's role when it has one, else the stored role. */
  lemma ProceedsExactlyWhenVerified(header: Option<string>, jwt: Jwt, findById: string -> Lookup)
    ensures Authenticate(header, jwt, findById).Proceed? <==>
      && BearerToken(header).Some?
      && jwt.verify(BearerToken(header).value).Some?
      && findById(jwt.verify(BearerToken(header).value).value.userId).Found?
    ensures Authenticate(header, jwt, findById).Proceed? ==>
      var claims := jwt.verify(BearerToken(header).value).value;
      var account := findById(claims.userId).account;
      Authenticate(header, jwt, findById).user ==
        Identity(claims.userId, account.email, if claims.role != "" then claims.role else account.role)
  {
  }

  /** Round trip: a request carrying a token the server signed, under any scheme word,
      is admitted as the token's user as long as that user still exists. */
  lemma SignedTokenIsAdmitted(jwt: Jwt, claims: Claims, scheme: string, findById: string -> Lookup)
    requires Sound(jwt) && ' ' !in scheme && findById(claims.userId).Found?
    ensures Authenticate(Some(scheme + " " + jwt.sign(claims)), jwt, findById) ==
      var account := findById(claims.userId).account;
      Proceed(Identity(claims.userId, account.email, if claims.role != "" then claims.role else account.role))
  {
    BearerWordIsToken(scheme, jwt.sign(claims));
  }

  /** A signed token whose user has been removed is refused with "Invalid token". */
  lemma RemovedUserIsRefused(jwt: Jwt, claims: Claims, scheme: string, findById: string -> Lookup)
    requires Sound(jwt) && ' ' !in scheme && findById(claims.userId) == Missing
    ensures Authenticate(Some(scheme + " " + jwt.sign(claims)), jwt, findById) == Deny(401, "Invalid token")
  {
    BearerWordIsToken(scheme, jwt.sign(claims));
  }
}
