/** The authentication service: registration into a user store keyed by email,
    login against it, and token issue and verification. Password hashing and the
    token scheme are parameters with stated axioms; so are the exceptions the
    database may raise. */
module AuthService {
  import opened Common
  import Access

  /** A stored user; the password is kept only as its hash. */
  datatype User = User(id: string, email: string, passwordHash: string, name: string, role: string)

  /** The user as the service returns it: every field but the password. */
  datatype PublicUser = PublicUser(id: string, email: string, name: string, role: string)

  datatype AuthResult = AuthResult(success: bool, user: Option<PublicUser>, token: Option<string>, message: Option<string>)

  datatype RegisterData = RegisterData(email: string, password: string, name: string, role: Option<string>)

  datatype LoginData = LoginData(email: string, password: string)

  /** bcrypt as the user model uses it: hash when saving, compare when logging in. */
  datatype Hasher = Hasher(hash: string -> string, compare: (string, string) -> bool)

  /** The part of a password bcrypt reads: its first 72 characters. */
  function Significant(p: string): (s: string)
    ensures |s| <= 72 && s <= p
    ensures |p| <= 72 ==> s == p
  {
    if |p| <= 72 then p else p[..72]
  }

  /** A hash never equals its password, and a password matches a hash exactly when
      it agrees with the hashed password on the characters bcrypt reads. */
  ghost predicate SoundHasher(h: Hasher) {
    && (forall p :: h.hash(p) != p)
    && (forall p, q :: h.compare(p, h.hash(q)) <==> Significant(p) == Significant(q))
  }

  /** Where the database throws, if it does: the lookup by email, the save of a new
      user (the user schema's own validators and its unique index included), or the
      password comparison. */
  datatype Fault = NoFault | LookupThrows | SaveThrows | CompareThrows

  function Public(u: User): (p: PublicUser)
    ensures p.id == u.id && p.email == u.email && p.name == u.name && p.role == u.role
  {
    PublicUser(u.id, u.email, u.name, u.role)
  }

  function Failed(message: string): (r: AuthResult)
    ensures !r.success && r.user.None? && r.token.None? && r.message == Some(message)
  {
    AuthResult(false, None, None, Some(message))
  }

  /** The user schema's role: "user" or "admin", defaulting to "user". */
  predicate RoleAccepted(role: Option<string>) {
    role.None? || role.value == "user" || role.value == "admin"
  }

  function RoleOf(role: Option<string>): (r: string)
    requires RoleAccepted(role)
    ensures r == "user" || r == "admin"
    ensures role.None? ==> r == "user"
    ensures role.Some? ==> r == role.value
  {
    if role.None? then "user" else role.value
  }

  lemma OwnHashMatches(h: Hasher, p: string)
    ensures SoundHasher(h) ==> h.hash(p) != p && h.compare(p, h.hash(p))
  {
    if SoundHasher(h) {
      assert Significant(p) == Significant(p);
    }
  }

  /** The user registration creates: the role defaulted to "user", and the password
      replaced by a hash that the password itself matches. */
  function NewUser(data: RegisterData, id: string, hasher: Hasher): (u: User)
    requires RoleAccepted(data.role)
    ensures u.role == "user" || u.role == "admin"
    ensures data.role.None? ==> u.role == "user"
    ensures SoundHasher(hasher) ==> u.passwordHash != data.password && hasher.compare(data.password, u.passwordHash)
  {
    OwnHashMatches(hasher, data.password);
    User(id, data.email, hasher.hash(data.password), data.name, RoleOf(data.role))
  }

  /** generateToken: a token whose claims are the user id and role. */
  function GenerateToken(jwt: Access.Jwt, userId: string, role: string): (t: string)
    ensures Access.Sound(jwt) ==> jwt.verify(t) == Some(Access.Claims(userId, role))
  {
    jwt.sign(Access.Claims(userId, role))
  }

  /** verifyToken: the decoded claims, or the error "Invalid token". */
  function VerifyToken(jwt: Access.Jwt, token: string): (r: Result<Access.Claims, string>)
    ensures r.Ok? <==> jwt.verify(token).Some?
    ensures r.Ok? ==> Some(r.value) == jwt.verify(token)
    ensures r.Err? ==> r.error == "Invalid token"
  {
    match jwt.verify(token)
    case Some(claims) => Ok(claims)
    case None => Err("Invalid token")
  }

  /** The successful answer for a user: the public view and a fresh token. */
  function Succeeded(u: User, jwt: Access.Jwt): (r: AuthResult)
    ensures r.success && r.message.None? && r.user == Some(Public(u)) && r.token.Some?
    ensures Access.Sound(jwt) ==> jwt.verify(r.token.value) == Some(Access.Claims(u.id, u.role))
  {
    AuthResult(true, Some(Public(u)), Some(GenerateToken(jwt, u.id, u.role)), None)
  }

  /** login: an unknown email and a wrong password give the same answer. */
  function Login(users: map<string, User>, creds: LoginData, jwt: Access.Jwt, hasher: Hasher, fault: Fault): (r: AuthResult)
    ensures r.success <==>
      fault != LookupThrows && creds.email in users
      && hasher.compare(creds.password, users[creds.email].passwordHash) && fault != CompareThrows
    ensures !r.success ==> r.user.None? && r.token.None?
    ensures !r.success ==> r.message == Some(if fault == LookupThrows || (creds.email in users && fault == CompareThrows) then "Login failed" else "Invalid credentials")
    ensures r.success ==> r == Succeeded(users[creds.email], jwt)
  {
    if fault == LookupThrows then Failed("Login failed")
    else if creds.email !in users then Failed("Invalid credentials")
    else if fault == CompareThrows then Failed("Login failed")
    else if !hasher.compare(creds.password, users[creds.email].passwordHash) then Failed("Invalid credentials")
    else Succeeded(users[creds.email], jwt)
  }

  class UserStore {
    /** The users, keyed by email. */
    var users: map<string, User>

    /** Each user sits under its own email with an accepted role, and ids are unique. */
    ghost predicate Valid()
      reads this
    {
      && (forall e :: e in users ==> users[e].email == e && (users[e].role == "user" || users[e].role == "admin"))
      && (forall e1, e2 :: e1 in users && e2 in users && e1 != e2 ==> users[e1].id != users[e2].id)
    }

    constructor ()
      ensures Valid() && users == map[]
    {
      users := map[];
    }

    /** register: a taken email is refused, otherwise exactly one user is added, with
        the password hashed and the role defaulted. newId is the id the database
        assigns. */
    method Register(data: RegisterData, jwt: Access.Jwt, hasher: Hasher, newId: string, fault: Fault) returns (r: AuthResult)
      requires Valid()
      requires forall e :: e in users ==> users[e].id != newId
      modifies this
      ensures Valid()
      ensures fault == LookupThrows ==> r == Failed("Registration failed")
      ensures fault != LookupThrows && data.email in old(users) ==> r == Failed("User with this email already exists")
      ensures fault != LookupThrows && data.email !in old(users) && (!RoleAccepted(data.role) || fault == SaveThrows)
              ==> r == Failed("Registration failed")
      ensures r.success <==> fault != LookupThrows && fault != SaveThrows && data.email !in old(users) && RoleAccepted(data.role)
      ensures !r.success ==> users == old(users) && r.user.None? && r.token.None?
      ensures r.success ==>
        && RoleAccepted(data.role)
        && users == old(users)[data.email := NewUser(data, newId, hasher)]
        && r == Succeeded(NewUser(data, newId, hasher), jwt)
      ensures r.success && SoundHasher(hasher) ==> users[data.email].passwordHash != data.password
    {
      if fault == LookupThrows {
        return Failed("Registration failed");
      }
      if data.email in users {
        return Failed("User with this email already exists");
      }
      if !RoleAccepted(data.role) || fault == SaveThrows {
        return Failed("Registration failed");
      }
      var user := NewUser(data, newId, hasher);
      users := users[data.email := user];
      r := Succeeded(user, jwt);
    }
  }

  // ---------------------------------------------------------------------------
  // Properties

  /** The two login refusals are indistinguishable: an unknown email and a wrong
      password for a known one give the same result. */
  lemma LoginRefusalsIdentical(users: map<string, User>, unknown: string, known: string, password: string,
                               jwt: Access.Jwt, hasher: Hasher)
    requires unknown !in users && known in users && !hasher.compare(password, users[known].passwordHash)
    ensures Login(users, LoginData(unknown, password), jwt, hasher, NoFault)
         == Login(users, LoginData(known, password), jwt, hasher, NoFault)
         == Failed("Invalid credentials")
  {
  }

  /** A stored user logging in with the password it registered gets its public view
      and a token carrying its id and role. Another password is admitted exactly when
      it agrees with the registered one on the first 72 characters, so up to that
      length only the registered password is; every other one is refused as invalid
      credentials. */
  lemma LoginWithRegisteredPassword(users: map<string, User>, email: string, password: string, other: string,
                                    jwt: Access.Jwt, hasher: Hasher)
    requires SoundHasher(hasher) && Access.Sound(jwt)
    requires email in users && users[email].passwordHash == hasher.hash(password)
    ensures var r := Login(users, LoginData(email, password), jwt, hasher, NoFault);
      r.success && r.user == Some(Public(users[email]))
      && VerifyToken(jwt, r.token.value) == Ok(Access.Claims(users[email].id, users[email].role))
    ensures Login(users, LoginData(email, other), jwt, hasher, NoFault).success
      <==> Significant(other) == Significant(password)
    ensures |other| <= 72 && |password| <= 72 ==>
      (Login(users, LoginData(email, other), jwt, hasher, NoFault).success <==> other == password)
    ensures Significant(other) != Significant(password) ==>
      Login(users, LoginData(email, other), jwt, hasher, NoFault) == Failed("Invalid credentials")
  {
    assert hasher.compare(password, hasher.hash(password));
    assert hasher.compare(other, hasher.hash(password)) <==> Significant(other) == Significant(password);
  }

  /** The public view carries nothing of the password: users that differ only in
      their hash look the same, and users that look the same differ at most in it. */
  lemma PublicHidesPassword(u: User, v: User)
    ensures Public(u.(passwordHash := v.passwordHash)) == Public(u)
    ensures Public(u) == Public(v) <==> u.(passwordHash := v.passwordHash) == v
  {
  }

  /** verifyToken reads back the claims generateToken wrote. */
  lemma VerifyGeneratedToken(jwt: Access.Jwt, userId: string, role: string)
    requires Access.Sound(jwt)
    ensures VerifyToken(jwt, GenerateToken(jwt, userId, role)) == Ok(Access.Claims(userId, role))
  {
  }

  /** A token from a successful login is admitted by authenticateToken as the stored
      user, with the user's role, as long as the account still exists. */
  lemma LoginTokenIsAdmitted(users: map<string, User>, creds: LoginData, jwt: Access.Jwt, hasher: Hasher,
                             scheme: string, findById: string -> Access.Lookup)
    requires Access.Sound(jwt) && ' ' !in scheme
    requires Login(users, creds, jwt, hasher, NoFault).success
    requires var u := users[creds.email]; u.role != "" && findById(u.id).Found?
    ensures var r := Login(users, creds, jwt, hasher, NoFault);
      var u := users[creds.email];
      Access.Authenticate(Some(scheme + " " + r.token.value), jwt, findById)
        == Access.Proceed(Access.Identity(u.id, findById(u.id).account.email, u.role))
  {
    var u := users[creds.email];
    Access.SignedTokenIsAdmitted(jwt, Access.Claims(u.id, u.role), scheme, findById);
  }

  /** Register then login with the same credentials succeeds, as the new user. */
  method RegisterThenLogin(store: UserStore, data: RegisterData, jwt: Access.Jwt, hasher: Hasher, newId: string)
    returns (registered: AuthResult, loggedIn: AuthResult)
    requires store.Valid() && SoundHasher(hasher) && Access.Sound(jwt)
    requires forall e :: e in store.users ==> store.users[e].id != newId
    requires data.email !in store.users && RoleAccepted(data.role)
    modifies store
    ensures registered.success && loggedIn.success
    ensures loggedIn.user == registered.user && loggedIn.token.Some?
    ensures VerifyToken(jwt, loggedIn.token.value) == Ok(Access.Claims(newId, RoleOf(data.role)))
  {
    registered := store.Register(data, jwt, hasher, newId, NoFault);
    LoginWithRegisteredPassword(store.users, data.email, data.password, data.password, jwt, hasher);
    loggedIn := Login(store.users, LoginData(data.email, data.password), jwt, hasher, NoFault);
  }

  /** Registering the same email twice: the second attempt is refused and changes
      nothing. */
  method RegisterTwice(store: UserStore, data: RegisterData, jwt: Access.Jwt, hasher: Hasher, id1: string, id2: string)
    returns (first: AuthResult, second: AuthResult)
    requires store.Valid() && data.email !in store.users && RoleAccepted(data.role) && id1 != id2
    requires forall e :: e in store.users ==> store.users[e].id != id1 && store.users[e].id != id2
    modifies store
    ensures first.success
    ensures second == Failed("User with this email already exists")
    ensures store.users == old(store.users)[data.email := NewUser(data, id1, hasher)]
  {
    first := store.Register(data, jwt, hasher, id1, NoFault);
    second := store.Register(data, jwt, hasher, id2, NoFault);
  }
}
