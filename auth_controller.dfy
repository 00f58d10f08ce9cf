/** The authentication routes: the register and login rule sets and the mapping of
    validation and service results to status codes. express-validator's isEmail is
    a parameter. A body field the client leaves out is read as "". */
module AuthController {
  import opened Common
  import opened AuthService
  import Access

  datatype RegisterBody = RegisterBody(email: string, password: string, name: string, role: Option<string>)

  datatype LoginBody = LoginBody(email: string, password: string)

  /** The JSON body of a reply: the validation errors, the service's own result, or
      the generic internal error. */
  datatype ReplyBody = ValidationFailed(errors: seq<string>) | ServiceResult(result: AuthResult) | InternalError

  datatype AuthReply = AuthReply(status: nat, body: ReplyBody)

  /** What the service call came to: a result, or an exception escaping it. */
  datatype ServiceCall = Returned(result: AuthResult) | Raised

  /** registerValidation, in rule order. */
  function RegisterErrors(b: RegisterBody, isEmail: string -> bool): (errors: seq<string>)
    ensures errors == [] <==> isEmail(b.email) && |b.password| >= 6 && b.name != ""
    ensures |errors| <= 3
  {
    (if isEmail(b.email) then [] else ["Please provide a valid email"])
    + (if |b.password| >= 6 then [] else ["Password must be at least 6 characters"])
    + (if b.name != "" then [] else ["Name is required"])
  }

  /** loginValidation, in rule order. */
  function LoginErrors(b: LoginBody, isEmail: string -> bool): (errors: seq<string>)
    ensures errors == [] <==> isEmail(b.email) && b.password != ""
  {
    (if isEmail(b.email) then [] else ["Please provide a valid email"])
    + (if b.password != "" then [] else ["Password is required"])
  }

  /** A failure message that mentions an existing account. */
  predicate SaysAlreadyExists(message: Option<string>) {
    message.Some? && Contains(message.value, "already exists")
  }

  /** The register route's answer: 400 with the errors, else the service result with
      201 on success, 409 when the failure says the account already exists, 400 for
      any other failure; 500 when an exception escapes. */
  function RegisterReply(errors: seq<string>, call: ServiceCall): (r: AuthReply)
    ensures errors != [] ==> r == AuthReply(400, ValidationFailed(errors))
    ensures r.status == 201 <==> errors == [] && call.Returned? && call.result.success
    ensures r.status == 409 <==> errors == [] && call.Returned? && !call.result.success && SaysAlreadyExists(call.result.message)
    ensures r.status == 500 <==> errors == [] && call.Raised?
    ensures r.status == 500 ==> r.body == InternalError
    ensures errors == [] && call.Returned? ==> r.body == ServiceResult(call.result)
  {
    if errors != [] then AuthReply(400, ValidationFailed(errors))
    else match call
      case Raised => AuthReply(500, InternalError)
      case Returned(result) =>
        if result.success then AuthReply(201, ServiceResult(result))
        else if SaysAlreadyExists(result.message) then AuthReply(409, ServiceResult(result))
        else AuthReply(400, ServiceResult(result))
  }

  /** The login route's answer: 400 with the errors, else 200 or 401 with the service
      result; 500 when an exception escapes. */
  function LoginReply(errors: seq<string>, call: ServiceCall): (r: AuthReply)
    ensures errors != [] ==> r == AuthReply(400, ValidationFailed(errors))
    ensures r.status == 200 <==> errors == [] && call.Returned? && call.result.success
    ensures r.status == 401 <==> errors == [] && call.Returned? && !call.result.success
    ensures r.status == 500 <==> errors == [] && call.Raised?
    ensures errors == [] && call.Returned? ==> r.body == ServiceResult(call.result)
  {
    if errors != [] then AuthReply(400, ValidationFailed(errors))
    else match call
      case Raised => AuthReply(500, InternalError)
      case Returned(result) => AuthReply(if result.success then 200 else 401, ServiceResult(result))
  }

  /** POST /register: the service is called only with a valid body, and with the
      body's role as given. A valid body answers 201 exactly when the service adds
      the user, 409 for a taken email, and 400 with "Registration failed" for every
      other failure. */
  method PostRegister(store: UserStore, b: RegisterBody, isEmail: string -> bool, jwt: Access.Jwt, hasher: Hasher,
                      newId: string, fault: Fault) returns (r: AuthReply)
    requires store.Valid()
    requires forall e :: e in store.users ==> store.users[e].id != newId
    modifies store
    ensures store.Valid()
    ensures RegisterErrors(b, isEmail) != [] ==> r == AuthReply(400, ValidationFailed(RegisterErrors(b, isEmail))) && store.users == old(store.users)
    ensures RegisterErrors(b, isEmail) == [] ==> r.body.ServiceResult?
    ensures r.status == 409 <==> RegisterErrors(b, isEmail) == [] && fault != LookupThrows && b.email in old(store.users)
    ensures r.status == 201 || r.status == 400 || r.status == 409
    ensures RegisterErrors(b, isEmail) == [] ==>
      (r.status == 201 <==> fault != LookupThrows && fault != SaveThrows && b.email !in old(store.users) && RoleAccepted(b.role))
    ensures RegisterErrors(b, isEmail) == [] && r.status == 201 ==>
      r.body == ServiceResult(Succeeded(NewUser(RegisterData(b.email, b.password, b.name, b.role), newId, hasher), jwt))
    ensures RegisterErrors(b, isEmail) == [] && r.status == 400 ==> r.body == ServiceResult(Failed("Registration failed"))
    ensures r.status == 201 ==> RoleAccepted(b.role) && store.users == old(store.users)[b.email := NewUser(RegisterData(b.email, b.password, b.name, b.role), newId, hasher)]
    ensures r.status != 201 ==> store.users == old(store.users)
  {
    var errors := RegisterErrors(b, isEmail);
    if errors != [] {
      return RegisterReply(errors, Raised);
    }
    var result := store.Register(RegisterData(b.email, b.password, b.name, b.role), jwt, hasher, newId, fault);
    DuplicateEmailIsConflict();
    RegistrationFailureIsBadRequest();
    r := RegisterReply([], Returned(result));
  }

  /** POST /login: 400 for an invalid body, otherwise 200 exactly when the service
      logs the user in and 401 for every refusal, with the service's result as the
      body. The service catches its own exceptions, so no 500 is given. */
  function PostLogin(users: map<string, User>, b: LoginBody, isEmail: string -> bool, jwt: Access.Jwt, hasher: Hasher,
                     fault: Fault): (r: AuthReply)
    ensures r.status == 200 || r.status == 400 || r.status == 401
    ensures LoginErrors(b, isEmail) != [] ==> r.status == 400
    ensures LoginErrors(b, isEmail) == [] ==>
      && (r.status == 200 <==> Login(users, LoginData(b.email, b.password), jwt, hasher, fault).success)
      && (r.status == 401 <==> !Login(users, LoginData(b.email, b.password), jwt, hasher, fault).success)
      && r.body == ServiceResult(Login(users, LoginData(b.email, b.password), jwt, hasher, fault))
    ensures r.status == 200 ==> r.body.ServiceResult? && r.body.result.token.Some?
    ensures r.status == 401 ==> r.body.ServiceResult? && r.body.result.token.None?
  {
    var errors := LoginErrors(b, isEmail);
    if errors != [] then LoginReply(errors, Raised)
    else LoginReply([], Returned(Login(users, LoginData(b.email, b.password), jwt, hasher, fault)))
  }

  // ---------------------------------------------------------------------------
  // Properties

  /** The duplicate-email refusal maps to 409 Conflict. */
  lemma DuplicateEmailIsConflict()
    ensures RegisterReply([], Returned(Failed("User with this email already exists"))).status == 409
  {
    ContainsInfix("User with this email ", "already exists", "");
    assert "User with this email " + "already exists" + "" == "User with this email already exists";
  }

  /** A register failure maps to 409 exactly when its message mentions an existing
      account, and to 400 otherwise. */
  lemma FailureStatus(message: string)
    ensures RegisterReply([], Returned(Failed(message))).status
         == if Contains(message, "already exists") then 409 else 400
  {
  }

  /** Any other register failure maps to 400: "Registration failed" does not mention
      an existing account. */
  lemma RegistrationFailureIsBadRequest()
    ensures !Contains("Registration failed", "already exists")
    ensures RegisterReply([], Returned(Failed("Registration failed"))).status == 400
  {
    if Contains("Registration failed", "already exists") {
      assert 'y' in "already exists";
      ContainsChars("Registration failed", "already exists", 'y');
      assert false;
    }
  }

  /** Registering an email that is already taken answers 409 and changes nothing. */
  method RegisterTakenEmail(store: UserStore, b: RegisterBody, isEmail: string -> bool, jwt: Access.Jwt,
                            hasher: Hasher, newId: string) returns (r: AuthReply)
    requires store.Valid() && RegisterErrors(b, isEmail) == [] && b.email in store.users
    requires forall e :: e in store.users ==> store.users[e].id != newId
    modifies store
    ensures r.status == 409 && store.users == old(store.users)
  {
    r := PostRegister(store, b, isEmail, jwt, hasher, newId, NoFault);
  }
}
