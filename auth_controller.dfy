/** AuthController: registration and login over the credential service. */
module AuthController {
  import opened Common
  import opened Entities
  import opened Numbers
  import opened Persistence
  import opened Identity
  import opened ActionResults

  datatype RegisterRequest = RegisterRequest(username: string, password: string)
  datatype LoginRequest = LoginRequest(username: string, password: string)

  const UsernameTakenMessage: string := "Username already exists"
  const InvalidCredentialsMessage: string := "Invalid username or password"

  /** Register: 400 with "Username already exists" when the service answers
      false, 200 with the new user's id otherwise; a refused save propagates
      as DbUpdateException. The Users table and counter are as the service
      leaves them. */
  function Register(users: map<int, User>, nextId: int, hash: PasswordHasher, request: RegisterRequest, now: Time)
    : (r: (Outcome<ActionResult>, map<int, User>, int))
    requires UsersKeyed(users, nextId)
    ensures r.0 == Returned(BadRequest(MessageBody(UsernameTakenMessage))) <==> UsernameExists(users, request.username)
    ensures r.0.Returned? ==> r.0.value.Ok? || r.0.value.BadRequest?
    ensures r.0 == Returned(Ok(UserIdBody(IntToString(nextId)))) <==>
      && !UsernameExists(users, request.username) && IsInt32(nextId)
      && RowFits(users, nextId, NewUser(nextId, request.username, HashPassword(hash, request.password), now))
    ensures r.0.Returned? && r.0.value.Ok? ==>
      && r.0.value == Ok(UserIdBody(IntToString(nextId)))
      && nextId in r.1 && r.1[nextId].username == request.username
    ensures r.0.Threw? <==>
      && !UsernameExists(users, request.username)
      && !(IsInt32(nextId) && RowFits(users, nextId, NewUser(nextId, request.username, HashPassword(hash, request.password), now)))
    ensures r.0.Threw? ==> r.0.exception == DbUpdateException && r.1 == users
    ensures var created := UserCreation(users, nextId, hash, request.username, request.password, now);
      r.1 == created.1 && r.2 == created.2
  {
    var created := UserCreation(users, nextId, hash, request.username, request.password, now);
    match created.0
    case Threw(e) => (Threw(e), created.1, created.2)
    case Returned(answer) =>
      if !answer.0 then (Returned(BadRequest(MessageBody(UsernameTakenMessage))), created.1, created.2)
      else (Returned(Ok(UserIdBody(answer.1))), created.1, created.2)
  }

  /** Login: 401 with "Invalid username or password" when validation fails,
      without asking for a token; otherwise 200 with the token for that
      username. Validation passing means the username exists, so the
      token's "User not found" throw is never reached: Login always returns.
      It reads the Users table and writes nothing. */
  function Login(users: map<int, User>, settings: JwtSettings, hash: PasswordHasher, request: LoginRequest, now: Time, jti: string)
    : (r: Outcome<ActionResult>)
    ensures r.Returned?
    ensures r.value == Unauthorized(MessageBody(InvalidCredentialsMessage))
        <==> !ValidateUser(users, hash, request.username, request.password)
    ensures ValidateUser(users, hash, request.username, request.password) ==> r.value.Ok?
    ensures r.value.Ok? ==>
      && r.value.body.TokenBody?
      && Returned(r.value.body.token) == GenerateJwtToken(users, settings, request.username, now, jti)
  {
    if !ValidateUser(users, hash, request.username, request.password) then
      Returned(Unauthorized(MessageBody(InvalidCredentialsMessage)))
    else
      match GenerateJwtToken(users, settings, request.username, now, jti)
      case Threw(e) => Threw(e)
      case Returned(token) => Returned(Ok(TokenBody(token)))
  }

  /** Register, then log in with the same credentials: 200, and the token's
      subject is the id registration returned. */
  lemma RegisterThenLogin(users: map<int, User>, nextId: int, hash: PasswordHasher, settings: JwtSettings,
                          username: string, password: string, now: Time, later: Time, jti: string)
    requires UsersKeyed(users, nextId)
    requires Register(users, nextId, hash, RegisterRequest(username, password), now).0.Returned?
    requires Register(users, nextId, hash, RegisterRequest(username, password), now).0.value.Ok?
    ensures var reg := Register(users, nextId, hash, RegisterRequest(username, password), now);
      var login := Login(reg.1, settings, hash, LoginRequest(username, password), later, jti);
      && login.value.Ok?
      && login.value.body.token.claims[0] == Claim(SubClaim, reg.0.value.body.userId)
  {
    var reg := Register(users, nextId, hash, RegisterRequest(username, password), now);
    var created := UserCreation(users, nextId, hash, username, password, now);
    assert Created(created.0) && reg.1 == created.1;
    RegisterThenValidate(users, nextId, hash, username, password, now);
    FoundIsNewRow(users, nextId, hash, username, password, now);
    assert created.1[nextId].id == nextId;
  }
}
