/** The authentication service: registration with its uniqueness checks, login,
    refresh of an access token, and resolution of the authenticated user. Token
    signing and checking, password encoding and the authentication manager are
    outside the model and are given to the service as uninterpreted functions. */
module Auth {
  import opened Util
  import opened Domain
  import UserRepository

  /** The registration form (only the fields registration reads). */
  datatype UserDto = UserDto(username: string, email: string, password: string)

  /** The login form. */
  datatype AuthRequest = AuthRequest(username: string, password: string)

  /** The response of register, login and refresh. `tokenType` stays unset: the
      builder that creates these responses ignores the field's "Bearer" initializer. */
  datatype AuthResponse = AuthResponse(
    accessToken: string, refreshToken: string, tokenType: Option<string>,
    userId: nat, username: string, role: Role, email: string)

  /** The token service, as four functions whose behaviour the model does not fix. */
  datatype JwtService = JwtService(
    generateToken: User -> string,
    generateRefreshToken: User -> string,
    extractUsername: string -> string,
    isTokenValid: (string, User) -> bool)

  /** The response built for an account from its two tokens. */
  function BuildResponse(accessToken: string, refreshToken: string, u: User): AuthResponse {
    AuthResponse(accessToken, refreshToken, None, u.id, u.username, u.role, u.email)
  }

  /** The response carries the tokens it was given and the account's id,
      username, email and role. */
  predicate Echoes(r: AuthResponse, accessToken: string, refreshToken: string, u: User) {
    && r.accessToken == accessToken && r.refreshToken == refreshToken
    && r.userId == u.id && r.username == u.username && r.email == u.email && r.role == u.role
  }

  class AuthService {
    const users: UserRepository.UserStore
    const passwordEncoder: string -> string
    const jwtService: JwtService
    /** Does the authentication manager accept this username and password? */
    const authenticationManager: (string, string) -> bool

    constructor (users: UserRepository.UserStore, passwordEncoder: string -> string,
                 jwtService: JwtService, authenticationManager: (string, string) -> bool)
      ensures this.users == users && this.passwordEncoder == passwordEncoder
      ensures this.jwtService == jwtService && this.authenticationManager == authenticationManager
    {
      this.users := users;
      this.passwordEncoder := passwordEncoder;
      this.jwtService := jwtService;
      this.authenticationManager := authenticationManager;
    }

    /** `register(dto)`: rejects a taken username, then a taken email; otherwise
        stores one new account with role USER and the encoded password and answers
        with its tokens. Unique usernames and emails stay unique. */
    method Register(dto: UserDto) returns (r: Result<AuthResponse>)
      requires users.Valid()
      modifies users
      ensures users.Valid()
      ensures old(UserRepository.ExistsByUsername(users.users, dto.username)) ==>
                r == Err(BadRequest(USERNAME_TAKEN)) && unchanged(users)
      ensures !old(UserRepository.ExistsByUsername(users.users, dto.username)) &&
              old(UserRepository.ExistsByEmail(users.users, dto.email)) ==>
                r == Err(BadRequest(EMAIL_TAKEN)) && unchanged(users)
      ensures !old(UserRepository.ExistsByUsername(users.users, dto.username)) &&
              !old(UserRepository.ExistsByEmail(users.users, dto.email)) ==>
                var u := User(old(users.nextId), dto.username, passwordEncoder(dto.password), dto.email, USER);
                && users.users == old(users.users) + [u]
                && users.nextId == old(users.nextId) + 1
                && r.Ok? && Echoes(r.value, jwtService.generateToken(u), jwtService.generateRefreshToken(u), u)
      ensures UserRepository.UniqueAccounts(old(users.users)) ==> UserRepository.UniqueAccounts(users.users)
    {
      if UserRepository.ExistsByUsername(users.users, dto.username) {
        return Err(BadRequest(USERNAME_TAKEN));
      }
      if UserRepository.ExistsByEmail(users.users, dto.email) {
        return Err(BadRequest(EMAIL_TAKEN));
      }
      ghost var before := users.users;
      var user := users.Insert(dto.username, passwordEncoder(dto.password), dto.email, USER);
      if UserRepository.UniqueAccounts(before) {
        UserRepository.AddingFreshAccountKeepsUnique(before, user);
      }
      var accessToken := jwtService.generateToken(user);
      var refreshToken := jwtService.generateRefreshToken(user);
      r := Ok(BuildResponse(accessToken, refreshToken, user));
    }

    /** `login(request)`: fails when the authentication manager rejects the
        credentials, then with Unauthorized when no account has the username;
        otherwise answers with fresh tokens for that account. */
    function Login(request: AuthRequest): (r: Result<AuthResponse>)
      reads users
      ensures !authenticationManager(request.username, request.password) ==> r == Err(BadCredentials)
      ensures authenticationManager(request.username, request.password) &&
              !UserRepository.ExistsByUsername(users.users, request.username) ==>
                r == Err(Unauthorized(INVALID_CREDENTIALS))
      ensures r.Ok? <==> authenticationManager(request.username, request.password) &&
                         UserRepository.ExistsByUsername(users.users, request.username)
      ensures r.Ok? ==> exists u :: u in users.users && u.username == request.username &&
                         Echoes(r.value, jwtService.generateToken(u), jwtService.generateRefreshToken(u), u)
    {
      if !authenticationManager(request.username, request.password) then Err(BadCredentials)
      else
        match UserRepository.FindByUsername(users.users, request.username)
        case None => Err(Unauthorized(INVALID_CREDENTIALS))
        case Some(u) => Ok(BuildResponse(jwtService.generateToken(u), jwtService.generateRefreshToken(u), u))
    }

    /** `refreshToken(token)`: Unauthorized when the token's username has no account
        or the token is not valid for it; otherwise a new access token beside the
        same refresh token. */
    function RefreshToken(token: string): (r: Result<AuthResponse>)
      reads users
      ensures r.Err? ==> r.error == Unauthorized(INVALID_REFRESH_TOKEN)
      ensures !UserRepository.ExistsByUsername(users.users, jwtService.extractUsername(token)) ==> r.Err?
      ensures r.Ok? ==> exists u :: u in users.users && u.username == jwtService.extractUsername(token) &&
                         jwtService.isTokenValid(token, u) &&
                         Echoes(r.value, jwtService.generateToken(u), token, u)
      ensures UserRepository.UniqueAccounts(users.users) ==>
                (r.Ok? <==> exists u :: u in users.users && u.username == jwtService.extractUsername(token) &&
                                        jwtService.isTokenValid(token, u))
    {
      var name := jwtService.extractUsername(token);
      match UserRepository.FindByUsername(users.users, name)
      case None => Err(Unauthorized(INVALID_REFRESH_TOKEN))
      case Some(u) =>
        if !jwtService.isTokenValid(token, u) then Err(Unauthorized(INVALID_REFRESH_TOKEN))
        else Ok(BuildResponse(jwtService.generateToken(u), token, u))
    }

    /** `getCurrentUser()` for the authenticated name: the account with that
        username, or Unauthorized when there is none. */
    function GetCurrentUser(name: string): (r: Result<User>)
      reads users
      ensures r.Ok? ==> r.value in users.users && r.value.username == name
      ensures r.Err? <==> forall u :: u in users.users ==> u.username != name
      ensures r.Err? ==> r.error == Unauthorized(USER_NOT_FOUND)
    {
      match UserRepository.FindByUsername(users.users, name)
      case Some(u) => Ok(u)
      case None => Err(Unauthorized(USER_NOT_FOUND))
    }
  }
}
