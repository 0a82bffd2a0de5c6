/**
 * AuthService: login with email and password, bearer-token validation and
 * logout, over UserService.
 */
module AuthApplication {
  import opened Wrappers
  import opened Ids
  import opened Errors
  import opened EmailFormat
  import opened Domain
  import opened Crypto
  import opened UserInfra
  import opened UserApplication

  datatype LoginData = LoginData(email: string, password: string)

  /** The user without its password hash, and the token issued for it. */
  datatype AuthResult = AuthResult(user: PublicUser, token: Token)

  /**
   * validateLoginData: email and password must be non-empty, the email of
   * the form `local@domain.tld`, the password at least six characters;
   * checked in that order.
   */
  function ValidateLoginData(data: LoginData): (r: Outcome<Error>)
    ensures r.Pass? <==> MatchesEmailPattern(data.email) && |data.password| >= 6
    ensures data.email == [] || data.password == [] ==> r == Fail(EmailAndPasswordRequired)
    ensures r == Fail(InvalidEmail) <==>
              data.email != [] && data.password != [] && !MatchesEmailPattern(data.email)
    ensures r == Fail(PasswordTooShort) <==>
              data.password != [] && MatchesEmailPattern(data.email) && |data.password| < 6
  {
    IsValidEmailIffPattern(data.email);
    assert data.email == [] ==> !IsValidEmail(data.email);
    if data.email == [] || data.password == [] then Fail(EmailAndPasswordRequired)
    else if !IsValidEmail(data.email) then Fail(InvalidEmail)
    else if |data.password| < 6 then Fail(PasswordTooShort)
    else Pass
  }

  class AuthService {
    const users: UserService
    const jwtSecret: string

    constructor (users: UserService, jwtSecret: string)
      ensures this.users == users && this.jwtSecret == jwtSecret
    {
      this.users := users;
      this.jwtSecret := jwtSecret;
    }

    /** The stored user `id` has this email and its hash accepts this password. */
    ghost predicate Authenticates(data: LoginData, id: Id)
      reads users.repo
    {
      id in users.repo.rows && users.repo.rows[id].email == data.email &&
      Compare(data.password, users.repo.rows[id].passwordHash)
    }

    /** The result of logging in as the stored user `id` at `now`. */
    ghost predicate IssuedFor(r: AuthResult, id: Id, now: int)
      reads users.repo
      requires id in users.repo.rows
    {
      var u := users.repo.rows[id];
      r.user == PublicView(u) && r.token == SignJwt(JwtPayload(id, u.email, u.role), jwtSecret, now)
    }

    /**
     * login: the user with this email whose hash accepts the password gets
     * a token for one day carrying its id, email and role. An unknown email
     * and a wrong password fail alike.
     */
    function Login(data: LoginData, now: int): (r: Result<AuthResult, Error>)
      reads users.repo
      requires users.repo.Valid()
      ensures r.Failure? ==> r.error == InvalidCredentials
      ensures r.Success? ==> exists id :: Authenticates(data, id) && IssuedFor(r.value, id, now)
    {
      match users.FindByEmail(data.email)
      case None => Failure(InvalidCredentials)
      case Some(user) =>
        if !ComparePassword(data.password, user.passwordHash) then Failure(InvalidCredentials)
        else
          var token := SignJwt(JwtPayload(user.id, user.email, user.role), jwtSecret, now);
          assert Authenticates(data, user.id) && IssuedFor(AuthResult(PublicView(user), token), user.id, now);
          Success(AuthResult(PublicView(user), token))
    }

    /** While emails are unique, a login succeeds exactly when some stored user has the email and the password. */
    lemma LoginSucceedsIffCredentialsMatch(data: LoginData, now: int)
      requires users.repo.Valid() && UserEmailsUnique(users.repo.rows)
      ensures Login(data, now).Success? <==> exists id :: Authenticates(data, id)
    {
      if exists id :: Authenticates(data, id) {
        var id :| Authenticates(data, id);
        assert users.FindByEmail(data.email) == Some(users.repo.rows[id]);
      }
    }

    /** validateToken: the user a valid token names, if it still exists; null otherwise. */
    function ValidateToken(token: Token, now: int): (r: Option<PublicUser>)
      reads users.repo
      requires users.repo.Valid()
      ensures r.Some? <==> VerifyJwt(token, jwtSecret, now).Some? &&
                           VerifyJwt(token, jwtSecret, now).value.userId in users.repo.rows
      ensures r.Some? ==> r.value == PublicView(users.repo.rows[VerifyJwt(token, jwtSecret, now).value.userId])
    {
      match VerifyJwt(token, jwtSecret, now)
      case None => None
      case Some(payload) =>
        match users.FindById(payload.userId)
        case None => None
        case Some(user) => Some(PublicView(user))
    }

    /** logout: refuses a token that does not verify, and does nothing else. */
    function Logout(token: Token, now: int): (r: Outcome<Error>)
      ensures r.Pass? <==> VerifyJwt(token, jwtSecret, now).Some?
      ensures r.Fail? ==> r.error == InvalidToken
    {
      if VerifyJwt(token, jwtSecret, now).None? then Fail(InvalidToken) else Pass
    }

    /**
     * The token of a login is accepted by validateToken for one day and
     * names the user who logged in; from then on it is refused.
     */
    lemma LoginTokenValidatesForOneDay(data: LoginData, issued: int, now: int)
      requires users.repo.Valid()
      requires issued <= now
      requires Login(data, issued).Success?
      ensures var auth := Login(data, issued).value;
              ValidateToken(auth.token, now) == if now < issued + TokenLifetime then Some(auth.user) else None
      ensures var auth := Login(data, issued).value;
              Logout(auth.token, now).Pass? <==> now < issued + TokenLifetime
    {
      var u := users.FindByEmail(data.email).value;
      var payload := JwtPayload(u.id, u.email, u.role);
      assert Login(data, issued).value == AuthResult(PublicView(u), SignJwt(payload, jwtSecret, issued));
      VerifySignedToken(payload, jwtSecret, issued, now);
      assert users.FindById(u.id) == Some(u);
    }

    /** A user created with a password can log in with it. */
    lemma CreatedUserCanLogIn(id: Id, password: string, salt: Salt, now: int)
      requires users.repo.Valid() && UserEmailsUnique(users.repo.rows)
      requires id in users.repo.rows && users.repo.rows[id].passwordHash == Hash(password, salt)
      ensures var r := Login(LoginData(users.repo.rows[id].email, password), now);
              r.Success? && r.value.user == PublicView(users.repo.rows[id])
    {
      CompareAcceptsOwnHash(password, salt);
    }

    /** The password admits no other: a password that differs in its first 72 characters is refused. */
    lemma WrongPasswordIsRefused(id: Id, password: string, other: string, salt: Salt, now: int)
      requires users.repo.Valid() && UserEmailsUnique(users.repo.rows)
      requires id in users.repo.rows && users.repo.rows[id].passwordHash == Hash(password, salt)
      requires Digest(other) != Digest(password)
      ensures Login(LoginData(users.repo.rows[id].email, other), now) == Failure(InvalidCredentials)
    {
      CompareIffSameDigest(password, other, salt);
    }
  }
}
