/** Registration, login and token resolution over the `users` table. Password hashing and
    token signing are library calls outside the model: the service receives them as
    functions and the model assumes nothing about them beyond what a lemma states. */
module AuthService {
  import opened Wrappers
  import opened Models
  import opened UserRepository

  /** The default token lifetime, `ACCESS_TOKEN_EXPIRE_MINUTES`. */
  const AccessTokenExpireMinutes := 30

  const EmailTakenDetail := "Email already registered"
  const BadCredentialsDetail := "Incorrect username or password"
  const InactiveDetail := "Inactive user"
  const InvalidTokenDetail := "Could not validate credentials"

  /** The claim that names the user a token was issued to. */
  const SubjectClaim := "sub"
  const BearerTokenType := "bearer"

  /** The claims of a token, other than its expiry. */
  type Claims = map<string, string>

  datatype UserCreate = UserCreate(email: string, password: string)
  datatype UserLogin = UserLogin(email: string, password: string)

  /** The body of a successful login. */
  datatype Token = Token(accessToken: string, tokenType: string)

  /** The expiry `create_access_token` gives a token issued at `now`: a non-zero
      `expires_delta` (in seconds) is added to `now`; an absent or zero one, which Python
      treats as false, gives the default lifetime. */
  function TokenExpiry(now: Instant, expiresDelta: Option<int>): (exp: Instant)
    ensures expiresDelta.Some? && expiresDelta.value != 0 ==> exp == now + expiresDelta.value
    ensures expiresDelta.None? || expiresDelta.value == 0 ==> exp == now + AccessTokenExpireMinutes * 60
  {
    if expiresDelta.Some? && expiresDelta.value != 0 then now + expiresDelta.value
    else now + AccessTokenExpireMinutes * 60
  }

  /** Tokens made by `encode` decode to their claims at every instant before their expiry. */
  ghost predicate DecodesBeforeExpiry(encode: (Claims, Instant) -> string,
                                      decode: (string, Instant) -> Option<Claims>)
  {
    forall c: Claims, exp: Instant, t: Instant {:trigger decode(encode(c, exp), t)} ::
      t < exp ==> decode(encode(c, exp), t) == Some(c)
  }

  class AuthService {
    const users: UserRepository
    /** `password_hasher.hash`. */
    const hash: string -> string
    /** `password_hasher.verify(plain, hashed)`, false when the check raises. */
    const verify: (string, string) -> bool
    /** `jwt.encode` of the claims with an `exp` claim added. */
    const encode: (Claims, Instant) -> string
    /** `token_manager.decode_token` at an instant: the claims, or None when the signature or
        the expiry check fails. */
    const decode: (string, Instant) -> Option<Claims>

    constructor (users: UserRepository, hash: string -> string, verify: (string, string) -> bool,
                 encode: (Claims, Instant) -> string, decode: (string, Instant) -> Option<Claims>)
      ensures this.users == users && this.hash == hash && this.verify == verify
      ensures this.encode == encode && this.decode == decode
    {
      this.users := users;
      this.hash := hash;
      this.verify := verify;
      this.encode := encode;
      this.decode := decode;
    }

    /** `register_user`: 400 when the email is taken and nothing changes; otherwise exactly
        one user is added, holding the hash of the password and never the password. `id` is
        the generated primary key, assumed fresh. */
    method RegisterUser(data: UserCreate, id: string, now: Instant) returns (r: Result<User, Error>)
      requires users.Valid()
      requires forall u :: u in users.users ==> u.id != id
      modifies users
      ensures users.Valid()
      ensures r.Failure? <==> exists u :: u in old(users.users) && u.email == data.email
      ensures r.Failure? ==> r.error == BadRequest(EmailTakenDetail) && users.users == old(users.users)
      ensures r.Success? ==> r.value == NewUser(id, data.email, hash(data.password), now)
      ensures r.Success? ==> users.users == old(users.users) + [r.value]
      ensures r.Success? ==> users.GetByEmail(data.email) == Some(r.value)
    {
      var existing := users.GetByEmail(data.email);
      if existing.Some? {
        return Failure(BadRequest(EmailTakenDetail));
      }
      var user := NewUser(id, data.email, hash(data.password), now);
      CreatedUserIsFound(users.users, user);
      r := users.Create(user);
    }

    /** `create_access_token`: the claims encoded with an expiry `expires_delta` after `now`, or
        the default lifetime after `now` when no non-zero delta is given. */
    function CreateAccessToken(claims: Claims, now: Instant, expiresDelta: Option<int>): (token: string)
      ensures expiresDelta.Some? && expiresDelta.value != 0 ==> token == encode(claims, now + expiresDelta.value)
      ensures expiresDelta.None? ==> token == encode(claims, now + AccessTokenExpireMinutes * 60)
    {
      encode(claims, TokenExpiry(now, expiresDelta))
    }

    /** `authenticate_user`: the email lookup, then the password, then the active flag. */
    function AuthenticateUser(login: UserLogin, now: Instant): (r: Result<Token, Error>)
      reads this, users
      ensures r.Success? <==>
                users.GetByEmail(login.email).Some? &&
                verify(login.password, users.GetByEmail(login.email).value.hashedPassword) &&
                users.GetByEmail(login.email).value.isActive
      ensures r.Success? ==>
                r.value == Token(CreateAccessToken(map[SubjectClaim := login.email], now, None), BearerTokenType)
      ensures r == Failure(BadRequest(InactiveDetail)) <==>
                users.GetByEmail(login.email).Some? &&
                verify(login.password, users.GetByEmail(login.email).value.hashedPassword) &&
                !users.GetByEmail(login.email).value.isActive
      ensures r.Failure? ==> r.error in {Unauthorized(BadCredentialsDetail), BadRequest(InactiveDetail)}
    {
      var user := users.GetByEmail(login.email);
      if user.None? then Failure(Unauthorized(BadCredentialsDetail))
      else if !verify(login.password, user.value.hashedPassword) then Failure(Unauthorized(BadCredentialsDetail))
      else if !user.value.isActive then Failure(BadRequest(InactiveDetail))
      else Success(Token(CreateAccessToken(map[SubjectClaim := user.value.email], now, None), BearerTokenType))
    }

    /** `get_current_user`: the token must decode, carry a subject, and name a stored user. */
    function GetCurrentUser(token: string, now: Instant): (r: Result<User, Error>)
      reads this, users
      ensures r.Success? <==>
                decode(token, now).Some? && SubjectClaim in decode(token, now).value &&
                users.GetByEmail(decode(token, now).value[SubjectClaim]).Some?
      ensures r.Success? ==> r.value in users.users && r.value.email == decode(token, now).value[SubjectClaim]
      ensures r.Failure? ==> r.error == Unauthorized(InvalidTokenDetail)
    {
      var payload := decode(token, now);
      if payload.None? then Failure(Unauthorized(InvalidTokenDetail))
      else if SubjectClaim !in payload.value then Failure(Unauthorized(InvalidTokenDetail))
      else
        var user := users.GetByEmail(payload.value[SubjectClaim]);
        if user.None? then Failure(Unauthorized(InvalidTokenDetail))
        else Success(user.value)
    }
  }

  /** An unknown email and a wrong password for a known one are answered identically, so a
      caller cannot tell which accounts exist. */
  lemma UnknownEmailLooksLikeWrongPassword(s: AuthService, unknown: UserLogin, wrong: UserLogin, now: Instant)
    requires s.users.GetByEmail(unknown.email).None?
    requires s.users.GetByEmail(wrong.email).Some?
    requires !s.verify(wrong.password, s.users.GetByEmail(wrong.email).value.hashedPassword)
    ensures s.AuthenticateUser(unknown, now) == s.AuthenticateUser(wrong, now)
    ensures s.AuthenticateUser(unknown, now) == Failure(Unauthorized(BadCredentialsDetail))
  {
  }

  /** The active flag is checked only after the password: a deactivated account with a wrong
      password gets the 401 of a wrong password, not the 400 of an inactive user. */
  lemma InactiveUserWithWrongPassword(s: AuthService, login: UserLogin, now: Instant)
    requires s.users.GetByEmail(login.email).Some?
    requires !s.users.GetByEmail(login.email).value.isActive
    requires !s.verify(login.password, s.users.GetByEmail(login.email).value.hashedPassword)
    ensures s.AuthenticateUser(login, now) == Failure(Unauthorized(BadCredentialsDetail))
  {
  }

  /** A token from a successful login resolves, before it expires, to the user who logged in;
      this holds for any signing scheme whose tokens decode to their claims until expiry. */
  lemma {:induction false} LoginThenCurrentUser(s: AuthService, login: UserLogin, now: Instant, later: Instant)
    requires DecodesBeforeExpiry(s.encode, s.decode)
    requires s.AuthenticateUser(login, now).Success?
    requires later < now + AccessTokenExpireMinutes * 60
    ensures s.GetCurrentUser(s.AuthenticateUser(login, now).value.accessToken, later)
         == Success(s.users.GetByEmail(login.email).value)
  {
    var claims := map[SubjectClaim := login.email];
    var exp := TokenExpiry(now, None);
    assert s.AuthenticateUser(login, now).value.accessToken == s.encode(claims, exp);
    assert s.decode(s.encode(claims, exp), later) == Some(claims);
  }
}
