/** The authentication service: registration, login with the brute-force
    lockout, and refresh-token rotation, over the user and refresh-token
    tables. Time is a number of seconds passed in as `now`. */
module Auth {
  import opened Wrappers
  import opened JavaNumbers
  import opened Tables
  import opened UserEntity
  import Users
  import RefreshTokens

  /** Failed attempts after which an account is locked, and for how long. */
  const LockThreshold: int := 5
  const LockSeconds: int := 15 * 60

  /** The two configured lifetimes, in milliseconds (`jwt.expiration`,
      `jwt.refresh-expiration`). */
  datatype JwtConfig = JwtConfig(jwtExpiration: int, refreshExpiration: int)

  const DefaultConfig: JwtConfig := JwtConfig(3600000, 604800000)

  /** The access-token lifetime reported to clients, in seconds. */
  function ExpiresIn(config: JwtConfig): int {
    LongDivide(config.jwtExpiration, 1000)
  }

  /** The refresh-token lifetime, in seconds. */
  function RefreshLifetime(config: JwtConfig): int {
    LongDivide(config.refreshExpiration, 1000)
  }

  datatype RegisterRequest = RegisterRequest(
    email: string, password: string, firstName: Option<string>, lastName: Option<string>)

  datatype LoginRequest = LoginRequest(email: string, password: string)

  datatype RefreshTokenRequest = RefreshTokenRequest(refreshToken: string)

  /** The claims an access token is signed over: subject email, role name
      and account id. */
  datatype AccessClaims = AccessClaims(subject: string, role: string, userId: nat)

  /** The public view of an account: never its password hash or tokens. */
  datatype UserResponse = UserResponse(
    id: nat, email: string, firstName: Option<string>, lastName: Option<string>,
    role: string, status: string, lastLoginAt: Option<int>)

  /** The token bundle every successful operation returns. */
  datatype AuthResponse = AuthResponse(
    accessToken: AccessClaims, refreshToken: string, tokenType: string,
    expiresIn: int, user: UserResponse)

  /** The exceptions the operations throw, one per throw site. */
  datatype AuthError =
    | EmailAlreadyRegistered
    | DefaultRoleNotFound
    | BadCredentials
    | AccountLocked(until: int)
    | AccountDeleted
    | InvalidRefreshToken
    | RefreshTokenExpiredOrRevoked

  function Claims(u: User): AccessClaims {
    AccessClaims(u.email, u.role.name, u.id)
  }

  /** `mapToUserResponse`. */
  function MapToUserResponse(u: User): UserResponse {
    UserResponse(u.id, u.email, u.firstName, u.lastName, u.role.name,
                 StatusName(u.status), u.lastLoginAt)
  }

  /** The public view depends on exactly the identity, email, names, role
      name, status and last login of an account: two accounts give the same
      view exactly when they agree on those, whatever their password hashes,
      tokens and lockout state. */
  lemma UserResponseExposesPublicFields(u: User, v: User)
    ensures MapToUserResponse(u) == MapToUserResponse(v) <==>
              && u.id == v.id && u.email == v.email
              && u.firstName == v.firstName && u.lastName == v.lastName
              && u.role.name == v.role.name && u.status == v.status
              && u.lastLoginAt == v.lastLoginAt
  {
    StatusNameInjective(u.status, v.status);
  }

  function Response(config: JwtConfig, u: User, refreshValue: string): AuthResponse {
    AuthResponse(Claims(u), refreshValue, "Bearer", ExpiresIn(config), MapToUserResponse(u))
  }

  /** The refresh-token row issued to `user` at `now`. */
  function IssuedToken(user: nat, value: string, now: int, config: JwtConfig): RefreshTokens.RefreshToken {
    RefreshTokens.RefreshToken(user, value, now + RefreshLifetime(config), false, None)
  }

  /** The account after `handleFailedLogin` at `now`. */
  function AfterFailedLogin(u: User, now: int): User
    requires IsInt(u.failedLoginAttempts)
  {
    var attempts := IntIncrement(u.failedLoginAttempts);
    u.(failedLoginAttempts := attempts,
       lockedUntil := if attempts >= LockThreshold then Some(now + LockSeconds) else u.lockedUntil)
  }

  /** The account after a successful password check at `now`. */
  function AfterSuccessfulLogin(u: User, now: int): User {
    u.(failedLoginAttempts := 0, lockedUntil := None, lastLoginAt := Some(now))
  }

  /** With the default configuration, bundles report 3600 seconds and
      refresh tokens live 604800 seconds (seven days). */
  lemma DefaultLifetimes()
    ensures ExpiresIn(DefaultConfig) == 3600
    ensures RefreshLifetime(DefaultConfig) == 604800
  {
  }

  /** A failed login raises the counter by exactly one; reaching the
      threshold locks the account for the 900 seconds up to and including
      `now + 900`, below it the lock is left as it was. Nothing else changes. */
  lemma FailedLoginCountsAndLocks(u: User, now: int)
    requires IsInt(u.failedLoginAttempts) && u.failedLoginAttempts < MaxInt
    ensures var r := AfterFailedLogin(u, now);
      && r.failedLoginAttempts == u.failedLoginAttempts + 1
      && (r.failedLoginAttempts >= 5 ==>
            && r.lockedUntil == Some(now + 900)
            && (forall t :: now <= t <= now + 900 ==> !IsAccountNonLocked(r, t))
            && IsAccountNonLocked(r, now + 901))
      && (r.failedLoginAttempts < 5 ==> r.lockedUntil == u.lockedUntil)
      && r.(failedLoginAttempts := u.failedLoginAttempts, lockedUntil := u.lockedUntil) == u
  {
  }

  /** The counter is untouched when a lock expires, so the first failure
      after an expired lock locks the account again at once. */
  lemma ExpiredLockRelocksOnNextFailure(u: User, now: int)
    requires IsInt(u.failedLoginAttempts) && 4 <= u.failedLoginAttempts < MaxInt
    requires IsAccountNonLocked(u, now)
    ensures !IsAccountNonLocked(AfterFailedLogin(u, now), now)
  {
  }

  /** Five failures in a row on a new account: the first four leave it
      unlocked, the fifth locks it for 15 minutes from that failure. */
  lemma FifthFailureLocks(u: User, t1: int, t2: int, t3: int, t4: int, t5: int)
    requires u.failedLoginAttempts == 0 && u.lockedUntil.None?
    ensures var u1 := AfterFailedLogin(u, t1);
      var u2 := AfterFailedLogin(u1, t2);
      var u3 := AfterFailedLogin(u2, t3);
      var u4 := AfterFailedLogin(u3, t4);
      var u5 := AfterFailedLogin(u4, t5);
      && IsAccountNonLocked(u1, t2) && IsAccountNonLocked(u2, t3)
      && IsAccountNonLocked(u3, t4) && IsAccountNonLocked(u4, t5)
      && u5.failedLoginAttempts == 5 && u5.lockedUntil == Some(t5 + 900)
  {
  }

  /** On a Java `int` the counter wraps after `MaxInt` failures, and the
      negative count then no longer locks the account. */
  lemma CounterWrapsAtMaxInt(u: User, now: int)
    requires u.failedLoginAttempts == MaxInt
    ensures AfterFailedLogin(u, now).failedLoginAttempts == MinInt
    ensures AfterFailedLogin(u, now).lockedUntil == u.lockedUntil
  {
  }

  /** A successful login clears the lockout state whatever it was. */
  lemma SuccessClearsLockout(u: User, now: int)
    ensures var r := AfterSuccessfulLogin(u, now);
      && r.failedLoginAttempts == 0 && r.lastLoginAt == Some(now)
      && forall t :: IsAccountNonLocked(r, t)
  {
  }

  class AuthService {
    const users: Users.UserRepository
    const tokens: RefreshTokens.RefreshTokenRepository
    const config: JwtConfig
    /** `PasswordEncoder.matches(raw, hash)`. */
    const matches: (string, string) -> bool

    /** Both tables are well formed and every token belongs to a stored account. */
    ghost predicate Valid()
      reads users, tokens
    {
      && Users.WellFormed(users.rows)
      && RefreshTokens.WellFormed(tokens.rows)
      && RefreshTokens.OwnedWithin(tokens.rows, |users.rows|)
    }

    constructor (config: JwtConfig, matches: (string, string) -> bool)
      ensures Valid() && fresh(users) && fresh(tokens)
      ensures users.rows == [] && tokens.rows == []
      ensures this.config == config && this.matches == matches
    {
      users := new Users.UserRepository();
      tokens := new RefreshTokens.RefreshTokenRepository();
      this.config := config;
      this.matches := matches;
    }

    /** `register`. `encodedPassword` is the encoder's hash of the password,
        `verificationToken` the random UUID, `refreshValue` the generated
        refresh-token value, assumed not yet stored. `viewerRole` is the
        role repository's answer for "VIEWER". */
    method Register(request: RegisterRequest, now: int, viewerRole: Option<Role>,
                    encodedPassword: string, verificationToken: string, refreshValue: string)
      returns (r: Result<AuthResponse, AuthError>)
      requires Valid()
      requires viewerRole.Some? ==> viewerRole.value.name == "VIEWER"
      requires RefreshTokens.FindByToken(tokens.rows, refreshValue).Absent?
      modifies users, tokens
      ensures Valid()
      ensures Users.ExistsByEmail(old(users.rows), request.email) ==>
                r == Err(EmailAlreadyRegistered)
                && users.rows == old(users.rows) && tokens.rows == old(tokens.rows)
      ensures !Users.ExistsByEmail(old(users.rows), request.email) && viewerRole.None? ==>
                r == Err(DefaultRoleNotFound)
                && users.rows == old(users.rows) && tokens.rows == old(tokens.rows)
      ensures !Users.ExistsByEmail(old(users.rows), request.email) && viewerRole.Some? ==>
                var u := NewAccount(request.email, encodedPassword, request.firstName,
                                    request.lastName, viewerRole.value, verificationToken)
                         .(id := |old(users.rows)| + 1);
                && users.rows == old(users.rows) + [u]
                && tokens.rows == old(tokens.rows) + [IssuedToken(u.id, refreshValue, now, config)]
                && r == Ok(Response(config, u, refreshValue))
      ensures r.Ok? ==> r.value.tokenType == "Bearer" && r.value.expiresIn == ExpiresIn(config)
      ensures r.Ok? ==> r.value.accessToken.role == "VIEWER" && r.value.user.status == "PENDING_VERIFICATION"
    {
      if Users.ExistsByEmail(users.rows, request.email) {
        return Err(EmailAlreadyRegistered);
      }
      if viewerRole.None? {
        return Err(DefaultRoleNotFound);
      }
      var response := CreateAccount(request, now, viewerRole.value, encodedPassword,
                                    verificationToken, refreshValue);
      r := Ok(response);
    }

    /** The successful tail of `register`: the new account is saved with the
        next identity, and one refresh token is issued to it. */
    method CreateAccount(request: RegisterRequest, now: int, defaultRole: Role,
                         encodedPassword: string, verificationToken: string, refreshValue: string)
      returns (response: AuthResponse)
      requires Valid() && !Users.ExistsByEmail(users.rows, request.email)
      requires RefreshTokens.FindByToken(tokens.rows, refreshValue).Absent?
      modifies users, tokens
      ensures Valid()
      ensures var u := NewAccount(request.email, encodedPassword, request.firstName,
                                  request.lastName, defaultRole, verificationToken)
                       .(id := |old(users.rows)| + 1);
        && users.rows == old(users.rows) + [u]
        && tokens.rows == old(tokens.rows) + [IssuedToken(u.id, refreshValue, now, config)]
        && response == Response(config, u, refreshValue)
    {
      var user := NewAccount(request.email, encodedPassword, request.firstName,
                             request.lastName, defaultRole, verificationToken);
      Users.InsertKeepsWellFormed(users.rows, user.(id := |users.rows| + 1));
      ghost var known := |users.rows|;
      user := users.SaveNew(user);
      var accessToken := Claims(user);
      var refreshToken := IssuedToken(user.id, refreshValue, now, config);
      RefreshTokens.IssueToNewAccountWellFormed(tokens.rows, refreshToken, known);
      tokens.Save(refreshToken);
      response := AuthResponse(accessToken, refreshValue, "Bearer", ExpiresIn(config),
                               MapToUserResponse(user));
    }

    /** `login`. `refreshValue` is the generated refresh-token value,
        assumed not yet stored. */
    method Login(request: LoginRequest, now: int, refreshValue: string)
      returns (r: Result<AuthResponse, AuthError>)
      requires Valid()
      requires RefreshTokens.FindByToken(tokens.rows, refreshValue).Absent?
      modifies users, tokens
      ensures Valid()
      ensures var found := Users.FindByEmail(old(users.rows), request.email);
        found.Absent? ==>
          r == Err(BadCredentials)
          && users.rows == old(users.rows) && tokens.rows == old(tokens.rows)
      ensures var found := Users.FindByEmail(old(users.rows), request.email);
        found.Found? && !IsAccountNonLocked(found.value, now) ==>
          r == Err(AccountLocked(found.value.lockedUntil.value))
          && users.rows == old(users.rows) && tokens.rows == old(tokens.rows)
      ensures var found := Users.FindByEmail(old(users.rows), request.email);
        found.Found? && IsAccountNonLocked(found.value, now) && found.value.deletedAt.Some? ==>
          r == Err(AccountDeleted)
          && users.rows == old(users.rows) && tokens.rows == old(tokens.rows)
      ensures var found := Users.FindByEmail(old(users.rows), request.email);
        found.Found? && IsAccountNonLocked(found.value, now) && found.value.deletedAt.None?
        && !matches(request.password, found.value.passwordHash) ==>
          r == Err(BadCredentials)
          && users.rows == old(users.rows)[found.value.id - 1 := AfterFailedLogin(found.value, now)]
          && tokens.rows == old(tokens.rows)
      ensures var found := Users.FindByEmail(old(users.rows), request.email);
        found.Found? && IsAccountNonLocked(found.value, now) && found.value.deletedAt.None?
        && matches(request.password, found.value.passwordHash) ==>
          var u := AfterSuccessfulLogin(found.value, now);
          && users.rows == old(users.rows)[u.id - 1 := u]
          && tokens.rows == RefreshTokens.RevokedAll(old(tokens.rows), u.id, now)
                            + [IssuedToken(u.id, refreshValue, now, config)]
          && r == Ok(Response(config, u, refreshValue))
      ensures r.Ok? ==> r.value.tokenType == "Bearer" && r.value.expiresIn == ExpiresIn(config)
      ensures r.Ok? && RefreshLifetime(config) > 0 ==>
                RefreshTokens.FindValidTokensByUser(tokens.rows, r.value.user.id, now)
                == [IssuedToken(r.value.user.id, refreshValue, now, config)]
    {
      var found := Users.FindByEmail(users.rows, request.email);
      Users.FindByEmailUnique(users.rows, request.email);
      if found.Absent? {
        return Err(BadCredentials);
      }
      var user := found.value;
      Users.RowOfId(users.rows, user);
      if !IsAccountNonLocked(user, now) {
        return Err(AccountLocked(user.lockedUntil.value));
      }
      if user.deletedAt.Some? {
        return Err(AccountDeleted);
      }
      if !matches(request.password, user.passwordHash) {
        HandleFailedLogin(user, now);
        return Err(BadCredentials);
      }
      var response := CompleteLogin(user, now, refreshValue);
      r := Ok(response);
    }

    /** The successful tail of `login`: the lockout state is cleared and the
        login time recorded, every token of the account is revoked, and a new
        one is issued. */
    method CompleteLogin(found: User, now: int, refreshValue: string) returns (response: AuthResponse)
      requires Valid() && found in users.rows
      requires RefreshTokens.FindByToken(tokens.rows, refreshValue).Absent?
      modifies users, tokens
      ensures Valid()
      ensures var u := AfterSuccessfulLogin(found, now);
        && users.rows == old(users.rows)[u.id - 1 := u]
        && tokens.rows == RefreshTokens.RevokedAll(old(tokens.rows), u.id, now)
                          + [IssuedToken(u.id, refreshValue, now, config)]
        && response == Response(config, u, refreshValue)
      ensures RefreshLifetime(config) > 0 ==>
                RefreshTokens.FindValidTokensByUser(tokens.rows, found.id, now)
                == [IssuedToken(found.id, refreshValue, now, config)]
    {
      Users.RowOfId(users.rows, found);
      var user := found;
      user := user.(failedLoginAttempts := 0);
      user := user.(lockedUntil := None);
      user := user.(lastLoginAt := Some(now));
      assert user == AfterSuccessfulLogin(found, now);
      Users.UpdateKeepsWellFormed(users.rows, user);
      users.Save(user);
      var accessToken := Claims(user);
      ghost var before := tokens.rows;
      var refreshToken := IssuedToken(user.id, refreshValue, now, config);
      RefreshTokens.LoginRotationWellFormed(tokens.rows, |users.rows|, now, refreshToken);
      tokens.RevokeAllUserTokens(user.id, now);
      tokens.Save(refreshToken);
      if RefreshLifetime(config) > 0 {
        RefreshTokens.LoginLeavesOneValidToken(before, user.id, now, refreshToken, now);
      }
      response := AuthResponse(accessToken, refreshValue, "Bearer", ExpiresIn(config),
                               MapToUserResponse(user));
    }

    /** `refreshToken`: looks the presented value up, rejects an unknown or
        invalid token, and otherwise rotates it. `newValue` is the generated
        refresh-token value, assumed not yet stored. */
    method RefreshToken(request: RefreshTokenRequest, now: int, newValue: string)
      returns (r: Result<AuthResponse, AuthError>)
      requires Valid()
      requires RefreshTokens.FindByToken(tokens.rows, newValue).Absent?
      modifies tokens
      ensures Valid() && users.rows == old(users.rows)
      ensures var found := RefreshTokens.FindByToken(old(tokens.rows), request.refreshToken);
        found.Absent? ==> r == Err(InvalidRefreshToken) && tokens.rows == old(tokens.rows)
      ensures var found := RefreshTokens.FindByToken(old(tokens.rows), request.refreshToken);
        found.Found? && !RefreshTokens.IsValid(found.value, now) ==>
          r == Err(RefreshTokenExpiredOrRevoked) && tokens.rows == old(tokens.rows)
      ensures var found := RefreshTokens.FindByToken(old(tokens.rows), request.refreshToken);
        found.Found? && RefreshTokens.IsValid(found.value, now) ==>
          && 1 <= found.value.user <= |users.rows|
          && tokens.rows == RefreshTokens.Replaced(old(tokens.rows), RefreshTokens.Revoke(found.value, now))
                            + [IssuedToken(found.value.user, newValue, now, config)]
          && r == Ok(Response(config, users.rows[found.value.user - 1], newValue))
      ensures r.Ok? ==>
                var again := RefreshTokens.FindByToken(tokens.rows, request.refreshToken);
                again.Found? && again.value.revoked && again.value.revokedAt == Some(now)
      ensures r.Ok? ==>
                r.value.refreshToken == newValue
                && RefreshTokens.FindByToken(tokens.rows, newValue)
                   == Found(IssuedToken(r.value.user.id, newValue, now, config))
      ensures r.Ok? ==> r.value.tokenType == "Bearer" && r.value.expiresIn == ExpiresIn(config)
    {
      var found := RefreshTokens.FindByToken(tokens.rows, request.refreshToken);
      RefreshTokens.FindByTokenUnique(tokens.rows, request.refreshToken);
      if found.Absent? {
        return Err(InvalidRefreshToken);
      }
      var refreshToken := found.value;
      if !RefreshTokens.IsValid(refreshToken, now) {
        return Err(RefreshTokenExpiredOrRevoked);
      }
      var response := Rotate(refreshToken, now, newValue);
      r := Ok(response);
    }

    /** The rotation step of `refreshToken` for a valid presented token: an
        access token for its owner, the presented row revoked at `now`, and a
        new row for the same owner. */
    method Rotate(presented: RefreshTokens.RefreshToken, now: int, newValue: string)
      returns (response: AuthResponse)
      requires Valid() && presented in tokens.rows && RefreshTokens.IsValid(presented, now)
      requires RefreshTokens.FindByToken(tokens.rows, newValue).Absent?
      modifies tokens
      ensures Valid() && users.rows == old(users.rows)
      ensures 1 <= presented.user <= |users.rows|
      ensures tokens.rows == RefreshTokens.Replaced(old(tokens.rows), RefreshTokens.Revoke(presented, now))
                             + [IssuedToken(presented.user, newValue, now, config)]
      ensures response == Response(config, users.rows[presented.user - 1], newValue)
      ensures RefreshTokens.FindByToken(tokens.rows, presented.token)
              == Found(RefreshTokens.Revoke(presented, now))
      ensures RefreshTokens.FindByToken(tokens.rows, newValue)
              == Found(IssuedToken(presented.user, newValue, now, config))
    {
      var user := users.rows[presented.user - 1];
      var accessToken := Claims(user);
      ghost var before := tokens.rows;
      var refreshToken := presented;
      refreshToken := refreshToken.(revoked := true);
      refreshToken := refreshToken.(revokedAt := Some(now));
      var newRefreshToken := IssuedToken(user.id, newValue, now, config);
      RefreshTokens.RefreshRotationWellFormed(before, |users.rows|, presented, now, newRefreshToken);
      RefreshTokens.RotationRejectsReuse(before, presented, now, newRefreshToken);
      tokens.Save(refreshToken);
      tokens.Save(newRefreshToken);
      response := AuthResponse(accessToken, newValue, "Bearer", ExpiresIn(config),
                               MapToUserResponse(user));
    }

    /** `handleFailedLogin`: count the failure, lock at the threshold, save. */
    method HandleFailedLogin(user: User, now: int)
      requires Valid() && user in users.rows
      modifies users
      ensures Valid()
      ensures users.rows == old(users.rows)[user.id - 1 := AfterFailedLogin(user, now)]
    {
      Users.RowOfId(users.rows, user);
      var attempts := IntIncrement(user.failedLoginAttempts);
      var updated := user.(failedLoginAttempts := attempts);
      if attempts >= LockThreshold {
        updated := updated.(lockedUntil := Some(now + LockSeconds));
      }
      Users.UpdateKeepsWellFormed(users.rows, updated);
      users.Save(updated);
    }
  }
}
