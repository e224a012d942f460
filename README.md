# Authentication and session core of the user service

This project models the authentication core of the IntelliGuard user service in Dafny. It covers:

- the account record and its two predicates, `isAccountNonLocked` and `isActive`;
- the user table and its lookup queries;
- the refresh-token table, with its lookups, the bulk revoke of a user's tokens, the sweep of expired rows, and the "valid tokens" query;
- the `AuthService` operations `register`, `login` (with the lockout counter of `handleFailedLogin`) and `refreshToken` (token rotation).

Each table is a sequence of rows in insertion order. Every derived or JPQL `SELECT` is a filter over those rows (`Tables.Filter`). A query declared to return `Optional` yields `Absent`, `Found(row)` or `NotUnique`. `NotUnique` stands for the exception Spring Data raises when more than one row matches. The two repositories are classes holding their rows. Their `save` and bulk `UPDATE`/`DELETE` statements are methods that reassign the rows. `AuthService` is a class over both repositories. Its methods carry `modifies` clauses. Each method's postcondition gives the exact new contents of both tables and the result or error, branch by branch, in the order the source checks them.

Time is an integer number of seconds, passed to each operation as `now`. The two configured lifetimes are milliseconds, divided by 1000 with Java `long` truncating division. The failed-login counter is a Java `int` and wraps at 2^31 - 1. As a modelling choice, an account's identity value is its 1-based position in the user table. The core relies only on identities being unique (see "## Left out"). A refresh-token row is identified by its token value.

The collaborators the core calls but does not define are inputs to the model:

- `PasswordEncoder.matches` is a function fixed when the service is built.
- `PasswordEncoder.encode`, `UUID.randomUUID` and `JwtUtil.generateRefreshToken` supply their outputs as method parameters. A generated refresh value is required not to be stored already.
- `JwtUtil.generateToken` is represented by the claims it signs (`AccessClaims`: subject email, role name, user id).
- The `RoleRepository` answer for `"VIEWER"` is an optional parameter of `Register`.

The invariant `AuthService.Valid()` holds before and after every operation. It has three parts:

- the user table is well formed: identities 1, 2, …, unique emails, and counters that fit in an `int`;
- the token table is well formed: unique token values, `revokedAt` set exactly on revoked rows, and at most one unrevoked token per user;
- every token belongs to a stored account.

Two details of the code are worth stating:

- An unknown refresh value throws "Invalid refresh token" (`AuthService.java:141`). An expired or revoked one throws "Refresh token is expired or revoked" (`AuthService.java:145`). The model has one error for each.
- Lombok's `@Builder` ignores the field initialisers at `User.java:40-49`, because none of them carries `@Builder.Default`. A built `User` gets its status, counter and verified flag only from the explicit builder calls at `AuthService.java:55-57`. Every field the builder does not set, the lock included, is null. `UserEntity.NewAccount` builds the account that way.

## Model

Source paths are relative to the repository root.

| member | source | states |
|---|---|---|
| Auth.AuthService.Register | services/user-service/src/main/java/com/intelliguard/userservice/userservice/service/AuthService.java:37-83 | An existing email gives `EmailAlreadyRegistered`, and a missing VIEWER role gives `DefaultRoleNotFound`. In both cases neither table changes. On success exactly one new account is appended, with the next identity, status PENDING_VERIFICATION, `emailVerified` false, counter 0 and the verification token. Exactly one new unrevoked token expiring at `now + refreshExpiration/1000` is appended. The result is the Bearer bundle for the new account with `expiresIn = jwtExpiration/1000`. `Valid()` is kept. |
| Auth.AuthService.CreateAccount | services/user-service/src/main/java/com/intelliguard/userservice/userservice/service/AuthService.java:48-82 | The success tail of `register`: exactly the new account, with the next identity, is appended to the user table, and exactly one token issued to it is appended to the token table. The response is the bundle for that account. `Valid()` is kept. |
| Auth.AuthService.Login | services/user-service/src/main/java/com/intelliguard/userservice/userservice/service/AuthService.java:85-135 | The checks run in source order and each one stops the operation. An unknown email gives `BadCredentials`. A locked account gives `AccountLocked(until)`. A deleted account gives `AccountDeleted`. In these three cases neither table changes. A wrong password gives `BadCredentials`, changes only that account's row (to `AfterFailedLogin`) and leaves the tokens unchanged. On success the row becomes `AfterSuccessfulLogin`, the tokens become `RevokedAll(old, id, now) + [new token]`, and the result is the bundle for the updated account. After a success with a positive refresh lifetime, the new token is the user's only valid token. `Valid()` is kept. |
| Auth.AuthService.CompleteLogin | services/user-service/src/main/java/com/intelliguard/userservice/userservice/service/AuthService.java:107-134 | The success tail of `login`: the counter is reset, the lock cleared and `lastLoginAt` set, every token of the account is revoked, and exactly one new unrevoked token is added. With a positive refresh lifetime, that token is then the only valid one. `Valid()` is kept. |
| Auth.AuthService.HandleFailedLogin | services/user-service/src/main/java/com/intelliguard/userservice/userservice/service/AuthService.java:180-190 | Only the account's own row changes, and it becomes `AfterFailedLogin(user, now)`. `Valid()` is kept. |
| Auth.AuthService.RefreshToken | services/user-service/src/main/java/com/intelliguard/userservice/userservice/service/AuthService.java:137-178 | An unknown value gives `InvalidRefreshToken`, and a token that is revoked or expired (not strictly after `now`) gives `RefreshTokenExpiredOrRevoked`. In both cases nothing changes. On success the presented row is replaced by itself revoked at `now`, and one new unrevoked token for the same owner is appended. The result is the owner's bundle carrying the new value. Looking the presented value up again finds it revoked, with `revokedAt = now`, so a second use fails. The user table never changes. |
| Auth.AuthService.Rotate | services/user-service/src/main/java/com/intelliguard/userservice/userservice/service/AuthService.java:148-177 | For a valid stored token, the table becomes `Replaced(old, Revoke(presented, now)) + [new]`. Afterwards the presented value finds the revoked row and the new value finds the new token. The response is built from the owner's stored account. |
| Auth.AuthService.constructor | services/user-service/src/main/java/com/intelliguard/userservice/userservice/service/AuthService.java:25-35 | New, empty tables satisfy `Valid()`. The model starts from empty tables; the source receives its repositories by injection (`AuthService.java:25-27`). |
| Auth.DefaultLifetimes | services/user-service/src/main/java/com/intelliguard/userservice/userservice/service/AuthService.java:31-35 | With the default configuration, `expiresIn` is 3600 and a refresh token lives 604800 seconds. |
| Auth.FailedLoginCountsAndLocks | services/user-service/src/main/java/com/intelliguard/userservice/userservice/service/AuthService.java:180-189 | A failure raises the counter by exactly 1. At 5 or more, the lock becomes `now + 900`: the account is locked at every time from `now` to `now + 900` and unlocked at `now + 901`. Below 5 the lock is unchanged. No other field changes. |
| Auth.ExpiredLockRelocksOnNextFailure | services/user-service/src/main/java/com/intelliguard/userservice/userservice/service/AuthService.java:181-187 | The counter survives the expiry of a lock, so one further failure locks the account again at once. |
| Auth.FifthFailureLocks | services/user-service/src/main/java/com/intelliguard/userservice/userservice/service/AuthService.java:181-187 | Starting from a clean account, four failures leave it unlocked for the next attempt, and the fifth locks it for 15 minutes from that failure. |
| Auth.CounterWrapsAtMaxInt | services/user-service/src/main/java/com/intelliguard/userservice/userservice/service/AuthService.java:181 | At `Integer.MAX_VALUE` the `int` increment wraps to `Integer.MIN_VALUE`, and that failure leaves the lock as it was, because the negative count is below 5. |
| Auth.SuccessClearsLockout | services/user-service/src/main/java/com/intelliguard/userservice/userservice/service/AuthService.java:108-110 | After a successful login the counter is 0, `lastLoginAt` is `now`, and the account is unlocked at every time. |
| UserEntity.NewAccount | services/user-service/src/main/java/com/intelliguard/userservice/userservice/service/AuthService.java:49-59 | A new account has status PENDING_VERIFICATION, `emailVerified` false, counter 0, no lock, no login, no deletion mark and the verification token. It is not active and is unlocked at every time. |
| UserEntity.NoLockMeansNonLocked | services/user-service/src/main/java/com/intelliguard/userservice/userservice/entity/User.java:84-87 | Without a lock, `isAccountNonLocked` holds. |
| UserEntity.NonLockedIffStrictlyAfter | services/user-service/src/main/java/com/intelliguard/userservice/userservice/entity/User.java:88 | With a lock at `until`, the account is unlocked exactly when `now > until`, and it is still locked at `until`. |
| UserEntity.NonLockedIsMonotone | services/user-service/src/main/java/com/intelliguard/userservice/userservice/entity/User.java:88 | For a fixed lock, once unlocked the account stays unlocked at every later time. |
| UserEntity.ActiveCharacterization | services/user-service/src/main/java/com/intelliguard/userservice/userservice/entity/User.java:91-93 | `isActive` holds exactly when the status is ACTIVE, the email is verified and there is no deletion mark. No PENDING_VERIFICATION, SUSPENDED or DELETED account is active. |
| UserEntity.StatusNameInjective | services/user-service/src/main/java/com/intelliguard/userservice/userservice/entity/User.java:77-82 | Distinct statuses have distinct `name()` strings. |
| Users.FindByEmail | services/user-service/src/main/java/com/intelliguard/userservice/userservice/repository/UserRepository.java:15 | `Absent` exactly when no stored account has the email. A found row is stored and has the email. |
| Users.ExistsByEmail | services/user-service/src/main/java/com/intelliguard/userservice/userservice/repository/UserRepository.java:17 | True exactly when some stored account has the email. |
| Users.FindByEmailVerificationToken | services/user-service/src/main/java/com/intelliguard/userservice/userservice/repository/UserRepository.java:19 | `Absent` exactly when no account carries the token. A found row carries it. |
| Users.FindByPasswordResetToken | services/user-service/src/main/java/com/intelliguard/userservice/userservice/repository/UserRepository.java:21 | `Absent` exactly when no account carries the token. A found row carries it. |
| Users.FindAllActiveUsers | services/user-service/src/main/java/com/intelliguard/userservice/userservice/repository/UserRepository.java:23-24 | Exactly the stored accounts with status ACTIVE and no deletion mark. Each row is returned at most as often as the table holds it (`multiset(r) <= multiset(rows)`). |
| Users.FindLockedUsersExpiredBefore | services/user-service/src/main/java/com/intelliguard/userservice/userservice/repository/UserRepository.java:26-27 | Exactly the stored accounts whose lock is set and lies strictly before `now`. Each row is returned at most as often as the table holds it (`multiset(r) <= multiset(rows)`). |
| Users.FindByStatus | services/user-service/src/main/java/com/intelliguard/userservice/userservice/repository/UserRepository.java:29 | Exactly the stored accounts with the given status. Each row is returned at most as often as the table holds it (`multiset(r) <= multiset(rows)`). |
| Users.ExistsIffFound | services/user-service/src/main/java/com/intelliguard/userservice/userservice/repository/UserRepository.java:15-17 | `existsByEmail` holds exactly when `findByEmail` is not empty. |
| Users.FindByEmailUnique | services/user-service/src/main/java/com/intelliguard/userservice/userservice/entity/User.java:22-23 | With the unique email column, `findByEmail` never meets two rows, and it finds a row exactly when `existsByEmail` holds. |
| Users.ActiveUsersCoverIsActive | services/user-service/src/main/java/com/intelliguard/userservice/userservice/repository/UserRepository.java:23-24 | Every account satisfying `isActive` is returned. A returned account satisfies `isActive` exactly when its email is verified. |
| Users.ExpiredLocksAreNonLocked | services/user-service/src/main/java/com/intelliguard/userservice/userservice/repository/UserRepository.java:26-27 | An account is returned exactly when it has a lock and `isAccountNonLocked` holds at `now`. |
| Users.RowOfId | services/user-service/src/main/java/com/intelliguard/userservice/userservice/entity/User.java:18-20 | In a well-formed table, a stored account sits at the position its identity names. |
| Users.UpdateKeepsWellFormed | services/user-service/src/main/java/com/intelliguard/userservice/userservice/service/AuthService.java:111 | Saving a stored account with the same email and an `int` counter keeps the table well formed. |
| Users.InsertKeepsWellFormed | services/user-service/src/main/java/com/intelliguard/userservice/userservice/service/AuthService.java:61 | Appending an account with the next identity and an email not yet stored keeps the table well formed. |
| Users.UserRepository.SaveNew | services/user-service/src/main/java/com/intelliguard/userservice/userservice/service/AuthService.java:61 | The new row gets the next identity value and is appended. No other row changes. |
| Users.UserRepository.Save | services/user-service/src/main/java/com/intelliguard/userservice/userservice/service/AuthService.java:111 | The row at the account's identity is replaced. No other row changes. |
| RefreshTokens.FindByToken | services/user-service/src/main/java/com/intelliguard/userservice/userservice/repository/RefreshTokenRepository.java:17 | `Absent` exactly when no row has the value. A found row is stored and has the value. |
| RefreshTokens.FindByUser | services/user-service/src/main/java/com/intelliguard/userservice/userservice/repository/RefreshTokenRepository.java:19 | Exactly the user's rows. Each row is returned at most as often as the table holds it (`multiset(r) <= multiset(rows)`). |
| RefreshTokens.FindValidTokensByUser | services/user-service/src/main/java/com/intelliguard/userservice/userservice/repository/RefreshTokenRepository.java:29-30 | Exactly the user's rows that are unrevoked and expire strictly after `now`. Each row is returned at most as often as the table holds it (`multiset(r) <= multiset(rows)`). |
| RefreshTokens.RevokedAll | services/user-service/src/main/java/com/intelliguard/userservice/userservice/repository/RefreshTokenRepository.java:21-23 | Position by position, every row of the user (already revoked or expired included) has `revoked = true` and `revokedAt = now`. Every other row is unchanged. |
| RefreshTokens.Unexpired | services/user-service/src/main/java/com/intelliguard/userservice/userservice/repository/RefreshTokenRepository.java:25-27 | Exactly the rows not expiring strictly before `now`. Each row is returned at most as often as the table holds it (`multiset(r) <= multiset(rows)`). |
| RefreshTokens.Replaced | services/user-service/src/main/java/com/intelliguard/userservice/userservice/service/AuthService.java:160 | Saving a row whose value is stored replaces that row in place. Every other row is unchanged. |
| RefreshTokens.FindByTokenUnique | services/user-service/src/main/java/com/intelliguard/userservice/userservice/repository/RefreshTokenRepository.java:17 | With unique token values, `findByToken` never meets two rows. |
| RefreshTokens.FindByTokenOfRow | services/user-service/src/main/java/com/intelliguard/userservice/userservice/repository/RefreshTokenRepository.java:17 | With unique values, looking up a stored row's value finds that row. |
| RefreshTokens.FindByUserCoversValid | services/user-service/src/main/java/com/intelliguard/userservice/userservice/repository/RefreshTokenRepository.java:19-30 | `findByUser` contains every row `findValidTokensByUser` returns. |
| RefreshTokens.ValidTokensAtMostOne | services/user-service/src/main/java/com/intelliguard/userservice/userservice/repository/RefreshTokenRepository.java:29-30 | In a well-formed table, a user has at most one valid token at any time. |
| RefreshTokens.RevokeAllLeavesNoValidToken | services/user-service/src/main/java/com/intelliguard/userservice/userservice/repository/RefreshTokenRepository.java:21-30 | After the bulk revoke, the user has no valid token at any time. |
| RefreshTokens.RevokeAllKeepsOthers | services/user-service/src/main/java/com/intelliguard/userservice/userservice/repository/RefreshTokenRepository.java:22 | Every other user's tokens are exactly as before. |
| RefreshTokens.RevokeAllKeepsValuesAndExpiries | services/user-service/src/main/java/com/intelliguard/userservice/userservice/repository/RefreshTokenRepository.java:22 | No row's owner, value or expiry changes. |
| RefreshTokens.DeleteExpiredExact | services/user-service/src/main/java/com/intelliguard/userservice/userservice/repository/RefreshTokenRepository.java:26 | A stored row survives exactly when it does not expire before `now`. A row expiring at `now` survives, although it is no longer valid. |
| RefreshTokens.DeleteExpiredIdempotent | services/user-service/src/main/java/com/intelliguard/userservice/userservice/repository/RefreshTokenRepository.java:25-27 | Sweeping twice at the same time equals sweeping once. |
| RefreshTokens.DeleteExpiredWellFormed | services/user-service/src/main/java/com/intelliguard/userservice/userservice/repository/RefreshTokenRepository.java:25-27 | The sweep keeps the table well formed and owned by stored accounts. |
| RefreshTokens.RevokeAllWellFormed | services/user-service/src/main/java/com/intelliguard/userservice/userservice/repository/RefreshTokenRepository.java:21-23 | The bulk revoke keeps the table well formed and owned, and afterwards every row of the user is revoked. |
| RefreshTokens.RevokedAllMembers | services/user-service/src/main/java/com/intelliguard/userservice/userservice/repository/RefreshTokenRepository.java:22 | Every row after the bulk revoke is either the user's, revoked at `now`, or another user's stored row. |
| RefreshTokens.RevokedAllOwned | services/user-service/src/main/java/com/intelliguard/userservice/userservice/repository/RefreshTokenRepository.java:22 | The bulk revoke changes no owner. |
| RefreshTokens.RevokedAllKeepsDistinct | services/user-service/src/main/java/com/intelliguard/userservice/userservice/repository/RefreshTokenRepository.java:22 | Token values stay unique. |
| RefreshTokens.RevokePresentedWellFormed | services/user-service/src/main/java/com/intelliguard/userservice/userservice/service/AuthService.java:158-160 | Revoking the presented token keeps the table well formed and owned, and leaves its owner with no unrevoked token. |
| RefreshTokens.ReplacedMembers | services/user-service/src/main/java/com/intelliguard/userservice/userservice/service/AuthService.java:160 | After the replacement, every row is the new row or a stored row with another value. |
| RefreshTokens.ReplacedKeepsDistinct | services/user-service/src/main/java/com/intelliguard/userservice/userservice/service/AuthService.java:160 | Token values stay unique. |
| RefreshTokens.IssueWellFormed | services/user-service/src/main/java/com/intelliguard/userservice/userservice/service/AuthService.java:68-74 | Appending a new unrevoked token for a user with no unrevoked token keeps the table well formed. |
| RefreshTokens.IssueToNewAccountWellFormed | services/user-service/src/main/java/com/intelliguard/userservice/userservice/service/AuthService.java:61-74 | A newly saved account owns no token yet. A fresh, unrevoked token issued to it keeps the table well formed, and every token stays owned within the enlarged user table. |
| RefreshTokens.RevisionsKeepValueAbsent | services/user-service/src/main/java/com/intelliguard/userservice/userservice/service/AuthService.java:118-126 | A value absent before the bulk revoke or the replacement is still absent after it. |
| RefreshTokens.LoginRotationWellFormed | services/user-service/src/main/java/com/intelliguard/userservice/userservice/service/AuthService.java:117-126 | Login's revoke-then-insert appends the new token, keeps the table well formed and keeps every token owned. |
| RefreshTokens.RefreshRotationWellFormed | services/user-service/src/main/java/com/intelliguard/userservice/userservice/service/AuthService.java:157-169 | Refresh's revoke-presented-then-insert replaces the presented row, appends the new token, keeps the table well formed and keeps every token owned. |
| RefreshTokens.LoginLeavesOneValidToken | services/user-service/src/main/java/com/intelliguard/userservice/userservice/service/AuthService.java:117-126 | After login's revoke-then-insert, the new token is the user's only valid token at every time before it expires. |
| RefreshTokens.RotationRejectsReuse | services/user-service/src/main/java/com/intelliguard/userservice/userservice/service/AuthService.java:157-169 | After the rotation, the presented value finds the revoked row and the new value finds the new token. |
| RefreshTokens.RefreshTokenRepository.Save | services/user-service/src/main/java/com/intelliguard/userservice/userservice/service/AuthService.java:74 | A row with a new value is appended. A row with a stored value replaces that row. |
| RefreshTokens.RefreshTokenRepository.RevokeAllUserTokens | services/user-service/src/main/java/com/intelliguard/userservice/userservice/repository/RefreshTokenRepository.java:21-23 | The table becomes `RevokedAll(old, user, now)`. |
| RefreshTokens.RefreshTokenRepository.DeleteExpiredTokens | services/user-service/src/main/java/com/intelliguard/userservice/userservice/repository/RefreshTokenRepository.java:25-27 | The table becomes `Unexpired(old, now)`. |
| JavaNumbers.IntIncrement | services/user-service/src/main/java/com/intelliguard/userservice/userservice/service/AuthService.java:181 | The result is an `int` congruent to `x + 1` modulo 2^32, which is two's-complement wrap-around. |
| JavaNumbers.LongDivide | services/user-service/src/main/java/com/intelliguard/userservice/userservice/service/AuthService.java:71 | Java `long` division by a positive divisor truncates toward zero: the remainder `a - q * b` lies in `[0, b)` for a non-negative dividend and in `(-b, 0]` for a negative one. |
| UserEntity.IsAccountNonLocked | services/user-service/src/main/java/com/intelliguard/userservice/userservice/entity/User.java:84-89 | A predicate, no contract of its own: unlocked when no lock is set or `now` is strictly after it. Its properties are the three lemmas below. |
| UserEntity.IsActive | services/user-service/src/main/java/com/intelliguard/userservice/userservice/entity/User.java:91-93 | A predicate, no contract of its own. `UserEntity.ActiveCharacterization` states what it means. |
| UserEntity.StatusName | services/user-service/src/main/java/com/intelliguard/userservice/userservice/entity/User.java:77-82 | `name()` of the status enum, no contract of its own. `UserEntity.StatusNameInjective` states that distinct statuses have distinct names. |
| Auth.MapToUserResponse | services/user-service/src/main/java/com/intelliguard/userservice/userservice/service/AuthService.java:192-203 | The public view, no contract of its own. `Auth.UserResponseExposesPublicFields` states what it exposes. |
| Auth.UserResponseExposesPublicFields | services/user-service/src/main/java/com/intelliguard/userservice/userservice/service/AuthService.java:192-203 | Two accounts give the same view exactly when they agree on identity, email, names, role name, status and last login. Password hash, tokens and lockout state never show in the view. |
| Auth.AfterFailedLogin | services/user-service/src/main/java/com/intelliguard/userservice/userservice/service/AuthService.java:180-187 | The account after a counted failure, no contract of its own. `Auth.FailedLoginCountsAndLocks`, `Auth.ExpiredLockRelocksOnNextFailure`, `Auth.FifthFailureLocks` and `Auth.CounterWrapsAtMaxInt` state its properties. |
| Auth.AfterSuccessfulLogin | services/user-service/src/main/java/com/intelliguard/userservice/userservice/service/AuthService.java:108-110 | The account after a successful password check, no contract of its own. `Auth.SuccessClearsLockout` states its properties. |
| Auth.ExpiresIn | services/user-service/src/main/java/com/intelliguard/userservice/userservice/service/AuthService.java:80 | `jwtExpiration / 1000` on a Java `long`, no contract of its own. Its truncation is `JavaNumbers.LongDivide`'s contract, and `Auth.DefaultLifetimes` gives the default value. |
| Auth.RefreshLifetime | services/user-service/src/main/java/com/intelliguard/userservice/userservice/service/AuthService.java:71 | `refreshExpiration / 1000` on a Java `long`, no contract of its own. Its truncation is `JavaNumbers.LongDivide`'s contract, and `Auth.DefaultLifetimes` gives the default value. |
| RefreshTokens.IsValid | services/user-service/src/main/java/com/intelliguard/userservice/userservice/service/AuthService.java:144 | A predicate, no contract of its own: unrevoked and expiring strictly after `now`, the condition of `findValidTokensByUser` at `RefreshTokenRepository.java:29`. `RefreshTokens.FindValidTokensByUser` and `RefreshTokens.InvalidityIsPermanent` use it. |
| Users.FindByEmailVerificationTokenOfRow | services/user-service/src/main/java/com/intelliguard/userservice/userservice/repository/UserRepository.java:19 | When exactly one account carries the token, the lookup returns `Found` of that account. |
| Users.FindByPasswordResetTokenOfRow | services/user-service/src/main/java/com/intelliguard/userservice/userservice/repository/UserRepository.java:21 | When exactly one account carries the token, the lookup returns `Found` of that account. |
| Users.FindByEmailOfRow | services/user-service/src/main/java/com/intelliguard/userservice/userservice/repository/UserRepository.java:15 | In a well-formed table, looking up a stored account's email returns `Found` of that account. |
| RefreshTokens.RevocationIsPermanent | services/user-service/src/main/java/com/intelliguard/userservice/userservice/service/AuthService.java:118-169 | Neither the login's bulk revoke nor the refresh's revoke-then-insert un-revokes a row: a revoked row is still revoked at its position afterwards. |
| RefreshTokens.InvalidityIsPermanent | services/user-service/src/main/java/com/intelliguard/userservice/userservice/service/AuthService.java:118-169 | A row invalid at `t` is invalid at every later `t'` after either change. |
| Tables.FilterSingleMatch | services/user-service/src/main/java/com/intelliguard/userservice/userservice/repository/UserRepository.java:19-21 | When at most one row can match and row `i` does, the query returns exactly that row. |
| JavaNumbers.LongDivideTruncates | services/user-service/src/main/java/com/intelliguard/userservice/userservice/service/AuthService.java:71 | Java's truncating division differs from Dafny's Euclidean `/` on negative dividends, for example -1 / 1000 is 0 in Java and -1 in Dafny. |
| Auth.Claims | services/user-service/src/main/java/com/intelliguard/userservice/userservice/service/AuthService.java:64 | The arguments of `generateToken` (also at lines 114 and 152): subject email, role name and account id. No contract of its own. `Auth.AuthService.Register`, `Auth.AuthService.Login` and `Auth.AuthService.RefreshToken` state the result through `Auth.Response`. |
| Auth.Response | services/user-service/src/main/java/com/intelliguard/userservice/userservice/service/AuthService.java:76-82 | The `AuthResponse` builder chain (also at lines 128-134 and 171-177): claims, refresh value, "Bearer", `jwtExpiration / 1000` and the public view. No contract of its own. The operations' contracts pin their results to it, and each operation also ensures "Bearer" and `ExpiresIn(config)` directly. |
| Auth.IssuedToken | services/user-service/src/main/java/com/intelliguard/userservice/userservice/service/AuthService.java:68-73 | The `RefreshToken` builder chain (also at lines 120-125 and 163-168): owner, value, expiry `now + refreshExpiration / 1000`, unrevoked, no `revokedAt`. No contract of its own. `RefreshTokens.IssueWellFormed`, `RefreshTokens.LoginLeavesOneValidToken` and `RefreshTokens.RotationRejectsReuse` state what it does to the table. |
| RefreshTokens.Revoke | services/user-service/src/main/java/com/intelliguard/userservice/userservice/service/AuthService.java:158-159 | The presented token with `revoked = true` and `revokedAt = now`. No contract of its own. `RefreshTokens.RevokePresentedWellFormed`, `RefreshTokens.RotationRejectsReuse` and `RefreshTokens.RevocationIsPermanent` use it. |
| Tables.Single | services/user-service/src/main/java/com/intelliguard/userservice/userservice/repository/UserRepository.java:15-21 | The single-result execution of an `Optional` query: no row gives `Absent`, one row gives `Found` of it, several give `NotUnique` (Spring's `IncorrectResultSizeDataAccessException`). No contract of its own. `Tables.FilterSingleMatch` and `Tables.FilterTwoMatches` together with the `…OfRow` and `…NotUnique` lemmas state these cases for the lookups. |
| Tables.FilterTwoMatches | services/user-service/src/main/java/com/intelliguard/userservice/userservice/repository/UserRepository.java:19-21 | Two matching rows make a query return at least two rows. |
| Users.FindByEmailVerificationTokenNotUnique | services/user-service/src/main/java/com/intelliguard/userservice/userservice/repository/UserRepository.java:19 | Two accounts that carry the same verification token make the lookup `NotUnique`. The column is not unique (`User.java:51-52`). |
| Users.FindByPasswordResetTokenNotUnique | services/user-service/src/main/java/com/intelliguard/userservice/userservice/repository/UserRepository.java:21 | Two accounts that carry the same reset token make the lookup `NotUnique`. The column is not unique (`User.java:54-55`). |
| Tables.Filter | services/user-service/src/main/java/com/intelliguard/userservice/userservice/repository/UserRepository.java:23-29 | A query keeps exactly the rows satisfying its condition, never more rows than the table has, and no row more often than the table holds it. |

## Left out

- `@Transactional` rollback. Each operation is one atomic, sequential step in the written order. Under Spring's default rule, the `BadCredentialsException` thrown at `AuthService.java:104` rolls back the counter saved at `AuthService.java:189`. That could mean the lockout never takes effect in a running service. The model keeps the save, as the code is written.
- Concurrent requests. They fall outside a sequential model.
- The signing and verification of JWTs, password hashing, and UUID and refresh-value generation. These are library calls, passed in as parameters or as the `matches` function. Generated refresh values are required to be new, which the source takes on trust.
- The clock. `LocalDateTime.now()` is read several times per operation in the source. The model takes a single `now` for each operation.
- The overflow of `LocalDateTime`, and the `DateTimeException` it raises. Time is an unbounded integer of seconds.
- The Hibernate-managed `createdAt` and `updatedAt` columns (`User.java:63-69`). The ORM sets them, so `MapToUserResponse` omits `createdAt`.
- The `RefreshToken` entity's surrogate key. The entity's own source file is not part of this model. The datatype `RefreshTokens.RefreshToken` carries the fields `AuthService.java` uses. A row is identified by its token value, and `user` is the owner's identity value.
- Result order. List-returning queries are unordered in SQL, and the model returns table order.
- The database column collation. Email and token matching are exact string equality.
- The `RoleRepository`. Its "VIEWER" lookup is an optional parameter.
- The controllers, the Kafka producer and consumer, the fraud DTOs, and `UserServiceImpl`/`UserService`. These are plumbing around the core.
- The `RefreshToken` `user` association. The source reloads the account through the token's association at `AuthService.java:149`, and the model reads the stored row for the owner's identity. They are the same account, because every token is owned by a stored account.
- Dependency injection. `Auth.AuthService.constructor` starts from empty tables. The source's `AuthService` receives its repositories by injection (`AuthService.java:25-27`), already holding whatever rows the database has. Every operation's contract assumes only `Valid()` of those rows.
- Gaps in identity values. Identities are modelled as consecutive positions 1, 2, …. The database's `IDENTITY` column (`User.java:18-20`) may skip values, for instance after a rolled-back insert. The core relies only on their uniqueness.
