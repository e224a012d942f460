/** The account record of the user service (the `users` table row). */
module UserEntity {
  import opened Wrappers

  datatype UserStatus = PendingVerification | Active | Suspended | Deleted

  /** `UserStatus.name()`: the constant's name as stored and as reported. */
  function StatusName(s: UserStatus): string {
    match s
    case PendingVerification => "PENDING_VERIFICATION"
    case Active => "ACTIVE"
    case Suspended => "SUSPENDED"
    case Deleted => "DELETED"
  }

  /** The role row an account references; only its name is used by the core. */
  datatype Role = Role(name: string)

  /** One account. `id` is 0 until the row is first saved, then the
      identity value the table assigned. Timestamps are seconds; a nullable
      column is an `Option`. */
  datatype User = User(
    id: nat,
    email: string,
    passwordHash: string,
    firstName: Option<string>,
    lastName: Option<string>,
    role: Role,
    status: UserStatus,
    failedLoginAttempts: int,
    lockedUntil: Option<int>,
    emailVerified: bool,
    emailVerificationToken: Option<string>,
    passwordResetToken: Option<string>,
    passwordResetExpiresAt: Option<int>,
    lastPasswordChangeAt: Option<int>,
    lastLoginAt: Option<int>,
    deletedAt: Option<int>)

  /** `isAccountNonLocked`: no lock is set, or the clock is strictly after it. */
  predicate IsAccountNonLocked(u: User, now: int) {
    u.lockedUntil.None? || now > u.lockedUntil.value
  }

  /** `isActive`. */
  predicate IsActive(u: User) {
    u.status == Active && u.emailVerified && u.deletedAt.None?
  }

  /** A new, not yet saved account as the registration builds it. The builder
      sets the status, the counter and the verified flag explicitly; every
      field it does not set, the lock included, is null. */
  function NewAccount(email: string, passwordHash: string, firstName: Option<string>,
                      lastName: Option<string>, role: Role, verificationToken: string): (u: User)
    ensures u.id == 0 && u.email == email && u.passwordHash == passwordHash && u.role == role
    ensures u.status == PendingVerification && !u.emailVerified
    ensures u.failedLoginAttempts == 0 && u.lockedUntil.None?
    ensures u.emailVerificationToken == Some(verificationToken)
    ensures u.lastLoginAt.None? && u.deletedAt.None?
    ensures !IsActive(u)
    ensures forall now :: IsAccountNonLocked(u, now)
  {
    User(0, email, passwordHash, firstName, lastName, role, PendingVerification,
         0, None, false, Some(verificationToken), None, None, None, None, None)
  }

  /** An account without a lock is never locked. */
  lemma NoLockMeansNonLocked(u: User, now: int)
    requires u.lockedUntil.None?
    ensures IsAccountNonLocked(u, now)
  {
  }

  /** With a lock at `until`, the account is unlocked exactly at the times
      strictly after `until`; at `until` itself it is still locked. */
  lemma NonLockedIffStrictlyAfter(u: User, now: int)
    requires u.lockedUntil.Some?
    ensures IsAccountNonLocked(u, now) <==> now > u.lockedUntil.value
    ensures !IsAccountNonLocked(u, u.lockedUntil.value)
  {
  }

  /** For a fixed lock, once the account is unlocked it stays unlocked. */
  lemma NonLockedIsMonotone(u: User, t: int, t': int)
    requires t <= t' && IsAccountNonLocked(u, t)
    ensures IsAccountNonLocked(u, t')
  {
  }

  /** `isActive` holds exactly for an active status, a verified email and
      no deletion mark; any other status rules it out. */
  lemma ActiveCharacterization(u: User)
    ensures IsActive(u) <==> u.status == Active && u.emailVerified && u.deletedAt.None?
    ensures u.status in {PendingVerification, Suspended, Deleted} ==> !IsActive(u)
  {
  }

  /** Distinct statuses have distinct names, so the reported status string
      identifies the status. */
  lemma StatusNameInjective(s: UserStatus, s': UserStatus)
    ensures StatusName(s) == StatusName(s') ==> s == s'
  {
  }
}
