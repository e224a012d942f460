/** The user table and its queries. Every query is a read-only filter over
    the rows; rows are added or updated only through `save`. */
module Users {
  import opened Wrappers
  import opened JavaNumbers
  import opened Tables
  import opened UserEntity

  function Email(u: User): string {
    u.email
  }

  /** The table's own invariant: identity values 1, 2, ... in insertion
      order, the unique `email` column, and login counters that are Java `int`s. */
  predicate WellFormed(rows: seq<User>) {
    && (forall i :: 0 <= i < |rows| ==> rows[i].id == i + 1 && IsInt(rows[i].failedLoginAttempts))
    && DistinctOn(rows, Email)
  }

  /** `findByEmail`. */
  function FindByEmail(rows: seq<User>, email: string): (r: Lookup<User>)
    ensures r.Absent? <==> forall u :: u in rows ==> u.email != email
    ensures r.Found? ==> r.value in rows && r.value.email == email
  {
    var matching := Filter(rows, (u: User) => u.email == email);
    assert |matching| > 0 ==> matching[0] in matching;
    Single(matching)
  }

  /** `existsByEmail`. */
  function ExistsByEmail(rows: seq<User>, email: string): (b: bool)
    ensures b <==> exists u :: u in rows && u.email == email
  {
    var matching := Filter(rows, (u: User) => u.email == email);
    assert |matching| > 0 ==> matching[0] in matching;
    |matching| > 0
  }

  /** `findByEmailVerificationToken`. The column is not unique, so several
      matching rows make the lookup fail. */
  function FindByEmailVerificationToken(rows: seq<User>, token: string): (r: Lookup<User>)
    ensures r.Absent? <==> forall u :: u in rows ==> u.emailVerificationToken != Some(token)
    ensures r.Found? ==> r.value in rows && r.value.emailVerificationToken == Some(token)
  {
    var matching := Filter(rows, (u: User) => u.emailVerificationToken == Some(token));
    assert |matching| > 0 ==> matching[0] in matching;
    Single(matching)
  }

  /** `findByPasswordResetToken`. */
  function FindByPasswordResetToken(rows: seq<User>, token: string): (r: Lookup<User>)
    ensures r.Absent? <==> forall u :: u in rows ==> u.passwordResetToken != Some(token)
    ensures r.Found? ==> r.value in rows && r.value.passwordResetToken == Some(token)
  {
    var matching := Filter(rows, (u: User) => u.passwordResetToken == Some(token));
    assert |matching| > 0 ==> matching[0] in matching;
    Single(matching)
  }

  /** `findAllActiveUsers`: status `ACTIVE` and not soft-deleted. */
  function FindAllActiveUsers(rows: seq<User>): (r: seq<User>)
    ensures forall u :: u in r <==> u in rows && u.status == Active && u.deletedAt.None?
    ensures multiset(r) <= multiset(rows)
  {
    Filter(rows, (u: User) => u.status == Active && u.deletedAt.None?)
  }

  /** `findLockedUsersExpiredBefore`: a lock is set and lies strictly before `now`. */
  function FindLockedUsersExpiredBefore(rows: seq<User>, now: int): (r: seq<User>)
    ensures forall u :: u in r <==> u in rows && u.lockedUntil.Some? && u.lockedUntil.value < now
    ensures multiset(r) <= multiset(rows)
  {
    Filter(rows, (u: User) => u.lockedUntil.Some? && u.lockedUntil.value < now)
  }

  /** `findByStatus`. */
  function FindByStatus(rows: seq<User>, status: UserStatus): (r: seq<User>)
    ensures forall u :: u in r <==> u in rows && u.status == status
    ensures multiset(r) <= multiset(rows)
  {
    Filter(rows, (u: User) => u.status == status)
  }

  /** `existsByEmail` answers exactly whether `findByEmail` finds a row. */
  lemma ExistsIffFound(rows: seq<User>, email: string)
    ensures ExistsByEmail(rows, email) <==> !FindByEmail(rows, email).Absent?
  {
  }

  /** Because the email column is unique, `findByEmail` never meets several rows. */
  lemma FindByEmailUnique(rows: seq<User>, email: string)
    requires DistinctOn(rows, Email)
    ensures !FindByEmail(rows, email).NotUnique?
    ensures ExistsByEmail(rows, email) <==> FindByEmail(rows, email).Found?
  {
    FilterAtMostOne(rows, (u: User) => u.email == email);
  }

  /** A verification token carried by exactly one account finds that account. */
  lemma FindByEmailVerificationTokenOfRow(rows: seq<User>, token: string, i: nat)
    requires AtMostOneMatch(rows, (u: User) => u.emailVerificationToken == Some(token))
    requires i < |rows| && rows[i].emailVerificationToken == Some(token)
    ensures FindByEmailVerificationToken(rows, token) == Found(rows[i])
  {
    FilterSingleMatch(rows, (u: User) => u.emailVerificationToken == Some(token), i);
  }

  /** A password-reset token carried by exactly one account finds that account. */
  lemma FindByPasswordResetTokenOfRow(rows: seq<User>, token: string, i: nat)
    requires AtMostOneMatch(rows, (u: User) => u.passwordResetToken == Some(token))
    requires i < |rows| && rows[i].passwordResetToken == Some(token)
    ensures FindByPasswordResetToken(rows, token) == Found(rows[i])
  {
    FilterSingleMatch(rows, (u: User) => u.passwordResetToken == Some(token), i);
  }

  /** A verification token carried by two accounts makes the lookup fail. */
  lemma FindByEmailVerificationTokenNotUnique(rows: seq<User>, token: string, i: nat, j: nat)
    requires i < j < |rows|
    requires rows[i].emailVerificationToken == Some(token) && rows[j].emailVerificationToken == Some(token)
    ensures FindByEmailVerificationToken(rows, token) == NotUnique
  {
    FilterTwoMatches(rows, (u: User) => u.emailVerificationToken == Some(token), i, j);
  }

  /** A password-reset token carried by two accounts makes the lookup fail. */
  lemma FindByPasswordResetTokenNotUnique(rows: seq<User>, token: string, i: nat, j: nat)
    requires i < j < |rows|
    requires rows[i].passwordResetToken == Some(token) && rows[j].passwordResetToken == Some(token)
    ensures FindByPasswordResetToken(rows, token) == NotUnique
  {
    FilterTwoMatches(rows, (u: User) => u.passwordResetToken == Some(token), i, j);
  }

  /** In a well-formed table, looking up a stored account's email finds that account. */
  lemma FindByEmailOfRow(rows: seq<User>, i: nat)
    requires WellFormed(rows) && i < |rows|
    ensures FindByEmail(rows, rows[i].email) == Found(rows[i])
  {
    var p := (u: User) => u.email == rows[i].email;
    forall j, k | 0 <= j < k < |rows| && p(rows[j])
      ensures !p(rows[k])
    {
      assert Email(rows[j]) != Email(rows[k]);
    }
    FilterSingleMatch(rows, p, i);
  }

  /** The active-users query ignores `emailVerified`: it returns every
      account satisfying `isActive`, and the accounts it returns satisfy
      `isActive` exactly when their email is verified. */
  lemma ActiveUsersCoverIsActive(rows: seq<User>, u: User)
    requires u in rows
    ensures IsActive(u) ==> u in FindAllActiveUsers(rows)
    ensures u in FindAllActiveUsers(rows) ==> (IsActive(u) <==> u.emailVerified)
  {
  }

  /** The locks the expired-lock query returns are exactly the set locks
      that `isAccountNonLocked` no longer enforces at `now`. */
  lemma ExpiredLocksAreNonLocked(rows: seq<User>, now: int, u: User)
    ensures u in FindLockedUsersExpiredBefore(rows, now) <==>
              u in rows && u.lockedUntil.Some? && IsAccountNonLocked(u, now)
  {
  }

  /** The row stored for identity `id` in a well-formed table. */
  lemma RowOfId(rows: seq<User>, u: User)
    requires WellFormed(rows) && u in rows
    ensures 1 <= u.id <= |rows| && rows[u.id - 1] == u
  {
  }

  /** Updating a stored account without touching its identity or email keeps
      the table well formed. */
  lemma UpdateKeepsWellFormed(rows: seq<User>, u: User)
    requires WellFormed(rows) && 1 <= u.id <= |rows|
    requires rows[u.id - 1].email == u.email && IsInt(u.failedLoginAttempts)
    ensures WellFormed(rows[u.id - 1 := u])
  {
    var r := rows[u.id - 1 := u];
    forall i, j | 0 <= i < j < |r|
      ensures Email(r[i]) != Email(r[j])
    {
      assert Email(r[i]) == Email(rows[i]) && Email(r[j]) == Email(rows[j]);
    }
  }

  /** Appending an account with the next identity value and an email not yet
      stored keeps the table well formed. */
  lemma InsertKeepsWellFormed(rows: seq<User>, u: User)
    requires WellFormed(rows) && u.id == |rows| + 1 && IsInt(u.failedLoginAttempts)
    requires !ExistsByEmail(rows, u.email)
    ensures WellFormed(rows + [u])
  {
    var r := rows + [u];
    forall i, j | 0 <= i < j < |r|
      ensures Email(r[i]) != Email(r[j])
    {
      if j < |rows| {
        assert r[i] == rows[i] && r[j] == rows[j];
      } else {
        assert r[i] in rows;
      }
    }
  }

  /** The repository object: the rows it holds, and `save`. */
  class UserRepository {
    var rows: seq<User>

    constructor ()
      ensures rows == []
    {
      rows := [];
    }

    /** `save` of a new account: the table assigns the next identity value. */
    method SaveNew(u: User) returns (saved: User)
      modifies this
      ensures saved == u.(id := |old(rows)| + 1)
      ensures rows == old(rows) + [saved]
    {
      saved := u.(id := |rows| + 1);
      rows := rows + [saved];
    }

    /** `save` of an account already stored: its row is replaced. */
    method Save(u: User)
      requires 1 <= u.id <= |rows|
      modifies this
      ensures rows == old(rows)[u.id - 1 := u]
    {
      rows := rows[u.id - 1 := u];
    }
  }
}
