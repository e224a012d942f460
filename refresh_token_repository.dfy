/** The refresh-token table: the token entity, its read-only queries, and
    the two bulk statements (revoke all of a user's tokens, delete expired rows). */
module RefreshTokens {
  import opened Wrappers
  import opened Tables

  /** One row. `user` is the owning account's identity value; `token` is the
      opaque value handed to the client, which identifies the row. */
  datatype RefreshToken = RefreshToken(
    user: nat,
    token: string,
    expiresAt: int,
    revoked: bool,
    revokedAt: Option<int>)

  function TokenValue(t: RefreshToken): string {
    t.token
  }

  /** A token is valid while it is not revoked and its expiry lies strictly after `now`. */
  predicate IsValid(t: RefreshToken, now: int) {
    !t.revoked && t.expiresAt > now
  }

  /** The token with its revocation recorded at `now`. */
  function Revoke(t: RefreshToken, now: int): RefreshToken {
    t.(revoked := true, revokedAt := Some(now))
  }

  /** Token values are unique, revocation timestamps are present exactly on
      revoked rows, and every user owns at most one unrevoked token. */
  predicate WellFormed(rows: seq<RefreshToken>) {
    && DistinctOn(rows, TokenValue)
    && (forall t :: t in rows ==> (t.revoked <==> t.revokedAt.Some?))
    && OneLiveTokenPerUser(rows)
  }

  predicate OneLiveTokenPerUser(rows: seq<RefreshToken>) {
    forall a, b :: a in rows && b in rows && a.user == b.user && !a.revoked && !b.revoked ==> a == b
  }

  /** Every row belongs to one of the accounts with identity 1 .. `users`. */
  predicate OwnedWithin(rows: seq<RefreshToken>, users: nat) {
    forall t :: t in rows ==> 1 <= t.user <= users
  }

  /** `findByToken`. */
  function FindByToken(rows: seq<RefreshToken>, value: string): (r: Lookup<RefreshToken>)
    ensures r.Absent? <==> forall t :: t in rows ==> t.token != value
    ensures r.Found? ==> r.value in rows && r.value.token == value
  {
    var matching := Filter(rows, (t: RefreshToken) => t.token == value);
    assert |matching| > 0 ==> matching[0] in matching;
    Single(matching)
  }

  /** `findByUser`. */
  function FindByUser(rows: seq<RefreshToken>, user: nat): (r: seq<RefreshToken>)
    ensures forall t :: t in r <==> t in rows && t.user == user
    ensures multiset(r) <= multiset(rows)
  {
    Filter(rows, (t: RefreshToken) => t.user == user)
  }

  /** `findValidTokensByUser`: the user's unrevoked tokens expiring strictly after `now`. */
  function FindValidTokensByUser(rows: seq<RefreshToken>, user: nat, now: int): (r: seq<RefreshToken>)
    ensures forall t :: t in r <==> t in rows && t.user == user && !t.revoked && t.expiresAt > now
    ensures multiset(r) <= multiset(rows)
  {
    Filter(rows, (t: RefreshToken) => t.user == user && IsValid(t, now))
  }

  /** The table after `revokeAllUserTokens(user, now)`: every row of `user`,
      whatever its state, is revoked at `now`; nothing else changes. */
  function RevokedAll(rows: seq<RefreshToken>, user: nat, now: int): (r: seq<RefreshToken>)
    ensures |r| == |rows|
    ensures forall i :: 0 <= i < |rows| ==>
              r[i] == if rows[i].user == user then Revoke(rows[i], now) else rows[i]
  {
    if |rows| == 0 then []
    else [if rows[0].user == user then Revoke(rows[0], now) else rows[0]]
         + RevokedAll(rows[1..], user, now)
  }

  /** The table after `deleteExpiredTokens(now)`: the rows not expiring strictly before `now`. */
  function Unexpired(rows: seq<RefreshToken>, now: int): (r: seq<RefreshToken>)
    ensures forall t :: t in r <==> t in rows && t.expiresAt >= now
    ensures multiset(r) <= multiset(rows)
  {
    Filter(rows, (t: RefreshToken) => !(t.expiresAt < now))
  }

  /** The table after `save` of a row whose token value is already stored:
      that row is replaced, the others stay where they are. */
  function Replaced(rows: seq<RefreshToken>, t: RefreshToken): (r: seq<RefreshToken>)
    ensures |r| == |rows|
    ensures forall i :: 0 <= i < |rows| ==> r[i] == if rows[i].token == t.token then t else rows[i]
  {
    if |rows| == 0 then []
    else [if rows[0].token == t.token then t else rows[0]] + Replaced(rows[1..], t)
  }

  /** With unique token values, `findByToken` never meets several rows. */
  lemma FindByTokenUnique(rows: seq<RefreshToken>, value: string)
    requires DistinctOn(rows, TokenValue)
    ensures !FindByToken(rows, value).NotUnique?
  {
    FilterAtMostOne(rows, (t: RefreshToken) => t.token == value);
  }

  /** With unique token values, looking up a stored row's value finds that row. */
  lemma FindByTokenOfRow(rows: seq<RefreshToken>, i: nat)
    requires DistinctOn(rows, TokenValue) && i < |rows|
    ensures FindByToken(rows, rows[i].token) == Found(rows[i])
  {
    FindByTokenUnique(rows, rows[i].token);
    assert rows[i] in rows;
    var v := FindByToken(rows, rows[i].token).value;
    var m :| 0 <= m < |rows| && rows[m] == v;
    assert TokenValue(rows[m]) == TokenValue(rows[i]);
  }

  /** The user's valid tokens are among all of the user's tokens. */
  lemma FindByUserCoversValid(rows: seq<RefreshToken>, user: nat, now: int)
    ensures forall t :: t in FindValidTokensByUser(rows, user, now) ==> t in FindByUser(rows, user)
  {
  }

  /** In a well-formed table a user has at most one valid token at any time. */
  lemma ValidTokensAtMostOne(rows: seq<RefreshToken>, user: nat, now: int)
    requires WellFormed(rows)
    ensures |FindValidTokensByUser(rows, user, now)| <= 1
  {
    var p := (t: RefreshToken) => t.user == user && IsValid(t, now);
    forall i, j | 0 <= i < j < |rows| && p(rows[i])
      ensures !p(rows[j])
    {
      assert TokenValue(rows[i]) != TokenValue(rows[j]);
      assert rows[i] in rows && rows[j] in rows;
    }
    FilterAtMostOne(rows, p);
  }

  /** After revoking all of a user's tokens, the user has no valid token at any time. */
  lemma RevokeAllLeavesNoValidToken(rows: seq<RefreshToken>, user: nat, now: int, later: int)
    ensures FindValidTokensByUser(RevokedAll(rows, user, now), user, later) == []
  {
    var r := RevokedAll(rows, user, now);
    FilterNone(r, (t: RefreshToken) => t.user == user && IsValid(t, later));
  }

  /** Revoking one user's tokens leaves every other user's tokens as they were. */
  lemma {:induction false} RevokeAllKeepsOthers(rows: seq<RefreshToken>, user: nat, now: int, other: nat)
    requires other != user
    ensures FindByUser(RevokedAll(rows, user, now), other) == FindByUser(rows, other)
  {
    if |rows| > 0 {
      var r := RevokedAll(rows, user, now);
      assert r[1..] == RevokedAll(rows[1..], user, now);
      RevokeAllKeepsOthers(rows[1..], user, now, other);
    }
  }

  /** Revocation changes no token's owner, value or expiry. */
  lemma RevokeAllKeepsValuesAndExpiries(rows: seq<RefreshToken>, user: nat, now: int)
    ensures forall i :: 0 <= i < |rows| ==>
              var t := RevokedAll(rows, user, now)[i];
              t.user == rows[i].user && t.token == rows[i].token && t.expiresAt == rows[i].expiresAt
  {
  }

  /** The sweep deletes exactly the rows expiring strictly before `now`: a
      row expiring at `now` stays, although it is no longer valid. */
  lemma DeleteExpiredExact(rows: seq<RefreshToken>, now: int, t: RefreshToken)
    requires t in rows
    ensures t in Unexpired(rows, now) <==> !(t.expiresAt < now)
    ensures t.expiresAt == now ==> t in Unexpired(rows, now) && !IsValid(t, now)
  {
  }

  /** Sweeping twice at the same time deletes nothing more than sweeping once. */
  lemma DeleteExpiredIdempotent(rows: seq<RefreshToken>, now: int)
    ensures Unexpired(Unexpired(rows, now), now) == Unexpired(rows, now)
  {
    FilterIdempotent(rows, (t: RefreshToken) => !(t.expiresAt < now));
  }

  /** The sweep keeps the table well formed and owned by the same accounts. */
  lemma DeleteExpiredWellFormed(rows: seq<RefreshToken>, now: int, users: nat)
    requires WellFormed(rows) && OwnedWithin(rows, users)
    ensures WellFormed(Unexpired(rows, now)) && OwnedWithin(Unexpired(rows, now), users)
  {
    FilterDistinctOn(rows, (t: RefreshToken) => !(t.expiresAt < now), TokenValue);
  }

  /** Revoking all of a user's tokens keeps the table well formed. */
  lemma RevokeAllWellFormed(rows: seq<RefreshToken>, user: nat, now: int, users: nat)
    requires WellFormed(rows) && OwnedWithin(rows, users)
    ensures var r := RevokedAll(rows, user, now);
      && WellFormed(r) && OwnedWithin(r, users)
      && forall t :: t in r && t.user == user ==> t.revoked
  {
    RevokedAllKeepsDistinct(rows, user, now);
    RevokedAllMembers(rows, user, now);
    RevokedAllOwned(rows, user, now, users);
  }

  /** Every row of `RevokedAll(rows, user, now)` is a row of `user` revoked at
      `now` or a stored row of another user. */
  lemma RevokedAllMembers(rows: seq<RefreshToken>, user: nat, now: int)
    ensures forall x :: x in RevokedAll(rows, user, now) ==>
              (x.user == user && x.revoked && x.revokedAt == Some(now)) || (x in rows && x.user != user)
  {
    var r := RevokedAll(rows, user, now);
    forall x | x in r
      ensures (x.user == user && x.revoked && x.revokedAt == Some(now)) || (x in rows && x.user != user)
    {
      var i :| 0 <= i < |r| && r[i] == x;
      assert rows[i] in rows;
    }
  }

  /** Bulk revocation changes no owner. */
  lemma RevokedAllOwned(rows: seq<RefreshToken>, user: nat, now: int, users: nat)
    requires OwnedWithin(rows, users)
    ensures OwnedWithin(RevokedAll(rows, user, now), users)
  {
    var r := RevokedAll(rows, user, now);
    forall x | x in r
      ensures 1 <= x.user <= users
    {
      var i :| 0 <= i < |r| && r[i] == x;
      assert rows[i] in rows;
    }
  }

  /** Bulk revocation changes no token value, so the values stay unique. */
  lemma RevokedAllKeepsDistinct(rows: seq<RefreshToken>, user: nat, now: int)
    requires DistinctOn(rows, TokenValue)
    ensures DistinctOn(RevokedAll(rows, user, now), TokenValue)
  {
    var r := RevokedAll(rows, user, now);
    forall i, j | 0 <= i < j < |r|
      ensures TokenValue(r[i]) != TokenValue(r[j])
    {
      assert TokenValue(rows[i]) != TokenValue(rows[j]);
    }
  }

  /** Revoking the presented (unrevoked) token leaves its owner with no live
      token and keeps the table well formed. */
  lemma RevokePresentedWellFormed(rows: seq<RefreshToken>, presented: RefreshToken, now: int, users: nat)
    requires WellFormed(rows) && OwnedWithin(rows, users)
    requires presented in rows && !presented.revoked
    ensures var r := Replaced(rows, Revoke(presented, now));
      && WellFormed(r) && OwnedWithin(r, users)
      && forall t :: t in r && t.user == presented.user ==> t.revoked
  {
    var revoked := Revoke(presented, now);
    ReplacedKeepsDistinct(rows, revoked);
    ReplacedMembers(rows, revoked);
  }

  /** Every row of `Replaced(rows, t)` is `t` itself or a stored row with another value. */
  lemma ReplacedMembers(rows: seq<RefreshToken>, t: RefreshToken)
    ensures forall x :: x in Replaced(rows, t) ==> x == t || (x in rows && x.token != t.token)
  {
    var r := Replaced(rows, t);
    forall x | x in r
      ensures x == t || (x in rows && x.token != t.token)
    {
      var i :| 0 <= i < |r| && r[i] == x;
      assert rows[i] in rows;
    }
  }

  /** Replacing a row by one with the same value keeps the values unique. */
  lemma ReplacedKeepsDistinct(rows: seq<RefreshToken>, t: RefreshToken)
    requires DistinctOn(rows, TokenValue)
    ensures DistinctOn(Replaced(rows, t), TokenValue)
  {
    var r := Replaced(rows, t);
    forall i, j | 0 <= i < j < |r|
      ensures TokenValue(r[i]) != TokenValue(r[j])
    {
      assert TokenValue(rows[i]) != TokenValue(rows[j]);
    }
  }

  /** Adding an issued unrevoked token for a user who holds no live token keeps
      the table well formed. */
  lemma IssueWellFormed(rows: seq<RefreshToken>, issued: RefreshToken, users: nat)
    requires WellFormed(rows) && OwnedWithin(rows, users)
    requires FindByToken(rows, issued.token).Absent?
    requires forall t :: t in rows && t.user == issued.user ==> t.revoked
    requires !issued.revoked && issued.revokedAt.None? && 1 <= issued.user <= users
    ensures WellFormed(rows + [issued]) && OwnedWithin(rows + [issued], users)
  {
    var r := rows + [issued];
    forall i, j | 0 <= i < j < |r|
      ensures TokenValue(r[i]) != TokenValue(r[j])
    {
      if j == |rows| {
        assert r[i] in rows;
      } else {
        assert r[i] == rows[i] && r[j] == rows[j];
      }
    }
  }

  /** A newly registered account owns no token yet, so a token issued to it
      keeps the table well formed, owned by the enlarged user table. */
  lemma IssueToNewAccountWellFormed(rows: seq<RefreshToken>, issued: RefreshToken, users: nat)
    requires WellFormed(rows) && OwnedWithin(rows, users)
    requires FindByToken(rows, issued.token).Absent?
    requires !issued.revoked && issued.revokedAt.None? && issued.user == users + 1
    ensures WellFormed(rows + [issued]) && OwnedWithin(rows + [issued], users + 1)
  {
    forall t | t in rows
      ensures 1 <= t.user <= users + 1 && t.user != issued.user
    {
    }
    IssueWellFormed(rows, issued, users + 1);
  }

  /** Bulk revocation and replacing a row by one with the same value change
      no token value, so a value absent before stays absent. */
  lemma RevisionsKeepValueAbsent(rows: seq<RefreshToken>, user: nat, now: int, t: RefreshToken, value: string)
    requires FindByToken(rows, value).Absent?
    ensures FindByToken(RevokedAll(rows, user, now), value).Absent?
    ensures FindByToken(Replaced(rows, t), value).Absent?
  {
    var revoked := RevokedAll(rows, user, now);
    forall x | x in revoked
      ensures x.token != value
    {
      var i :| 0 <= i < |revoked| && revoked[i] == x;
      assert rows[i] in rows;
    }
    var replaced := Replaced(rows, t);
    forall x | x in replaced
      ensures x.token != value
    {
      var i :| 0 <= i < |replaced| && replaced[i] == x;
      assert rows[i] in rows;
    }
  }

  /** The login's revoke-then-insert keeps the table well formed; the insert
      appends, since the new value is not stored. */
  lemma LoginRotationWellFormed(rows: seq<RefreshToken>, users: nat, now: int, issued: RefreshToken)
    requires WellFormed(rows) && OwnedWithin(rows, users)
    requires FindByToken(rows, issued.token).Absent?
    requires !issued.revoked && issued.revokedAt.None? && 1 <= issued.user <= users
    ensures FindByToken(RevokedAll(rows, issued.user, now), issued.token).Absent?
    ensures WellFormed(RevokedAll(rows, issued.user, now) + [issued])
    ensures OwnedWithin(RevokedAll(rows, issued.user, now) + [issued], users)
  {
    RevisionsKeepValueAbsent(rows, issued.user, now, issued, issued.token);
    RevokeAllWellFormed(rows, issued.user, now, users);
    IssueWellFormed(RevokedAll(rows, issued.user, now), issued, users);
  }

  /** The refresh's revoke-presented-then-insert keeps the table well formed:
      the first save replaces the presented row, the second appends. */
  lemma RefreshRotationWellFormed(rows: seq<RefreshToken>, users: nat, presented: RefreshToken, now: int, issued: RefreshToken)
    requires WellFormed(rows) && OwnedWithin(rows, users)
    requires presented in rows && !presented.revoked
    requires FindByToken(rows, issued.token).Absent?
    requires issued.user == presented.user && !issued.revoked && issued.revokedAt.None?
    ensures !FindByToken(rows, presented.token).Absent?
    ensures FindByToken(Replaced(rows, Revoke(presented, now)), issued.token).Absent?
    ensures WellFormed(Replaced(rows, Revoke(presented, now)) + [issued])
    ensures OwnedWithin(Replaced(rows, Revoke(presented, now)) + [issued], users)
  {
    RevisionsKeepValueAbsent(rows, presented.user, now, Revoke(presented, now), issued.token);
    RevokePresentedWellFormed(rows, presented, now, users);
    IssueWellFormed(Replaced(rows, Revoke(presented, now)), issued, users);
  }

  /** After the login's revoke-then-insert, the inserted token is the user's
      only valid token at every time before it expires. */
  lemma LoginLeavesOneValidToken(rows: seq<RefreshToken>, user: nat, now: int, issued: RefreshToken, later: int)
    requires issued.user == user && IsValid(issued, later)
    ensures FindValidTokensByUser(RevokedAll(rows, user, now) + [issued], user, later) == [issued]
  {
    var p := (t: RefreshToken) => t.user == user && IsValid(t, later);
    FilterAppend(RevokedAll(rows, user, now), [issued], p);
    RevokeAllLeavesNoValidToken(rows, user, now, later);
    assert Filter([issued], p) == [issued] by {
      assert [issued][1..] == [];
    }
  }

  /** After rotation, looking up the presented value finds it revoked, so it
      is never valid again, while the replacement is found as inserted. */
  lemma RotationRejectsReuse(rows: seq<RefreshToken>, presented: RefreshToken, now: int, issued: RefreshToken)
    requires DistinctOn(rows, TokenValue) && presented in rows
    requires FindByToken(rows, issued.token).Absent?
    ensures var r := Replaced(rows, Revoke(presented, now)) + [issued];
      && FindByToken(r, presented.token) == Found(Revoke(presented, now))
      && FindByToken(r, issued.token) == Found(issued)
  {
    var revoked := Revoke(presented, now);
    var r := Replaced(rows, revoked) + [issued];
    assert DistinctOn(r, TokenValue) by {
      forall i, j | 0 <= i < j < |r|
        ensures TokenValue(r[i]) != TokenValue(r[j])
      {
        if j == |rows| {
          assert rows[i] in rows;
        } else {
          assert TokenValue(rows[i]) != TokenValue(rows[j]);
        }
      }
    }
    var k :| 0 <= k < |rows| && rows[k] == presented;
    FindByTokenOfRow(r, k);
    FindByTokenOfRow(r, |rows|);
  }

  /** Neither change the service makes to the table (the login's bulk revoke,
      the refresh's in-place revocation followed by an insert) un-revokes a
      row: the row at each old position is still revoked afterwards. */
  lemma RevocationIsPermanent(rows: seq<RefreshToken>, user: nat, now: int,
                              presented: RefreshToken, issued: RefreshToken, i: nat)
    requires i < |rows| && rows[i].revoked
    ensures RevokedAll(rows, user, now)[i].revoked
    ensures (Replaced(rows, Revoke(presented, now)) + [issued])[i].revoked
  {
  }

  /** A row that is no longer valid at `t` is not valid at any later `t'`
      after either change: neither revives a revoked row nor extends an expiry. */
  lemma InvalidityIsPermanent(rows: seq<RefreshToken>, user: nat, now: int,
                              presented: RefreshToken, issued: RefreshToken,
                              i: nat, t: int, t': int)
    requires i < |rows| && !IsValid(rows[i], t) && t <= t'
    ensures !IsValid(RevokedAll(rows, user, now)[i], t')
    ensures !IsValid((Replaced(rows, Revoke(presented, now)) + [issued])[i], t')
  {
  }

  /** The repository object: the rows it holds and its modifying statements. */
  class RefreshTokenRepository {
    var rows: seq<RefreshToken>

    constructor ()
      ensures rows == []
    {
      rows := [];
    }

    /** `save`: a row with a stored token value is replaced, a new one appended. */
    method Save(t: RefreshToken)
      modifies this
      ensures FindByToken(old(rows), t.token).Absent? ==> rows == old(rows) + [t]
      ensures !FindByToken(old(rows), t.token).Absent? ==> rows == Replaced(old(rows), t)
    {
      if FindByToken(rows, t.token).Absent? {
        rows := rows + [t];
      } else {
        rows := Replaced(rows, t);
      }
    }

    /** `revokeAllUserTokens`. */
    method RevokeAllUserTokens(user: nat, now: int)
      modifies this
      ensures rows == RevokedAll(old(rows), user, now)
    {
      rows := RevokedAll(rows, user, now);
    }

    /** `deleteExpiredTokens`. */
    method DeleteExpiredTokens(now: int)
      modifies this
      ensures rows == Unexpired(old(rows), now)
    {
      rows := Unexpired(rows, now);
    }
  }
}
