/** A table is the sequence of its rows in insertion order. Every derived or
    JPQL `SELECT` of the repositories is a `Filter` of a table, and a query
    declared to return `Optional` is a `Single` of such a filter. */
module Tables {

  /** The rows of `s` that satisfy `p`, in table order. */
  function Filter<T(!new)>(s: seq<T>, p: T -> bool): (r: seq<T>)
    ensures |r| <= |s|
    ensures forall x :: x in r <==> x in s && p(x)
    ensures multiset(r) <= multiset(s)
  {
    if |s| == 0 then []
    else
      assert s == [s[0]] + s[1..];
      if p(s[0]) then [s[0]] + Filter(s[1..], p)
      else Filter(s[1..], p)
  }

  /** What an `Optional`-returning query yields: no row, the one row, or the
      `IncorrectResultSizeDataAccessException` raised for several rows. */
  datatype Lookup<T> = Absent | Found(value: T) | NotUnique

  function Single<T>(rows: seq<T>): Lookup<T> {
    if |rows| == 0 then Absent
    else if |rows| == 1 then Found(rows[0])
    else NotUnique
  }

  /** No two rows at different positions agree on `key`: a unique column. */
  predicate DistinctOn<T, K(==)>(s: seq<T>, key: T -> K) {
    forall i, j :: 0 <= i < j < |s| ==> key(s[i]) != key(s[j])
  }

  /** At most one row satisfies `p`. */
  predicate AtMostOneMatch<T>(s: seq<T>, p: T -> bool) {
    forall i, j :: 0 <= i < j < |s| && p(s[i]) ==> !p(s[j])
  }

  /** Filtering distributes over appending rows. */
  lemma {:induction false} FilterAppend<T(!new)>(a: seq<T>, b: seq<T>, p: T -> bool)
    ensures Filter(a + b, p) == Filter(a, p) + Filter(b, p)
  {
    if |a| == 0 {
      assert a + b == b;
    } else {
      assert (a + b)[0] == a[0];
      assert (a + b)[1..] == a[1..] + b;
      FilterAppend(a[1..], b, p);
    }
  }

  /** A filter that every row passes keeps the table as it is. */
  lemma {:induction false} FilterKeepsAll<T(!new)>(s: seq<T>, p: T -> bool)
    requires forall i :: 0 <= i < |s| ==> p(s[i])
    ensures Filter(s, p) == s
  {
    if |s| > 0 {
      FilterKeepsAll(s[1..], p);
    }
  }

  /** A filter that no row passes returns nothing. */
  lemma {:induction false} FilterNone<T(!new)>(s: seq<T>, p: T -> bool)
    requires forall i :: 0 <= i < |s| ==> !p(s[i])
    ensures Filter(s, p) == []
  {
    if |s| > 0 {
      FilterNone(s[1..], p);
    }
  }

  /** Running the same filter twice is the same as running it once. */
  lemma FilterIdempotent<T(!new)>(s: seq<T>, p: T -> bool)
    ensures Filter(Filter(s, p), p) == Filter(s, p)
  {
    var r := Filter(s, p);
    forall i | 0 <= i < |r|
      ensures p(r[i])
    {
      assert r[i] in r;
    }
    FilterKeepsAll(r, p);
  }

  /** When at most one row can match, a filter finds at most one row. */
  lemma {:induction false} FilterAtMostOne<T(!new)>(s: seq<T>, p: T -> bool)
    requires AtMostOneMatch(s, p)
    ensures |Filter(s, p)| <= 1
  {
    if |s| > 0 {
      var tail := s[1..];
      assert AtMostOneMatch(tail, p) by {
        forall i, j | 0 <= i < j < |tail| && p(tail[i])
          ensures !p(tail[j])
        {
          assert tail[i] == s[i + 1] && tail[j] == s[j + 1];
        }
      }
      if p(s[0]) {
        forall k | 0 <= k < |tail|
          ensures !p(tail[k])
        {
          assert tail[k] == s[k + 1];
        }
        FilterNone(tail, p);
      } else {
        FilterAtMostOne(tail, p);
      }
    }
  }

  /** When at most one row can match and row `i` does, the filter returns that row alone. */
  lemma {:induction false} FilterSingleMatch<T(!new)>(s: seq<T>, p: T -> bool, i: nat)
    requires AtMostOneMatch(s, p) && i < |s| && p(s[i])
    ensures Filter(s, p) == [s[i]]
  {
    var tail := s[1..];
    if i == 0 {
      forall k | 0 <= k < |tail|
        ensures !p(tail[k])
      {
        assert tail[k] == s[k + 1];
      }
      FilterNone(tail, p);
    } else {
      assert !p(s[0]);
      assert AtMostOneMatch(tail, p) by {
        forall j, k | 0 <= j < k < |tail| && p(tail[j])
          ensures !p(tail[k])
        {
          assert tail[j] == s[j + 1] && tail[k] == s[k + 1];
        }
      }
      assert tail[i - 1] == s[i];
      FilterSingleMatch(tail, p, i - 1);
    }
  }

  /** Two matching rows make the filter return at least two rows. */
  lemma {:induction false} FilterTwoMatches<T(!new)>(s: seq<T>, p: T -> bool, i: nat, j: nat)
    requires i < j < |s| && p(s[i]) && p(s[j])
    ensures |Filter(s, p)| >= 2
  {
    var tail := s[1..];
    assert tail[j - 1] == s[j];
    if i == 0 {
      assert s[j] in Filter(tail, p);
    } else {
      assert tail[i - 1] == s[i];
      FilterTwoMatches(tail, p, i - 1, j - 1);
    }
  }

  /** A filter keeps a unique column unique. */
  lemma {:induction false} FilterDistinctOn<T(!new), K>(s: seq<T>, p: T -> bool, key: T -> K)
    requires DistinctOn(s, key)
    ensures DistinctOn(Filter(s, p), key)
  {
    if |s| > 0 {
      var tail := s[1..];
      assert DistinctOn(tail, key) by {
        forall i, j | 0 <= i < j < |tail|
          ensures key(tail[i]) != key(tail[j])
        {
          assert tail[i] == s[i + 1] && tail[j] == s[j + 1];
        }
      }
      FilterDistinctOn(tail, p, key);
      var rest := Filter(tail, p);
      if p(s[0]) {
        var r := [s[0]] + rest;
        forall i, j | 0 <= i < j < |r|
          ensures key(r[i]) != key(r[j])
        {
          if i == 0 {
            assert r[j] == rest[j - 1] && rest[j - 1] in rest;
            var k :| 0 <= k < |tail| && tail[k] == rest[j - 1];
            assert s[k + 1] == r[j];
          } else {
            assert r[i] == rest[i - 1] && r[j] == rest[j - 1];
          }
        }
      }
    }
  }
}
