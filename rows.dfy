/** Row-level operations on a table held as a sequence of records: the
    `WHERE` of a `SELECT`, the `WHERE` of a `DELETE` and `OFFSET`/`LIMIT`. */
module Rows {
  import opened Wrappers

  /** The rows of `s` that satisfy `p`, in table order (`SELECT ... WHERE p`). */
  function Filter<T(!new)>(s: seq<T>, p: T -> bool): (r: seq<T>)
    ensures |r| <= |s|
    ensures forall x :: x in r <==> x in s && p(x)
  {
    if s == [] then []
    else if p(s[0]) then [s[0]] + Filter(s[1..], p)
    else Filter(s[1..], p)
  }

  /** The rows of `s` that survive `DELETE ... WHERE p`. */
  function Reject<T(!new)>(s: seq<T>, p: T -> bool): (r: seq<T>)
    ensures |r| <= |s|
    ensures forall x :: x in r <==> x in s && !p(x)
  {
    Filter(s, x => !p(x))
  }

  /** Row `i` is the only row of `s` that satisfies `p`. */
  ghost predicate OnlyMatch<T>(s: seq<T>, p: T -> bool, i: int) {
    0 <= i < |s| && p(s[i]) && forall j :: 0 <= j < |s| && p(s[j]) ==> j == i
  }

  /** Exactly one row of `s` satisfies `p`: the condition `rowCount === 1`. */
  ghost predicate ExactlyOne<T>(s: seq<T>, p: T -> bool) {
    exists i :: OnlyMatch(s, p, i)
  }

  /** No two rows of `s` share a key. */
  ghost predicate UniqueKeys<T, K>(s: seq<T>, key: T -> K) {
    forall i, j :: 0 <= i < j < |s| ==> key(s[i]) != key(s[j])
  }

  /** Past a first row that fails `p`, the only match moves down by one. */
  lemma OnlyMatchTail<T>(s: seq<T>, p: T -> bool)
    requires s != [] && !p(s[0])
    ensures ExactlyOne(s, p) <==> ExactlyOne(s[1..], p)
  {
    var t := s[1..];
    if ExactlyOne(s, p) {
      var i :| OnlyMatch(s, p, i);
      assert i > 0;
      forall j | 0 <= j < |t| && p(t[j])
        ensures j == i - 1
      {
        assert s[j + 1] == t[j];
      }
      assert OnlyMatch(t, p, i - 1);
    }
    if ExactlyOne(t, p) {
      var i :| OnlyMatch(t, p, i);
      forall j | 0 <= j < |s| && p(s[j])
        ensures j == i + 1
      {
        assert t[j - 1] == s[j];
      }
      assert OnlyMatch(s, p, i + 1);
    }
  }

  /** When the first row satisfies `p`, it is the only match exactly when no
      later row matches. */
  lemma OnlyMatchHead<T(!new)>(s: seq<T>, p: T -> bool)
    requires s != [] && p(s[0])
    ensures ExactlyOne(s, p) <==> Filter(s[1..], p) == []
  {
    var t := s[1..];
    if Filter(t, p) == [] {
      assert OnlyMatch(s, p, 0);
    } else {
      var x := Filter(t, p)[0];
      assert x in t && p(x);
      var k :| 0 <= k < |t| && t[k] == x;
      assert s[k + 1] == x;
      assert !ExactlyOne(s, p);
    }
  }

  /** The number of rows a `SELECT ... WHERE p` returns is one exactly when
      one row matches, and that row is then the one returned. */
  lemma {:induction false} FilterSingleton<T(!new)>(s: seq<T>, p: T -> bool)
    ensures |Filter(s, p)| == 1 <==> ExactlyOne(s, p)
    ensures |Filter(s, p)| == 1 ==> forall i :: 0 <= i < |s| && p(s[i]) ==> Filter(s, p)[0] == s[i]
  {
    if s != [] {
      var t := s[1..];
      if p(s[0]) {
        assert Filter(s, p) == [s[0]] + Filter(t, p);
        OnlyMatchHead(s, p);
      } else {
        FilterSingleton(t, p);
        OnlyMatchTail(s, p);
        assert Filter(s, p) == Filter(t, p);
        forall i | 0 <= i < |s| && p(s[i])
          ensures |Filter(s, p)| == 1 ==> Filter(s, p)[0] == s[i]
        {
          assert i > 0 && s[i] == t[i - 1];
        }
      }
    }
  }

  /** When keys are unique, a row that has key `k` is the only row that
      satisfies a condition meaning "has key `k`". */
  lemma UniqueKeyMatch<T, K>(s: seq<T>, key: T -> K, p: T -> bool, i: nat)
    requires UniqueKeys(s, key)
    requires i < |s| && p(s[i])
    requires forall j :: 0 <= j < |s| && p(s[j]) ==> key(s[j]) == key(s[i])
    ensures OnlyMatch(s, p, i) && ExactlyOne(s, p)
  {
  }

  /** Filtering keeps keys unique. */
  lemma {:induction false} FilterKeepsUniqueKeys<T(!new), K>(s: seq<T>, p: T -> bool, key: T -> K)
    requires UniqueKeys(s, key)
    ensures UniqueKeys(Filter(s, p), key)
  {
    if s != [] {
      var t := s[1..];
      assert UniqueKeys(t, key) by {
        forall i, j | 0 <= i < j < |t|
          ensures key(t[i]) != key(t[j])
        {
          assert t[i] == s[i + 1] && t[j] == s[j + 1];
        }
      }
      FilterKeepsUniqueKeys(t, p, key);
      if p(s[0]) {
        var r := Filter(s, p);
        assert r == [s[0]] + Filter(t, p);
        forall i, j | 0 <= i < j < |r|
          ensures key(r[i]) != key(r[j])
        {
          if i == 0 {
            assert r[j] == Filter(t, p)[j - 1];
            assert r[j] in t;
            var k :| 0 <= k < |t| && t[k] == r[j];
            assert s[k + 1] == r[j];
          } else {
            assert r[i] == Filter(t, p)[i - 1] && r[j] == Filter(t, p)[j - 1];
          }
        }
      } else {
        assert Filter(s, p) == Filter(t, p);
      }
    }
  }

  /** Deleting rows keeps keys unique. */
  lemma RejectKeepsUniqueKeys<T(!new), K>(s: seq<T>, p: T -> bool, key: T -> K)
    requires UniqueKeys(s, key)
    ensures UniqueKeys(Reject(s, p), key)
  {
    FilterKeepsUniqueKeys(s, x => !p(x), key);
  }

  /** `OFFSET offset LIMIT limit` over the rows in table order; a missing
      limit (`LIMIT NULL`) returns every row from the offset on. */
  function Window<T>(s: seq<T>, offset: nat, limit: Option<nat>): (r: seq<T>)
    ensures limit.Some? ==> |r| <= limit.value
    ensures offset >= |s| ==> r == []
    ensures offset < |s| && (limit.None? || |s| - offset <= limit.value) ==> |r| == |s| - offset
    ensures limit.Some? && offset + limit.value <= |s| ==> |r| == limit.value
    ensures forall i :: 0 <= i < |r| ==> offset + i < |s| && r[i] == s[offset + i]
  {
    var lo := if offset < |s| then offset else |s|;
    var hi := if limit.None? || lo + limit.value > |s| then |s| else lo + limit.value;
    s[lo..hi]
  }
}
