/**
 * Python's `list.sort(key=..., reverse=True)` on integer keys: a stable sort
 * into non-increasing key order. Elements with equal keys keep their
 * original relative order (Python keeps stability under `reverse=True`).
 *
 * The definition is an insertion sort; what makes it the reference is the
 * pair of facts proved below: the result is in non-increasing key order, and
 * for every key the elements carrying it appear in the same order as in the
 * input. Together these fix the result completely (SortDescUnique).
 */
module StableSort {

  /** Each key is at least the next one. */
  predicate Descending<T>(s: seq<T>, key: T -> int) {
    |s| < 2 || (key(s[0]) >= key(s[1]) && Descending(s[1..], key))
  }

  /** The elements of `s` whose key is `k`, in order. */
  function WithKey<T>(s: seq<T>, key: T -> int, k: int): seq<T> {
    if s == [] then []
    else (if key(s[0]) == k then [s[0]] else []) + WithKey(s[1..], key, k)
  }

  /** Puts `x` in front of the first element whose key is not above its own. */
  function Insert<T>(x: T, s: seq<T>, key: T -> int): (r: seq<T>)
    ensures |r| == |s| + 1
    ensures multiset(r) == multiset(s) + multiset{x}
    ensures r[0] == x || (s != [] && r[0] == s[0])
  {
    if s == [] || key(s[0]) <= key(x) then [x] + s
    else
      var rest := Insert(x, s[1..], key);
      assert s == [s[0]] + s[1..];
      [s[0]] + rest
  }

  lemma {:induction false} InsertDescending<T>(x: T, s: seq<T>, key: T -> int)
    requires Descending(s, key)
    ensures Descending(Insert(x, s, key), key)
  {
    if s != [] && key(s[0]) > key(x) {
      InsertDescending(x, s[1..], key);
      var rest := Insert(x, s[1..], key);
      assert Insert(x, s, key) == [s[0]] + rest;
      assert ([s[0]] + rest)[1..] == rest;
    } else {
      assert ([x] + s)[1..] == s;
    }
  }

  lemma {:induction false} WithKeyAppend<T>(a: seq<T>, b: seq<T>, key: T -> int, k: int)
    ensures WithKey(a + b, key, k) == WithKey(a, key, k) + WithKey(b, key, k)
  {
    if a == [] {
      assert a + b == b;
    } else {
      var head := if key(a[0]) == k then [a[0]] else [];
      var x, y := WithKey(a[1..], key, k), WithKey(b, key, k);
      assert (a + b)[0] == a[0];
      assert (a + b)[1..] == a[1..] + b;
      assert WithKey(a + b, key, k) == head + WithKey(a[1..] + b, key, k);
      WithKeyAppend(a[1..], b, key, k);
      assert head + (x + y) == (head + x) + y;
    }
  }

  /** Inserting `x` puts it in front of every element sharing its key. */
  lemma {:induction false} InsertWithKey<T>(x: T, s: seq<T>, key: T -> int, k: int)
    ensures WithKey(Insert(x, s, key), key, k) ==
      if key(x) == k then [x] + WithKey(s, key, k) else WithKey(s, key, k)
  {
    if s == [] || key(s[0]) <= key(x) {
      WithKeyAppend([x], s, key, k);
      assert WithKey([x], key, k) == (if key(x) == k then [x] else []) + WithKey([], key, k);
    } else {
      var rest := Insert(x, s[1..], key);
      InsertWithKey(x, s[1..], key, k);
      WithKeyAppend([s[0]], rest, key, k);
      assert WithKey([s[0]], key, k) == (if key(s[0]) == k then [s[0]] else []) + WithKey([], key, k);
      if key(x) == k {
        assert key(s[0]) != k;
      }
    }
  }

  /** The stable descending sort. */
  function SortDesc<T>(s: seq<T>, key: T -> int): (r: seq<T>)
    ensures |r| == |s|
    ensures multiset(r) == multiset(s)
    ensures Descending(r, key)
  {
    if s == [] then []
    else
      var rest := SortDesc(s[1..], key);
      InsertDescending(s[0], rest, key);
      assert s == [s[0]] + s[1..];
      Insert(s[0], rest, key)
  }

  /** Stability: for every key, the elements carrying it keep their order. */
  lemma {:induction false} SortDescStable<T>(s: seq<T>, key: T -> int, k: int)
    ensures WithKey(SortDesc(s, key), key, k) == WithKey(s, key, k)
  {
    if s != [] {
      SortDescStable(s[1..], key, k);
      InsertWithKey(s[0], SortDesc(s[1..], key), key, k);
    }
  }

  /** Elements with equal keys stand in increasing `rank`. */
  predicate TiesOrdered<T>(s: seq<T>, key: T -> int, rank: T -> int) {
    forall i, j :: 0 <= i < j < |s| && key(s[i]) == key(s[j]) ==> rank(s[i]) < rank(s[j])
  }

  /** Putting in front an element that ranks below its equal-keyed followers
      keeps ties in rank order. */
  lemma TiesOrderedCons<T>(x: T, s: seq<T>, key: T -> int, rank: T -> int)
    requires TiesOrdered(s, key, rank)
    requires forall y :: y in s && key(y) == key(x) ==> rank(x) < rank(y)
    ensures TiesOrdered([x] + s, key, rank)
  {
    var r := [x] + s;
    forall i, j | 0 <= i < j < |r| && key(r[i]) == key(r[j])
      ensures rank(r[i]) < rank(r[j])
    {
      assert r[j] == s[j - 1];
      if i > 0 {
        assert r[i] == s[i - 1];
      }
    }
  }

  /** The head of a tie-ordered sequence ranks below its equal-keyed followers. */
  lemma HeadRanksFirst<T>(s: seq<T>, key: T -> int, rank: T -> int, y: T)
    requires TiesOrdered(s, key, rank) && s != []
    requires y in s[1..] && key(y) == key(s[0])
    ensures rank(s[0]) < rank(y)
  {
    var k :| 0 <= k < |s[1..]| && s[1..][k] == y;
    assert s[k + 1] == y;
  }

  /** Inserting an element that ranks below everything keeps ties in rank order. */
  lemma {:induction false} InsertTiesOrdered<T>(x: T, s: seq<T>, key: T -> int, rank: T -> int)
    requires TiesOrdered(s, key, rank)
    requires forall y :: y in s ==> rank(x) < rank(y)
    ensures TiesOrdered(Insert(x, s, key), key, rank)
  {
    if s == [] || key(s[0]) <= key(x) {
      TiesOrderedCons(x, s, key, rank);
    } else {
      var rest := Insert(x, s[1..], key);
      assert TiesOrdered(s[1..], key, rank) by {
        forall i, j | 0 <= i < j < |s[1..]| && key(s[1..][i]) == key(s[1..][j])
          ensures rank(s[1..][i]) < rank(s[1..][j])
        {
          assert s[1..][i] == s[i + 1] && s[1..][j] == s[j + 1];
        }
      }
      forall y | y in s[1..] ensures rank(x) < rank(y) {
        assert y in s;
      }
      InsertTiesOrdered(x, s[1..], key, rank);
      forall y | y in rest && key(y) == key(s[0]) ensures rank(s[0]) < rank(y) {
        assert y in multiset(rest);
        if y != x {
          assert y in multiset(s[1..]);
          HeadRanksFirst(s, key, rank, y);
        }
      }
      TiesOrderedCons(s[0], rest, key, rank);
    }
  }

  /** Stability, positionally: when the input stands in increasing rank,
      elements with equal keys leave the sort in increasing rank. */
  lemma {:induction false} SortDescTiesOrdered<T>(s: seq<T>, key: T -> int, rank: T -> int)
    requires forall i, j :: 0 <= i < j < |s| ==> rank(s[i]) < rank(s[j])
    ensures TiesOrdered(SortDesc(s, key), key, rank)
  {
    if s != [] {
      SortDescTiesOrdered(s[1..], key, rank);
      var rest := SortDesc(s[1..], key);
      forall y | y in rest ensures rank(s[0]) < rank(y) {
        assert y in multiset(s[1..]);
        var k :| 0 <= k < |s[1..]| && s[1..][k] == y;
        assert s[k + 1] == y;
      }
      InsertTiesOrdered(s[0], rest, key, rank);
    }
  }

  /** Descending order, stated between any two positions. */
  lemma {:induction false} DescendingPairwise<T>(s: seq<T>, key: T -> int, i: int, j: int)
    requires Descending(s, key) && 0 <= i <= j < |s|
    ensures key(s[i]) >= key(s[j])
    decreases |s|
  {
    if i < j {
      if i == 0 {
        if j > 1 {
          DescendingPairwise(s[1..], key, 0, j - 1);
        }
      } else {
        DescendingPairwise(s[1..], key, i - 1, j - 1);
      }
    }
  }

  lemma {:induction false} WithKeyMembers<T>(s: seq<T>, key: T -> int, k: int, x: T)
    requires x in WithKey(s, key, k)
    ensures x in s && key(x) == k
  {
    var h := if key(s[0]) == k then [s[0]] else [];
    assert WithKey(s, key, k) == h + WithKey(s[1..], key, k);
    if x !in h {
      WithKeyMembers(s[1..], key, k, x);
    }
  }

  lemma {:induction false} DescendingHeadIsMax<T>(s: seq<T>, key: T -> int, x: T)
    requires Descending(s, key) && x in s
    ensures key(x) <= key(s[0])
  {
    var j :| 0 <= j < |s| && s[j] == x;
    DescendingPairwise(s, key, 0, j);
  }

  lemma NonEmptyWithKey<T>(s: seq<T>, key: T -> int)
    requires s != []
    ensures WithKey(s, key, key(s[0])) != []
  {
  }

  /** Two descending sequences that agree on the elements of every key, in
      order, are equal. */
  lemma {:induction false} DescendingDeterminedByKeys<T>(a: seq<T>, b: seq<T>, key: T -> int)
    requires Descending(a, key) && Descending(b, key)
    requires forall k :: WithKey(a, key, k) == WithKey(b, key, k)
    ensures a == b
    decreases |a| + |b|
  {
    if a == [] && b != [] {
      NonEmptyWithKey(b, key);
      assert false;
    } else if a != [] && b == [] {
      NonEmptyWithKey(a, key);
      assert false;
    } else if a != [] && b != [] {
      var ka, kb := key(a[0]), key(b[0]);
      assert WithKey(a, key, ka)[0] == a[0];
      assert a[0] in WithKey(b, key, ka);
      WithKeyMembers(b, key, ka, a[0]);
      DescendingHeadIsMax(b, key, a[0]);
      assert WithKey(b, key, kb)[0] == b[0];
      assert b[0] in WithKey(a, key, kb);
      WithKeyMembers(a, key, kb, b[0]);
      DescendingHeadIsMax(a, key, b[0]);
      assert ka == kb;
      assert a[0] == b[0];
      forall k ensures WithKey(a[1..], key, k) == WithKey(b[1..], key, k) {
        var h := if ka == k then [a[0]] else [];
        var wa, wb := WithKey(a[1..], key, k), WithKey(b[1..], key, k);
        assert WithKey(a, key, k) == h + wa;
        assert WithKey(b, key, k) == h + wb;
        assert (h + wa)[|h|..] == wa;
        assert (h + wb)[|h|..] == wb;
      }
      DescendingDeterminedByKeys(a[1..], b[1..], key);
      assert a == [a[0]] + a[1..];
      assert b == [b[0]] + b[1..];
    }
  }

  /** Any stable descending arrangement of `s` is SortDesc(s). */
  lemma SortDescUnique<T>(s: seq<T>, r: seq<T>, key: T -> int)
    requires Descending(r, key)
    requires forall k :: WithKey(r, key, k) == WithKey(s, key, k)
    ensures r == SortDesc(s, key)
  {
    forall k ensures WithKey(r, key, k) == WithKey(SortDesc(s, key), key, k) {
      SortDescStable(s, key, k);
    }
    DescendingDeterminedByKeys(r, SortDesc(s, key), key);
  }
}
