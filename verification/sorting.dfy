/** A stable insertion sort by a natural-number key, specified as "a
    permutation of the input, ascending by key, elements of equal key kept
    in input order"; those conditions determine the result. */
module Sorting {
  import opened Seqs

  predicate SortedBy<T>(s: seq<T>, key: T -> nat) {
    forall i, j :: 0 <= i < j < |s| ==> key(s[i]) <= key(s[j])
  }

  /** Inserts `x` before the first element whose key is not smaller. */
  function InsertBy<T(==)>(x: T, s: seq<T>, key: T -> nat): (r: seq<T>)
    ensures multiset(r) == multiset(s) + multiset{x}
    ensures |r| == |s| + 1
    ensures forall i :: 0 <= i < |r| ==> r[i] == x || r[i] in s
  {
    if |s| == 0 then [x]
    else if key(x) <= key(s[0]) then [x] + s
    else
      assert s == [s[0]] + s[1..];
      [s[0]] + InsertBy(x, s[1..], key)
  }

  lemma {:induction false} InsertBySorted<T>(x: T, s: seq<T>, key: T -> nat)
    requires SortedBy(s, key)
    ensures SortedBy(InsertBy(x, s, key), key)
  {
    if |s| > 0 && key(x) > key(s[0]) {
      var rest := InsertBy(x, s[1..], key);
      InsertBySorted(x, s[1..], key);
      forall i | 0 <= i < |rest|
        ensures key(s[0]) <= key(rest[i])
      {
        if rest[i] != x {
          var k :| 0 <= k < |s[1..]| && s[1..][k] == rest[i];
          assert s[k + 1] == rest[i];
        }
      }
    }
  }

  /** The elements of `s` whose key is `k`, in the order of `s`. */
  function WithKey<T>(s: seq<T>, key: T -> nat, k: nat): (r: seq<T>)
    ensures |r| <= |s|
  {
    if |s| == 0 then [] else (if key(s[0]) == k then [s[0]] else []) + WithKey(s[1..], key, k)
  }

  /** What `WithKey` picks: elements of `s`, each of key `k`. */
  lemma {:induction false} WithKeyPicks<T>(s: seq<T>, key: T -> nat, k: nat, i: nat)
    requires i < |WithKey(s, key, k)|
    ensures WithKey(s, key, k)[i] in s && key(WithKey(s, key, k)[i]) == k
  {
    var rest := WithKey(s[1..], key, k);
    if key(s[0]) == k && i == 0 {
    } else {
      var j := if key(s[0]) == k then i - 1 else i;
      assert WithKey(s, key, k)[i] == rest[j];
      WithKeyPicks(s[1..], key, k, j);
    }
  }

  /** Stability: every group of equal-key elements appears in `r` in the
      order it has in `s`. */
  ghost predicate KeepsTies<T>(r: seq<T>, s: seq<T>, key: T -> nat) {
    forall k: nat :: WithKey(r, key, k) == WithKey(s, key, k)
  }

  lemma WithKeyCons<T>(x: T, s: seq<T>, key: T -> nat, k: nat)
    ensures WithKey([x] + s, key, k) == (if key(x) == k then [x] else []) + WithKey(s, key, k)
  {
    assert ([x] + s)[0] == x && ([x] + s)[1..] == s;
  }

  /** `x` goes after the elements it skips, whose keys are smaller, and so
      ahead of every element of its own key. */
  lemma {:induction false} InsertByKeepsTies<T>(x: T, s: seq<T>, key: T -> nat, k: nat)
    ensures WithKey(InsertBy(x, s, key), key, k) == (if key(x) == k then [x] else []) + WithKey(s, key, k)
  {
    if |s| == 0 {
      WithKeyCons(x, [], key, k);
    } else if key(x) <= key(s[0]) {
      WithKeyCons(x, s, key, k);
    } else {
      var rest := InsertBy(x, s[1..], key);
      assert InsertBy(x, s, key) == [s[0]] + rest;
      InsertByKeepsTies(x, s[1..], key, k);
      WithKeyCons(s[0], rest, key, k);
      WithKeyCons(s[0], s[1..], key, k);
      assert s == [s[0]] + s[1..];
      var tail := WithKey(s[1..], key, k);
      if key(x) == k {
        assert key(s[0]) != k;
        assert WithKey(s, key, k) == tail;
        assert WithKey(InsertBy(x, s, key), key, k) == [] + ([x] + tail);
      } else {
        assert WithKey(rest, key, k) == [] + tail;
      }
    }
  }

  /** Python's `sorted(s, key=key)`: stable. */
  function SortBy<T(==)>(s: seq<T>, key: T -> nat): (r: seq<T>)
    ensures multiset(r) == multiset(s)
    ensures |r| == |s|
    ensures SortedBy(r, key)
    ensures KeepsTies(r, s, key)
  {
    if |s| == 0 then []
    else
      assert s == [s[0]] + s[1..];
      var rest := SortBy(s[1..], key);
      InsertBySorted(s[0], rest, key);
      var r := InsertBy(s[0], rest, key);
      assert KeepsTies(r, s, key) by {
        forall k: nat
          ensures WithKey(r, key, k) == WithKey(s, key, k)
        {
          InsertByKeepsTies(s[0], rest, key, k);
          WithKeyCons(s[0], s[1..], key, k);
        }
      }
      r
  }

  /** The head of a sorted sequence has the smallest key: any element with
      key `k` forces `key(s[0]) <= k`. */
  lemma HeadKeyIsLeast<T>(s: seq<T>, key: T -> nat, k: nat)
    requires SortedBy(s, key) && |WithKey(s, key, k)| > 0
    ensures |s| > 0 && key(s[0]) <= k
  {
    var y := WithKey(s, key, k)[0];
    WithKeyPicks(s, key, k, 0);
    var i :| 0 <= i < |s| && s[i] == y;
  }

  /** Sequences agreeing on every group of equal keys are empty together. */
  lemma NonEmptyAlike<T>(a: seq<T>, b: seq<T>, key: T -> nat)
    requires KeepsTies(a, b, key)
    ensures |a| > 0 ==> |b| > 0
  {
    if |a| > 0 {
      var k := key(a[0]);
      assert WithKey(a, key, k) == [a[0]] + WithKey(a[1..], key, k);
      assert |WithKey(b, key, k)| > 0;
    }
  }

  /** Sorting stably has one answer: two sequences sorted by key that agree
      on every group of equal keys are equal. */
  lemma {:induction false} StableSortIsUnique<T>(a: seq<T>, b: seq<T>, key: T -> nat)
    requires SortedBy(a, key) && SortedBy(b, key)
    requires KeepsTies(a, b, key)
    ensures a == b
    decreases |a| + |b|
  {
    NonEmptyAlike(a, b, key);
    assert KeepsTies(b, a, key);
    NonEmptyAlike(b, a, key);
    if |a| > 0 {
      var m := key(a[0]);
      assert WithKey(a, key, m) == [a[0]] + WithKey(a[1..], key, m);
      HeadKeyIsLeast(b, key, m);
      assert WithKey(b, key, key(b[0])) == [b[0]] + WithKey(b[1..], key, key(b[0]));
      HeadKeyIsLeast(a, key, key(b[0]));
      assert key(b[0]) == m;
      assert WithKey(a, key, m) == WithKey(b, key, m);
      assert WithKey(a, key, m)[0] == a[0] && WithKey(b, key, m)[0] == b[0];
      forall k: nat
        ensures WithKey(a[1..], key, k) == WithKey(b[1..], key, k)
      {
        var x := WithKey(a[1..], key, k);
        var y := WithKey(b[1..], key, k);
        assert WithKey(a, key, k) == WithKey(b, key, k);
        if key(a[0]) == k {
          assert [a[0]] + x == [b[0]] + y;
          assert ([a[0]] + x)[1..] == x && ([b[0]] + y)[1..] == y;
        } else {
          assert [] + x == x && [] + y == y;
        }
      }
      StableSortIsUnique(a[1..], b[1..], key);
      assert a == [a[0]] + a[1..] && b == [b[0]] + b[1..];
    }
  }

  /** Sorted with pairwise distinct keys means strictly increasing keys. */
  predicate DistinctKeys<T>(s: seq<T>, key: T -> nat) {
    forall i, j :: 0 <= i < j < |s| ==> key(s[i]) != key(s[j])
  }

  lemma {:induction false} KeysAtLeastPosition<T>(s: seq<T>, key: T -> nat, i: nat)
    requires SortedBy(s, key) && DistinctKeys(s, key) && i < |s|
    ensures key(s[i]) >= i
  {
    if i > 0 {
      KeysAtLeastPosition(s, key, i - 1);
      assert key(s[i - 1]) <= key(s[i]) && key(s[i - 1]) != key(s[i]);
    }
  }

  lemma {:induction false} KeysAtMostPosition<T>(s: seq<T>, key: T -> nat, i: nat)
    requires SortedBy(s, key) && DistinctKeys(s, key) && i < |s|
    requires forall k :: 0 <= k < |s| ==> key(s[k]) < |s|
    ensures key(s[i]) <= i
    decreases |s| - i
  {
    if i < |s| - 1 {
      KeysAtMostPosition(s, key, i + 1);
      assert key(s[i]) <= key(s[i + 1]) && key(s[i]) != key(s[i + 1]);
    }
  }

  /** A sorted sequence of `n` elements whose keys are distinct and below `n`
      carries key `i` at position `i`. */
  lemma SortedDistinctBelowIsIdentity<T>(s: seq<T>, key: T -> nat)
    requires SortedBy(s, key) && DistinctKeys(s, key)
    requires forall k :: 0 <= k < |s| ==> key(s[k]) < |s|
    ensures forall i :: 0 <= i < |s| ==> key(s[i]) == i
  {
    forall i | 0 <= i < |s| ensures key(s[i]) == i {
      KeysAtLeastPosition(s, key, i);
      KeysAtMostPosition(s, key, i);
    }
  }

  lemma {:induction false} UniqueCounts<T>(s: seq<T>, x: T)
    requires NoDup(s)
    ensures multiset(s)[x] <= 1
  {
    if |s| > 0 {
      var init := s[..|s| - 1];
      assert s == init + [s[|s| - 1]];
      UniqueCounts(init, x);
      if x == s[|s| - 1] {
        assert x !in init;
      }
    }
  }

  lemma TwoOccurrences<T>(b: seq<T>, i: nat, j: nat)
    requires i < j < |b| && b[i] == b[j]
    ensures multiset(b)[b[i]] >= 2
  {
    assert b == b[..j] + b[j..];
    assert b[i] in b[..j] && b[j] in b[j..];
    assert multiset(b) == multiset(b[..j]) + multiset(b[j..]);
  }

  /** A permutation of a duplicate-free sequence is duplicate-free. */
  lemma PermutationKeepsNoDup<T>(a: seq<T>, b: seq<T>)
    requires multiset(a) == multiset(b) && NoDup(a)
    ensures NoDup(b)
  {
    forall i, j | 0 <= i < j < |b| ensures b[i] != b[j] {
      if b[i] == b[j] {
        TwoOccurrences(b, i, j);
        UniqueCounts(a, b[i]);
        assert false;
      }
    }
  }
}
