/** Python's `sorted(xs, key=k)`: a stable sort by key.

    The model sorts by insertion, the definition in which stability is
    easiest to see: each element, taken left to right, goes in front of the
    first already-placed element whose key is strictly greater, so it lands
    after every element with an equal key that came before it. */
module Sorting {
  import opened Keys

  /** Keys never decrease from left to right. */
  ghost predicate SortedBy<T>(s: seq<T>, key: T -> Key) {
    forall i, j :: 0 <= i < j < |s| ==> !KeyLess(key(s[j]), key(s[i]))
  }

  /** The elements of `s` whose key is `k`, in their order in `s`. */
  function WithKey<T>(s: seq<T>, key: T -> Key, k: Key): (r: seq<T>)
    ensures |r| <= |s|
  {
    if |s| == 0 then []
    else WithKey(s[..|s| - 1], key, k) + (if key(s[|s| - 1]) == k then [s[|s| - 1]] else [])
  }

  /** Stability: elements with equal keys keep their relative order. */
  ghost predicate StableOf<T>(s: seq<T>, r: seq<T>, key: T -> Key) {
    forall k :: WithKey(r, key, k) == WithKey(s, key, k)
  }

  /** Inserts `x` in front of the first element of `t` whose key is
      strictly greater than `x`'s. */
  function Insert<T>(x: T, t: seq<T>, key: T -> Key): (r: seq<T>)
    ensures multiset(r) == multiset(t) + multiset{x}
    ensures |r| == |t| + 1
  {
    if |t| == 0 then [x]
    else if KeyLess(key(x), key(t[0])) then [x] + t
    else
      assert t == [t[0]] + t[1..];
      [t[0]] + Insert(x, t[1..], key)
  }

  function SortBy<T>(s: seq<T>, key: T -> Key): (r: seq<T>)
    ensures multiset(r) == multiset(s)
    ensures |r| == |s|
  {
    if |s| == 0 then []
    else
      assert s == s[..|s| - 1] + [s[|s| - 1]];
      Insert(s[|s| - 1], SortBy(s[..|s| - 1], key), key)
  }

  /** No key in `s` is strictly below `lo`. */
  ghost predicate AllAtLeast<T>(s: seq<T>, key: T -> Key, lo: Key) {
    forall j :: 0 <= j < |s| ==> !KeyLess(key(s[j]), lo)
  }

  lemma {:induction false} InsertSorted<T>(x: T, t: seq<T>, key: T -> Key)
    requires SortedBy(t, key)
    ensures SortedBy(Insert(x, t, key), key)
    decreases |t|
  {
    if |t| == 0 {
    } else if KeyLess(key(x), key(t[0])) {
      InsertSortedFront(x, t, key);
    } else {
      assert SortedBy(t[1..], key);
      InsertSorted(x, t[1..], key);
      InsertAtLeast(x, t[1..], key, key(t[0]));
      ConsSorted(t[0], Insert(x, t[1..], key), key);
    }
  }

  /** `x` in front of a sorted `t` whose head key is above `x`'s. */
  lemma InsertSortedFront<T>(x: T, t: seq<T>, key: T -> Key)
    requires SortedBy(t, key)
    requires |t| > 0 && KeyLess(key(x), key(t[0]))
    ensures SortedBy([x] + t, key)
  {
    KeyLessAsymmetric(key(x), key(t[0]));
    forall j | 0 <= j < |t|
      ensures !KeyLess(key(t[j]), key(x))
    {
      if j > 0 {
        assert !KeyLess(key(t[j]), key(t[0]));
      }
      if KeyLess(key(t[j]), key(x)) {
        KeyLessTransitive(key(t[j]), key(x), key(t[0]));
      }
    }
    ConsSorted(x, t, key);
  }

  /** A head no key of a sorted tail falls below makes a sorted whole. */
  lemma ConsSorted<T>(h: T, t: seq<T>, key: T -> Key)
    requires SortedBy(t, key)
    requires AllAtLeast(t, key, key(h))
    ensures SortedBy([h] + t, key)
  {
    var r := [h] + t;
    forall i, j | 0 <= i < j < |r|
      ensures !KeyLess(key(r[j]), key(r[i]))
    {
      assert r[j] == t[j - 1];
      if i > 0 {
        assert r[i] == t[i - 1];
      }
    }
  }

  /** Inserting keeps a lower bound both `x` and `t` respect. */
  lemma {:induction false} InsertAtLeast<T>(x: T, t: seq<T>, key: T -> Key, lo: Key)
    requires AllAtLeast(t, key, lo)
    requires !KeyLess(key(x), lo)
    ensures AllAtLeast(Insert(x, t, key), key, lo)
    decreases |t|
  {
    if |t| > 0 && !KeyLess(key(x), key(t[0])) {
      var ins := Insert(x, t[1..], key);
      assert AllAtLeast(t[1..], key, lo);
      InsertAtLeast(x, t[1..], key, lo);
      assert Insert(x, t, key) == [t[0]] + ins;
      assert !KeyLess(key(t[0]), lo);
    }
  }

  lemma {:induction false} SortBySorted<T>(s: seq<T>, key: T -> Key)
    ensures SortedBy(SortBy(s, key), key)
    decreases |s|
  {
    if |s| > 0 {
      SortBySorted(s[..|s| - 1], key);
      InsertSorted(s[|s| - 1], SortBy(s[..|s| - 1], key), key);
    }
  }

  lemma {:induction false} WithKeyConcat<T>(a: seq<T>, b: seq<T>, key: T -> Key, k: Key)
    ensures WithKey(a + b, key, k) == WithKey(a, key, k) + WithKey(b, key, k)
    decreases |b|
  {
    if |b| == 0 {
      assert a + b == a;
    } else {
      var b' := b[..|b| - 1];
      assert (a + b)[..|a + b| - 1] == a + b';
      WithKeyConcat(a, b', key, k);
    }
  }

  lemma WithKeySingle<T>(x: T, key: T -> Key, k: Key)
    ensures WithKey([x], key, k) == if key(x) == k then [x] else []
  {
    assert [x][..0] == [];
  }

  /** No element of `t` with key `k` has a key strictly greater than
      `x`'s when `key(x) == k`; so inserting `x` appends it to the
      `k`-subsequence, and leaves every other subsequence alone. */
  lemma {:induction false} InsertWithKey<T>(x: T, t: seq<T>, key: T -> Key, k: Key)
    requires SortedBy(t, key)
    ensures WithKey(Insert(x, t, key), key, k)
         == WithKey(t, key, k) + (if key(x) == k then [x] else [])
    decreases |t|
  {
    if |t| == 0 {
      WithKeySingle(x, key, k);
    } else if KeyLess(key(x), key(t[0])) {
      InsertFront(x, t, key, k);
    } else {
      var rest := t[1..];
      assert SortedBy(rest, key);
      InsertWithKey(x, rest, key, k);
      InsertBehind(x, t, key, k);
    }
  }

  /** `x` goes in front of `t`. */
  lemma InsertFront<T>(x: T, t: seq<T>, key: T -> Key, k: Key)
    requires SortedBy(t, key)
    requires |t| > 0 && KeyLess(key(x), key(t[0]))
    ensures WithKey(Insert(x, t, key), key, k)
         == WithKey(t, key, k) + (if key(x) == k then [x] else [])
  {
    assert Insert(x, t, key) == [x] + t;
    WithKeyConcat([x], t, key, k);
    WithKeySingle(x, key, k);
    if key(x) == k {
      WithKeyEmptyAbove(t, key, k);
    }
  }

  /** `x` goes behind the head of `t`. */
  lemma InsertBehind<T>(x: T, t: seq<T>, key: T -> Key, k: Key)
    requires |t| > 0 && !KeyLess(key(x), key(t[0]))
    requires WithKey(Insert(x, t[1..], key), key, k)
          == WithKey(t[1..], key, k) + (if key(x) == k then [x] else [])
    ensures WithKey(Insert(x, t, key), key, k)
         == WithKey(t, key, k) + (if key(x) == k then [x] else [])
  {
    assert Insert(x, t, key) == [t[0]] + Insert(x, t[1..], key);
    assert t == [t[0]] + t[1..];
    ConsWithKey(t[0], Insert(x, t[1..], key), t[1..], key, k, if key(x) == k then [x] else []);
  }

  /** A common head keeps a relation between `k`-subsequences. */
  lemma ConsWithKey<T>(h: T, a: seq<T>, b: seq<T>, key: T -> Key, k: Key, extra: seq<T>)
    requires WithKey(a, key, k) == WithKey(b, key, k) + extra
    ensures WithKey([h] + a, key, k) == WithKey([h] + b, key, k) + extra
  {
    WithKeyConcat([h], a, key, k);
    WithKeyConcat([h], b, key, k);
  }

  /** In a sorted sequence whose first key is strictly above `k`, no
      element has key `k`. */
  lemma {:induction false} WithKeyEmptyAbove<T>(t: seq<T>, key: T -> Key, k: Key)
    requires SortedBy(t, key)
    requires |t| > 0 && KeyLess(k, key(t[0]))
    ensures WithKey(t, key, k) == []
    decreases |t|
  {
    var p := t[..|t| - 1];
    if |p| > 0 {
      assert SortedBy(p, key);
      WithKeyEmptyAbove(p, key, k);
    }
    assert key(t[|t| - 1]) != k by {
      if |t| == 1 {
        KeyLessIrreflexive(k);
      }
    }
  }

  lemma {:induction false} SortByStable<T>(s: seq<T>, key: T -> Key)
    ensures StableOf(s, SortBy(s, key), key)
    decreases |s|
  {
    if |s| > 0 {
      var p := s[..|s| - 1];
      SortByStable(p, key);
      SortBySorted(p, key);
      forall k
        ensures WithKey(SortBy(s, key), key, k) == WithKey(s, key, k)
      {
        InsertWithKey(s[|s| - 1], SortBy(p, key), key, k);
      }
    }
  }

  /** The sort is a stable permutation into key order. */
  lemma SortByCorrect<T>(s: seq<T>, key: T -> Key)
    ensures multiset(SortBy(s, key)) == multiset(s)
    ensures SortedBy(SortBy(s, key), key)
    ensures StableOf(s, SortBy(s, key), key)
  {
    SortBySorted(s, key);
    SortByStable(s, key);
  }
}
