/** Kotlin's `sortedBy`: a stable sort on an integer key, written as an
    insertion sort that puts each element after every element whose key is
    not larger. */
module Sorting {

  predicate SortedBy<T>(s: seq<T>, key: T -> int)
  {
    forall i, j :: 0 <= i < j < |s| ==> key(s[i]) <= key(s[j])
  }

  /** The elements with key `k`, in order. */
  function WithKey<T>(s: seq<T>, key: T -> int, k: int): (r: seq<T>)
    ensures |r| <= |s|
  {
    if |s| == 0 then []
    else WithKey(s[..|s| - 1], key, k) + (if key(s[|s| - 1]) == k then [s[|s| - 1]] else [])
  }

  lemma {:induction false} WithKeyAppend<T>(a: seq<T>, b: seq<T>, key: T -> int, k: int)
    ensures WithKey(a + b, key, k) == WithKey(a, key, k) + WithKey(b, key, k)
    decreases |b|
  {
    if |b| == 0 {
      assert a + b == a;
    } else {
      var ab := a + b;
      assert ab[..|ab| - 1] == a + b[..|b| - 1];
      assert ab[|ab| - 1] == b[|b| - 1];
      WithKeyAppend(a, b[..|b| - 1], key, k);
    }
  }

  /** No element of `s` has key `k`. */
  lemma {:induction false} WithKeyNone<T>(s: seq<T>, key: T -> int, k: int)
    requires forall i :: 0 <= i < |s| ==> key(s[i]) != k
    ensures WithKey(s, key, k) == []
    decreases |s|
  {
    if |s| > 0 {
      WithKeyNone(s[..|s| - 1], key, k);
    }
  }

  lemma WithKeySingle<T>(x: T, key: T -> int, k: int)
    ensures WithKey([x], key, k) == if key(x) == k then [x] else []
  {
    assert [x][..0] == [];
  }

  /** Where `InsertBy` puts `x`: after the last element whose key is at
      most `key(x)`, searching from the end. */
  function InsertPos<T>(s: seq<T>, x: T, key: T -> int): (p: nat)
    ensures p <= |s|
    ensures forall j :: p <= j < |s| ==> key(s[j]) > key(x)
    ensures p > 0 ==> key(s[p - 1]) <= key(x)
  {
    if |s| == 0 then 0
    else if key(s[|s| - 1]) <= key(x) then |s|
    else InsertPos(s[..|s| - 1], x, key)
  }

  /** Insert `x` into a sorted sequence after every element whose key is at
      most `key(x)`. */
  function InsertBy<T>(s: seq<T>, x: T, key: T -> int): (r: seq<T>)
    ensures |r| == |s| + 1
    ensures multiset(r) == multiset(s) + multiset{x}
  {
    var p := InsertPos(s, x, key);
    assert s == s[..p] + s[p..];
    s[..p] + [x] + s[p..]
  }

  /** The element at each index after inserting. */
  lemma InsertByAt<T>(s: seq<T>, x: T, key: T -> int, j: int)
    requires 0 <= j <= |s|
    ensures var i := InsertPos(s, x, key);
      InsertBy(s, x, key)[j] == if j < i then s[j] else if j == i then x else s[j - 1]
  {
    var i := InsertPos(s, x, key);
    assert InsertBy(s, x, key) == s[..i] + [x] + s[i..];
  }

  lemma InsertBySorted<T>(s: seq<T>, x: T, key: T -> int)
    requires SortedBy(s, key)
    ensures SortedBy(InsertBy(s, x, key), key)
  {
    var r := InsertBy(s, x, key);
    var i := InsertPos(s, x, key);
    forall a, b | 0 <= a < b < |r| ensures key(r[a]) <= key(r[b]) {
      InsertByAt(s, x, key, a);
      InsertByAt(s, x, key, b);
      if b == i && a < i {
        assert key(s[a]) <= key(s[i - 1]);
      }
    }
  }

  lemma WithKeyThree<T>(a: seq<T>, x: T, b: seq<T>, key: T -> int, k: int)
    ensures WithKey(a + [x] + b, key, k) == WithKey(a, key, k) + WithKey([x], key, k) + WithKey(b, key, k)
  {
    WithKeyAppend(a + [x], b, key, k);
    WithKeyAppend(a, [x], key, k);
  }

  /** Inserting `x` into a sorted sequence puts it after the elements of
      equal key. */
  lemma WithKeyAround<T>(a: seq<T>, x: T, b: seq<T>, key: T -> int, k: int)
    requires forall j :: 0 <= j < |b| ==> key(b[j]) > key(x)
    ensures WithKey(a + [x] + b, key, k) == WithKey(a + b, key, k) + (if key(x) == k then [x] else [])
  {
    var wa, wx, wb := WithKey(a, key, k), WithKey([x], key, k), WithKey(b, key, k);
    WithKeyThree(a, x, b, key, k);
    WithKeyAppend(a, b, key, k);
    WithKeySingle(x, key, k);
    if key(x) == k {
      WithKeyNone(b, key, k);
      assert wa + wx + wb == (wa + wb) + [x];
    } else {
      assert wa + wx + wb == wa + wb;
    }
  }

  lemma InsertByWithKey<T>(s: seq<T>, x: T, key: T -> int, k: int)
    ensures WithKey(InsertBy(s, x, key), key, k) == WithKey(s, key, k) + (if key(x) == k then [x] else [])
  {
    var i := InsertPos(s, x, key);
    var a, b := s[..i], s[i..];
    assert InsertBy(s, x, key) == a + [x] + b;
    assert s == a + b;
    WithKeyAround(a, x, b, key, k);
  }

  function SortBy<T>(s: seq<T>, key: T -> int): (r: seq<T>)
    ensures |r| == |s|
    ensures multiset(r) == multiset(s)
    decreases |s|
  {
    if |s| == 0 then []
    else
      assert s == s[..|s| - 1] + [s[|s| - 1]];
      InsertBy(SortBy(s[..|s| - 1], key), s[|s| - 1], key)
  }

  /** `sortedBy` orders by key, keeps every element, and keeps the input
      order among elements of equal key (stability). */
  lemma {:induction false} SortByCorrect<T>(s: seq<T>, key: T -> int)
    ensures SortedBy(SortBy(s, key), key)
    ensures forall k :: WithKey(SortBy(s, key), key, k) == WithKey(s, key, k)
    decreases |s|
  {
    if |s| > 0 {
      var init := s[..|s| - 1];
      SortByCorrect(init, key);
      InsertBySorted(SortBy(init, key), s[|s| - 1], key);
      forall k ensures WithKey(SortBy(s, key), key, k) == WithKey(s, key, k) {
        InsertByWithKey(SortBy(init, key), s[|s| - 1], key, k);
      }
    }
  }

  /** Sorting neither adds nor drops an element. */
  lemma SortByMembers<T>(s: seq<T>, key: T -> int)
    ensures forall x :: x in SortBy(s, key) <==> x in s
  {
    var r := SortBy(s, key);
    assert multiset(r) == multiset(s);
    forall x ensures x in r <==> x in s {
      assert x in r <==> x in multiset(r);
      assert x in s <==> x in multiset(s);
    }
  }

  /** A sequence already in order is left as it is. */
  lemma {:induction false} SortBySortedIsIdentity<T>(s: seq<T>, key: T -> int)
    requires SortedBy(s, key)
    ensures SortBy(s, key) == s
    decreases |s|
  {
    if |s| > 0 {
      var init, last := s[..|s| - 1], s[|s| - 1];
      assert s == init + [last];
      assert SortBy(s, key) == InsertBy(SortBy(init, key), last, key);
      SortedSplit(s, key);
      SortBySortedIsIdentity(init, key);
      InsertAtEnd(init, last, key);
    }
  }

  /** The prefix of a sorted sequence is sorted, and its last element is no
      larger than the element after it. */
  lemma SortedSplit<T>(s: seq<T>, key: T -> int)
    requires |s| > 0 && SortedBy(s, key)
    ensures SortedBy(s[..|s| - 1], key)
    ensures |s| > 1 ==> key(s[|s| - 2]) <= key(s[|s| - 1])
  {
    var init := s[..|s| - 1];
    forall i, j | 0 <= i < j < |init| ensures key(init[i]) <= key(init[j]) {
      assert init[i] == s[i] && init[j] == s[j];
    }
  }

  /** An element no smaller than the last goes at the end. */
  lemma InsertAtEnd<T>(s: seq<T>, x: T, key: T -> int)
    requires |s| == 0 || key(s[|s| - 1]) <= key(x)
    ensures InsertBy(s, x, key) == s + [x]
  {
    assert InsertPos(s, x, key) == |s|;
    assert s[..|s|] == s;
    assert s[|s|..] == [];
  }
}
