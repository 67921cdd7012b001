/** Stable sorting by an integer key. The scheduler sorts twice: the
    conflict-graph vertices by degree (descending, ties in registration
    order) and each teacher's and group's list by start time. Both are
    stable sorts, and a stable sort by a key has exactly one possible
    result (StableSortUnique), so the insertion sort below yields the same
    sequence as the Python library sort the generator calls. */
module StableSort {

  /** Keys never decrease from left to right. */
  ghost predicate SortedBy<T>(s: seq<T>, key: T -> int) {
    forall i, j :: 0 <= i < j < |s| ==> key(s[i]) <= key(s[j])
  }

  /** The elements of `s` whose key is `k`, in their order in `s`. */
  function WithKey<T>(s: seq<T>, key: T -> int, k: int): (r: seq<T>)
    ensures |r| <= |s|
  {
    if s == [] then []
    else if key(s[0]) == k then [s[0]] + WithKey(s[1..], key, k)
    else WithKey(s[1..], key, k)
  }

  /** Every element picked for key `k` comes from `s` and has key `k`. */
  lemma {:induction false} WithKeyMembers<T>(s: seq<T>, key: T -> int, k: int, y: T)
    requires y in WithKey(s, key, k)
    ensures y in s && key(y) == k
    decreases |s|
  {
    if s != [] && !(key(s[0]) == k && y == s[0]) {
      assert y in WithKey(s[1..], key, k);
      WithKeyMembers(s[1..], key, k, y);
      assert s == [s[0]] + s[1..];
    }
  }

  /** `r` is `s` sorted by `key`, and elements with equal keys keep their
      relative order from `s`. */
  ghost predicate StableSortOf<T>(r: seq<T>, s: seq<T>, key: T -> int) {
    && SortedBy(r, key)
    && multiset(r) == multiset(s)
    && forall k :: WithKey(r, key, k) == WithKey(s, key, k)
  }

  lemma {:induction false} WithKeyConcat<T>(a: seq<T>, b: seq<T>, key: T -> int, k: int)
    ensures WithKey(a + b, key, k) == WithKey(a, key, k) + WithKey(b, key, k)
    decreases |a|
  {
    if a == [] {
      assert a + b == b;
    } else {
      assert (a + b)[1..] == a[1..] + b;
      WithKeyConcat(a[1..], b, key, k);
    }
  }

  lemma {:induction false} WithKeyNone<T>(s: seq<T>, key: T -> int, k: int)
    requires forall i :: 0 <= i < |s| ==> key(s[i]) != k
    ensures WithKey(s, key, k) == []
    decreases |s|
  {
    if s != [] {
      WithKeyNone(s[1..], key, k);
    }
  }

  /** Inserting `x` just after the last element whose key is at most
      `key(x)` keeps the sequence sorted. */
  lemma InsertKeepsSorted<T>(r: seq<T>, j: nat, x: T, key: T -> int)
    requires SortedBy(r, key) && j <= |r|
    requires j > 0 ==> key(r[j - 1]) <= key(x)
    requires forall m :: j <= m < |r| ==> key(x) < key(r[m])
    ensures SortedBy(r[..j] + [x] + r[j..], key)
  {
    var t := r[..j] + [x] + r[j..];
    forall m | 0 <= m < j ensures key(r[m]) <= key(x) {
      assert key(r[m]) <= key(r[j - 1]);
    }
    forall a, b | 0 <= a < b < |t| ensures key(t[a]) <= key(t[b]) {
      if b < j {
        assert t[a] == r[a] && t[b] == r[b];
      } else if b == j {
        assert t[a] == r[a];
      } else if a == j {
        assert t[b] == r[b - 1];
      } else if a < j {
        assert t[a] == r[a] && t[b] == r[b - 1];
      } else {
        assert t[a] == r[a - 1] && t[b] == r[b - 1];
      }
    }
  }

  /** Inserting `x` in front of elements of other keys only: `x` comes
      last among the elements of its own key ... */
  lemma InsertSameKey<T>(a: seq<T>, x: T, b: seq<T>, key: T -> int)
    requires WithKey(b, key, key(x)) == []
    ensures WithKey(a + [x] + b, key, key(x)) == WithKey(a + b, key, key(x)) + [x]
  {
    var k := key(x);
    WithKeyConcat(a + [x], b, key, k);
    WithKeyConcat(a, [x], key, k);
    WithKeyConcat(a, b, key, k);
  }

  /** ... and leaves the elements of every other key where they were. */
  lemma InsertOtherKey<T>(a: seq<T>, x: T, b: seq<T>, key: T -> int, k: int)
    requires key(x) != k
    ensures WithKey(a + [x] + b, key, k) == WithKey(a + b, key, k)
  {
    WithKeyConcat(a + [x], b, key, k);
    WithKeyConcat(a, [x], key, k);
    WithKeyConcat(a, b, key, k);
  }

  /** Inserting `x` in front of elements of larger keys only extends the
      elements of its key by `x` at the end and leaves the other keys'
      elements alone. */
  lemma InsertKey<T>(a: seq<T>, x: T, b: seq<T>, p: seq<T>, key: T -> int, k: int)
    requires WithKey(a + b, key, k) == WithKey(p, key, k)
    requires forall m :: 0 <= m < |b| ==> key(x) < key(b[m])
    ensures WithKey(a + [x] + b, key, k) == WithKey(p + [x], key, k)
  {
    WithKeyConcat(p, [x], key, k);
    if k == key(x) {
      WithKeyNone(b, key, k);
      InsertSameKey(a, x, b, key);
    } else {
      InsertOtherKey(a, x, b, key, k);
    }
  }

  lemma InsertMultiset<T>(r: seq<T>, j: nat, x: T)
    requires j <= |r|
    ensures multiset(r[..j] + [x] + r[j..]) == multiset(r) + multiset{x}
  {
    assert r == r[..j] + r[j..];
  }

  /** One step of insertion sort: placing `s[i]` after the last element
      of `r` whose key is at most its own extends a stable sort of `s[..i]`
      to one of `s[..i + 1]`. */
  lemma InsertStep<T>(r: seq<T>, s: seq<T>, i: nat, j: nat, key: T -> int)
    requires i < |s| && j <= |r|
    requires StableSortOf(r, s[..i], key)
    requires j > 0 ==> key(r[j - 1]) <= key(s[i])
    requires forall m :: j <= m < |r| ==> key(s[i]) < key(r[m])
    ensures StableSortOf(r[..j] + [s[i]] + r[j..], s[..i + 1], key)
  {
    var x := s[i];
    var a, b := r[..j], r[j..];
    assert r == a + b;
    assert s[..i + 1] == s[..i] + [x];
    InsertKeepsSorted(r, j, x, key);
    InsertMultiset(r, j, x);
    forall m | 0 <= m < |b| ensures key(x) < key(b[m]) {
      assert b[m] == r[j + m];
    }
    forall k ensures WithKey(a + [x] + b, key, k) == WithKey(s[..i] + [x], key, k) {
      InsertKey(a, x, b, s[..i], key, k);
    }
  }

  /** Stable insertion sort of `s` by `key`. */
  method SortBy<T>(s: seq<T>, key: T -> int) returns (r: seq<T>)
    ensures StableSortOf(r, s, key)
  {
    r := [];
    for i := 0 to |s|
      invariant StableSortOf(r, s[..i], key)
    {
      var x := s[i];
      var j := |r|;
      while j > 0 && key(r[j - 1]) > key(x)
        invariant 0 <= j <= |r|
        invariant forall m :: j <= m < |r| ==> key(x) < key(r[m])
      {
        j := j - 1;
      }
      InsertStep(r, s, i, j, key);
      r := r[..j] + [x] + r[j..];
    }
    assert s[..|s|] == s;
  }

  lemma WithKeyHead<T>(s: seq<T>, key: T -> int)
    requires s != []
    ensures WithKey(s, key, key(s[0])) != []
  {
  }

  /** The first element of `b` has the smallest key in `b`, and so does
      the first element of `a`; with the same elements per key, the two
      first elements coincide. */
  lemma SameHead<T>(a: seq<T>, b: seq<T>, key: T -> int)
    requires a != [] && b != []
    requires SortedBy(a, key) && SortedBy(b, key)
    requires forall k :: WithKey(a, key, k) == WithKey(b, key, k)
    ensures a[0] == b[0]
  {
    var ka, kb := key(a[0]), key(b[0]);
    assert WithKey(a, key, ka)[0] == a[0];
    assert a[0] in WithKey(b, key, ka);
    WithKeyMembers(b, key, ka, a[0]);
    var iy :| 0 <= iy < |b| && b[iy] == a[0];
    assert kb <= ka by { if iy > 0 { assert key(b[0]) <= key(b[iy]); } }
    assert WithKey(b, key, kb)[0] == b[0];
    assert b[0] in WithKey(a, key, kb);
    WithKeyMembers(a, key, kb, b[0]);
    var ix :| 0 <= ix < |a| && a[ix] == b[0];
    assert ka <= kb by { if ix > 0 { assert key(a[0]) <= key(a[ix]); } }
    assert WithKey(a, key, ka)[0] == WithKey(b, key, ka)[0];
  }

  /** Dropping equal first elements keeps the elements of key `k` equal. */
  lemma SameTail<T>(a: seq<T>, b: seq<T>, key: T -> int, k: int)
    requires a != [] && b != [] && a[0] == b[0]
    requires WithKey(a, key, k) == WithKey(b, key, k)
    ensures WithKey(a[1..], key, k) == WithKey(b[1..], key, k)
  {
    if key(a[0]) == k {
      assert WithKey(a[1..], key, k) == WithKey(a, key, k)[1..];
      assert WithKey(b[1..], key, k) == WithKey(b, key, k)[1..];
    } else {
      assert WithKey(a, key, k) == WithKey(a[1..], key, k);
      assert WithKey(b, key, k) == WithKey(b[1..], key, k);
    }
  }

  /** A stable sort has only one possible result: two sorted sequences
      that agree on the elements of every key are equal. */
  lemma {:induction false} StableSortUnique<T>(a: seq<T>, b: seq<T>, key: T -> int)
    requires SortedBy(a, key) && SortedBy(b, key)
    requires forall k :: WithKey(a, key, k) == WithKey(b, key, k)
    ensures a == b
    decreases |a|
  {
    if a == [] && b == [] {
    } else if a == [] {
      WithKeyHead(b, key);
    } else if b == [] {
      WithKeyHead(a, key);
    } else {
      SameHead(a, b, key);
      forall k ensures WithKey(a[1..], key, k) == WithKey(b[1..], key, k) {
        SameTail(a, b, key, k);
      }
      StableSortUnique(a[1..], b[1..], key);
      assert a == [a[0]] + a[1..] && b == [b[0]] + b[1..];
    }
  }

  /** Position of `s[p]` inside the elements of its key: it follows the
      ones before it in `s`. */
  lemma WithKeyAt<T>(s: seq<T>, key: T -> int, p: nat)
    requires p < |s|
    ensures |WithKey(s[..p], key, key(s[p]))| < |WithKey(s, key, key(s[p]))|
    ensures WithKey(s, key, key(s[p]))[|WithKey(s[..p], key, key(s[p]))|] == s[p]
  {
    var k := key(s[p]);
    assert s == s[..p] + s[p..];
    WithKeyConcat(s[..p], s[p..], key, k);
    assert WithKey(s[p..], key, k) == [s[p]] + WithKey(s[p..][1..], key, k);
  }

  /** Two elements of equal key appear in `WithKey` in their order in `s`. */
  lemma WithKeyKeepsOrder<T>(s: seq<T>, key: T -> int, p: nat, q: nat)
    requires p < q < |s| && key(s[p]) == key(s[q])
    ensures |WithKey(s[..p], key, key(s[p]))| < |WithKey(s[..q], key, key(s[q]))|
  {
    var k := key(s[p]);
    assert s[..q] == s[..p] + s[p..q];
    WithKeyConcat(s[..p], s[p..q], key, k);
    assert WithKey(s[p..q], key, k) == [s[p]] + WithKey(s[p..q][1..], key, k);
  }
}
