/**
  `Array.prototype.sort` with the comparator `([a], [b]) => a - b` on
  pairs of an integer key and a payload. The ECMAScript sort is stable, so
  it is modelled as a stable insertion sort: keys end up non-decreasing and
  entries with equal keys keep their input order.
*/
module StableSort {

  /** Keys never decrease from left to right. */
  predicate SortedByKey<T>(s: seq<(int, T)>) {
    forall i, j :: 0 <= i < j < |s| ==> s[i].0 <= s[j].0
  }

  /** The entries of `s` that carry key `k`, in their order in `s`. */
  function WithKey<T>(s: seq<(int, T)>, k: int): seq<(int, T)>
  {
    if |s| == 0 then []
    else (if s[0].0 == k then [s[0]] else []) + WithKey(s[1..], k)
  }

  /** Inserts `x` in front of the first entry whose key is not smaller. */
  function Insert<T(==)>(x: (int, T), s: seq<(int, T)>): (r: seq<(int, T)>)
    ensures |r| == |s| + 1
    ensures multiset(r) == multiset(s) + multiset{x}
  {
    if |s| == 0 then [x]
    else if x.0 <= s[0].0 then [x] + s
    else
      assert s == [s[0]] + s[1..];
      [s[0]] + Insert(x, s[1..])
  }

  /** Inserting into a sorted sequence keeps it sorted. */
  lemma {:induction false} InsertSorted<T>(x: (int, T), s: seq<(int, T)>)
    requires SortedByKey(s)
    ensures SortedByKey(Insert(x, s))
  {
    if |s| > 0 && x.0 > s[0].0 {
      var tail := Insert(x, s[1..]);
      InsertSorted(x, s[1..]);
      forall i | 0 <= i < |tail|
        ensures s[0].0 <= tail[i].0
      {
        assert tail[i] in multiset(tail);
        assert tail[i] == x || tail[i] in multiset(s[1..]);
      }
    }
  }

  /** Stable sort by key: a sorted permutation of the input. */
  function Sort<T(==)>(s: seq<(int, T)>): (r: seq<(int, T)>)
    ensures |r| == |s|
    ensures multiset(r) == multiset(s)
    ensures SortedByKey(r)
  {
    if |s| == 0 then []
    else
      assert s == [s[0]] + s[1..];
      InsertSorted(s[0], Sort(s[1..]));
      Insert(s[0], Sort(s[1..]))
  }

  /** The payloads of keyed pairs: `files.map(([, data]) => data)`. */
  function Values<T>(s: seq<(int, T)>): (vs: seq<T>)
    ensures |vs| == |s|
  {
    if |s| == 0 then [] else [s[0].1] + Values(s[1..])
  }

  lemma {:induction false} ValuesAt<T>(s: seq<(int, T)>, i: nat)
    requires i < |s|
    ensures Values(s)[i] == s[i].1
  {
    if i > 0 {
      ValuesAt(s[1..], i - 1);
    }
  }

  lemma ValuesCons<T>(x: (int, T), s: seq<(int, T)>)
    ensures Values([x] + s) == [x.1] + Values(s)
  {
    assert ([x] + s)[1..] == s;
  }

  lemma {:induction false} InsertValues<T>(x: (int, T), s: seq<(int, T)>)
    ensures multiset(Values(Insert(x, s))) == multiset(Values(s)) + multiset{x.1}
  {
    if |s| == 0 {
      assert Values([x]) == [x.1];
    } else if x.0 <= s[0].0 {
      ValuesCons(x, s);
    } else {
      InsertValues(x, s[1..]);
      InsertValuesPast(x, s);
    }
  }

  /** The step of `InsertValues` where `x` moves past the head. */
  lemma InsertValuesPast<T>(x: (int, T), s: seq<(int, T)>)
    requires |s| > 0 && x.0 > s[0].0
    requires multiset(Values(Insert(x, s[1..]))) == multiset(Values(s[1..])) + multiset{x.1}
    ensures multiset(Values(Insert(x, s))) == multiset(Values(s)) + multiset{x.1}
  {
    ValuesOfInsertPast(x, s);
    ValuesUncons(s);
    MultisetConsAdd(s[0].1, Values(Insert(x, s[1..])), Values(s[1..]), x.1);
  }

  lemma ValuesOfInsertPast<T>(x: (int, T), s: seq<(int, T)>)
    requires |s| > 0 && x.0 > s[0].0
    ensures Values(Insert(x, s)) == [s[0].1] + Values(Insert(x, s[1..]))
  {
    assert Insert(x, s) == [s[0]] + Insert(x, s[1..]);
    ValuesCons(s[0], Insert(x, s[1..]));
  }

  lemma ValuesUncons<T>(s: seq<(int, T)>)
    requires |s| > 0
    ensures Values(s) == [s[0].1] + Values(s[1..])
  {
  }

  lemma MultisetConsAdd<U>(h: U, a: seq<U>, b: seq<U>, y: U)
    requires multiset(a) == multiset(b) + multiset{y}
    ensures multiset([h] + a) == multiset([h] + b) + multiset{y}
  {
  }

  /** Sorting permutes the payloads. */
  lemma SortUnfold<T>(s: seq<(int, T)>)
    requires |s| > 0
    ensures Sort(s) == Insert(s[0], Sort(s[1..]))
  {
  }

  lemma ValuesSplit<T>(s: seq<(int, T)>)
    requires |s| > 0
    ensures multiset(Values(s)) == multiset(Values(s[1..])) + multiset{s[0].1}
  {
  }

  lemma {:induction false} SortValues<T>(s: seq<(int, T)>)
    ensures multiset(Values(Sort(s))) == multiset(Values(s))
  {
    if |s| > 0 {
      SortValues(s[1..]);
      InsertValues(s[0], Sort(s[1..]));
      SortUnfold(s);
      ValuesSplit(s);
    }
  }

  /** Insertion only ever passes entries with a smaller key, so equal keys keep their order. */
  lemma {:induction false} InsertWithKey<T>(x: (int, T), s: seq<(int, T)>, k: int)
    ensures WithKey(Insert(x, s), k) == (if x.0 == k then [x] else []) + WithKey(s, k)
  {
    if |s| > 0 {
      if x.0 <= s[0].0 {
        assert ([x] + s)[1..] == s;
      } else {
        var tail := Insert(x, s[1..]);
        InsertWithKey(x, s[1..], k);
        assert ([s[0]] + tail)[1..] == tail;
      }
    }
  }

  /** Stability: for every key, the entries carrying it appear in input order. */
  lemma {:induction false} SortIsStable<T>(s: seq<(int, T)>, k: int)
    ensures WithKey(Sort(s), k) == WithKey(s, k)
  {
    if |s| > 0 {
      SortIsStable(s[1..], k);
      InsertWithKey(s[0], Sort(s[1..]), k);
    }
  }

  /** Two entries with the same key both show up in `WithKey`. */
  lemma {:induction false} WithKeyHasBoth<T>(s: seq<(int, T)>, a: nat, b: nat)
    requires a < b < |s| && s[a].0 == s[b].0
    ensures |WithKey(s, s[a].0)| >= 2
  {
    if a > 0 {
      WithKeyHasBoth(s[1..], a - 1, b - 1);
    } else {
      WithKeyHasOne(s[1..], b - 1, s[a].0);
    }
  }

  lemma {:induction false} WithKeyHasOne<T>(s: seq<(int, T)>, b: nat, k: int)
    requires b < |s| && s[b].0 == k
    ensures |WithKey(s, k)| >= 1
  {
    if b > 0 {
      WithKeyHasOne(s[1..], b - 1, k);
    }
  }

  /** With pairwise distinct keys, at most one entry carries any key. */
  lemma {:induction false} WithKeyOfDistinct<T>(s: seq<(int, T)>, k: int)
    requires forall i, j :: 0 <= i < j < |s| ==> s[i].0 != s[j].0
    ensures |WithKey(s, k)| <= 1
  {
    if |s| > 0 {
      WithKeyOfDistinct(s[1..], k);
      if s[0].0 == k && |WithKey(s[1..], k)| == 1 {
        var b := WithKeyFind(s[1..], k);
      }
    }
  }

  /** A position of `s` that carries key `k`, when `WithKey` finds one. */
  lemma {:induction false} WithKeyFind<T>(s: seq<(int, T)>, k: int) returns (b: nat)
    requires |WithKey(s, k)| >= 1
    ensures b < |s| && s[b].0 == k
  {
    if s[0].0 == k {
      b := 0;
    } else {
      b := WithKeyFind(s[1..], k);
      b := b + 1;
    }
  }

  /** Sorting keeps pairwise distinct keys pairwise distinct: they are then strictly increasing. */
  lemma SortOfDistinctIsStrict<T>(s: seq<(int, T)>)
    requires forall i, j :: 0 <= i < j < |s| ==> s[i].0 != s[j].0
    ensures forall i, j :: 0 <= i < j < |Sort(s)| ==> Sort(s)[i].0 < Sort(s)[j].0
  {
    var r := Sort(s);
    forall i, j | 0 <= i < j < |r|
      ensures r[i].0 < r[j].0
    {
      if r[i].0 == r[j].0 {
        WithKeyHasBoth(r, i, j);
        SortIsStable(s, r[i].0);
        WithKeyOfDistinct(s, r[i].0);
      }
    }
  }

  /** Dropping the head of `r` drops it from the entries with its key and leaves other keys alone. */
  lemma WithKeyOfTail<T>(r: seq<(int, T)>, k: int)
    requires |r| > 0
    ensures r[0].0 == k ==> WithKey(r, k) == [r[0]] + WithKey(r[1..], k)
    ensures r[0].0 != k ==> WithKey(r, k) == WithKey(r[1..], k)
  {
  }

  /** In a sorted sequence the head carries the smallest key present. */
  lemma HeadKeyIsLeast<T>(r: seq<(int, T)>, k: int)
    requires SortedByKey(r)
    requires |WithKey(r, k)| >= 1
    ensures |r| > 0 && r[0].0 <= k
  {
    var b := WithKeyFind(r, k);
  }

  /**
    Sortedness and stability pin the result down: any arrangement with
    non-decreasing keys that keeps, key by key, the order of `s` is
    `Sort(s)`.
  */
  lemma {:induction false} SortedStableUnique<T>(r1: seq<(int, T)>, r2: seq<(int, T)>)
    requires SortedByKey(r1) && SortedByKey(r2)
    requires forall k :: WithKey(r1, k) == WithKey(r2, k)
    ensures r1 == r2
    decreases |r1| + |r2|
  {
    if |r1| == 0 {
      if |r2| > 0 {
        assert false;
      }
      return;
    }
    WithKeyOfTail(r1, r1[0].0);
    assert |WithKey(r2, r1[0].0)| >= 1;
    HeadKeyIsLeast(r2, r1[0].0);
    SameHead(r1, r2);
    forall k
      ensures WithKey(r1[1..], k) == WithKey(r2[1..], k)
    {
      TailWithKey(r1, r2, k);
    }
    SortedStableUnique(r1[1..], r2[1..]);
    assert r1 == [r1[0]] + r1[1..];
    assert r2 == [r2[0]] + r2[1..];
  }

  /** Two sorted sequences that agree key by key start with the same entry. */
  lemma SameHead<T>(r1: seq<(int, T)>, r2: seq<(int, T)>)
    requires SortedByKey(r1) && SortedByKey(r2) && |r1| > 0 && |r2| > 0
    requires WithKey(r1, r1[0].0) == WithKey(r2, r1[0].0)
    requires WithKey(r1, r2[0].0) == WithKey(r2, r2[0].0)
    ensures r1[0] == r2[0]
  {
    var a := r1[0].0;
    var b := r2[0].0;
    WithKeyOfTail(r1, a);
    assert |WithKey(r2, a)| >= 1;
    HeadKeyIsLeast(r2, a);
    WithKeyOfTail(r2, b);
    assert |WithKey(r1, b)| >= 1;
    HeadKeyIsLeast(r1, b);
    assert a == b;
    assert WithKey(r1, a)[0] == r1[0];
    assert WithKey(r2, a)[0] == r2[0];
  }

  /** Dropping a common head keeps the key-by-key agreement. */
  lemma TailWithKey<T>(r1: seq<(int, T)>, r2: seq<(int, T)>, k: int)
    requires |r1| > 0 && |r2| > 0 && r1[0] == r2[0]
    requires WithKey(r1, k) == WithKey(r2, k)
    ensures WithKey(r1[1..], k) == WithKey(r2[1..], k)
  {
    WithKeyOfTail(r1, k);
    WithKeyOfTail(r2, k);
    if r1[0].0 == k {
      assert WithKey(r1, k)[1..] == WithKey(r1[1..], k);
      assert WithKey(r2, k)[1..] == WithKey(r2[1..], k);
    }
  }

  /** Any sorted arrangement that keeps equal keys in input order is exactly `Sort(s)`. */
  lemma SortCharacterized<T>(s: seq<(int, T)>, r: seq<(int, T)>)
    requires SortedByKey(r)
    requires forall k :: WithKey(r, k) == WithKey(s, k)
    ensures r == Sort(s)
  {
    forall k
      ensures WithKey(r, k) == WithKey(Sort(s), k)
    {
      SortIsStable(s, k);
    }
    SortedStableUnique(r, Sort(s));
  }

  /** Strictly increasing keys all below `n`, `n` of them: the keys are 0, 1, …, n-1. */
  lemma KeysOfStrictPermutation<T>(s: seq<(int, T)>)
    requires forall i, j :: 0 <= i < j < |s| ==> s[i].0 < s[j].0
    requires forall i :: 0 <= i < |s| ==> 0 <= s[i].0 < |s|
    ensures forall i :: 0 <= i < |s| ==> s[i].0 == i
  {
    forall i | 0 <= i < |s|
      ensures s[i].0 == i
    {
      KeyAtLeastIndex(s, i);
      KeyAtMostIndex(s, i);
    }
  }

  lemma {:induction false} KeyAtLeastIndex<T>(s: seq<(int, T)>, i: nat)
    requires forall a, b :: 0 <= a < b < |s| ==> s[a].0 < s[b].0
    requires forall a :: 0 <= a < |s| ==> 0 <= s[a].0
    requires i < |s|
    ensures s[i].0 >= i
  {
    if i > 0 {
      KeyAtLeastIndex(s, i - 1);
    }
  }

  lemma {:induction false} KeyAtMostIndex<T>(s: seq<(int, T)>, i: nat)
    requires forall a, b :: 0 <= a < b < |s| ==> s[a].0 < s[b].0
    requires forall a :: 0 <= a < |s| ==> s[a].0 < |s|
    requires i < |s|
    ensures s[i].0 <= i
    decreases |s| - i
  {
    if i < |s| - 1 {
      KeyAtMostIndex(s, i + 1);
    }
  }

  /** Sorting two entries swaps them exactly when the first key is larger. */
  lemma SortPair<T>(a: (int, T), b: (int, T))
    ensures Sort([a, b]) == if a.0 <= b.0 then [a, b] else [b, a]
  {
    assert [a, b][1..] == [b];
  }

  lemma ValuesPair<T>(a: (int, T), b: (int, T))
    ensures Values([a, b]) == [a.1, b.1]
  {
    ValuesAt([a, b], 0);
    ValuesAt([a, b], 1);
  }
}
