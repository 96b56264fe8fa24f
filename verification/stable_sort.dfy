/** A stable sort by a natural-number key, standing for the standard library's
    `sort_by_key` / `sort_by`. A stable sort's output is fully determined by
    two facts: it is ordered by the key, and for every key value the elements
    carrying it keep their input order. Both are proved of `Sort` below, so the
    insertion-sort shape of the definition does not matter. */
module StableSort {
  import opened Sequences

  /** Keys never decrease from left to right. */
  predicate SortedBy<T>(s: seq<T>, key: T -> nat) {
    forall i, j :: 0 <= i < j < |s| ==> key(s[i]) <= key(s[j])
  }

  /** The elements of `s` whose key is `k`, in their order in `s`. */
  function KeyFilter<T>(s: seq<T>, key: T -> nat, k: nat): seq<T> {
    if |s| == 0 then []
    else (if key(s[0]) == k then [s[0]] else []) + KeyFilter(s[1..], key, k)
  }

  /** Inserts `x` in front of the first element whose key is not smaller. */
  function Insert<T>(x: T, s: seq<T>, key: T -> nat): (r: seq<T>)
    ensures |r| == |s| + 1
  {
    if |s| == 0 || key(x) <= key(s[0]) then [x] + s
    else
      assert s == [s[0]] + s[1..];
      [s[0]] + Insert(x, s[1..], key)
  }

  /** Stable insertion sort: the head goes in front of its equals in the sorted tail. */
  function Sort<T>(s: seq<T>, key: T -> nat): (r: seq<T>)
    ensures |r| == |s|
  {
    if |s| == 0 then []
    else
      assert s == [s[0]] + s[1..];
      Insert(s[0], Sort(s[1..], key), key)
  }

  /** Inserting adds exactly one copy of `x`. */
  lemma {:induction false} InsertPermutes<T>(x: T, s: seq<T>, key: T -> nat)
    ensures multiset(Insert(x, s, key)) == multiset(s) + multiset{x}
  {
    if |s| > 0 && key(x) > key(s[0]) {
      InsertPermutes(x, s[1..], key);
      assert s == [s[0]] + s[1..];
    }
  }

  /** The sort is a permutation. */
  lemma {:induction false} SortPermutes<T>(s: seq<T>, key: T -> nat)
    ensures multiset(Sort(s, key)) == multiset(s)
  {
    if |s| > 0 {
      SortPermutes(s[1..], key);
      InsertPermutes(s[0], Sort(s[1..], key), key);
      assert s == [s[0]] + s[1..];
    }
  }

  lemma {:induction false} InsertSorted<T>(x: T, s: seq<T>, key: T -> nat)
    requires SortedBy(s, key)
    ensures SortedBy(Insert(x, s, key), key)
  {
    if |s| > 0 && key(x) > key(s[0]) {
      InsertSorted(x, s[1..], key);
      var r := Insert(x, s, key);
      assert r == [s[0]] + Insert(x, s[1..], key);
      forall i, j | 0 <= i < j < |r|
        ensures key(r[i]) <= key(r[j])
      {
        if i == 0 {
          InsertHeadBound(x, s[1..], key, key(s[0]));
          InsertPermutes(x, s[1..], key);
          assert r[j] in multiset(Insert(x, s[1..], key));
        }
      }
    }
  }

  /** Every element of an insertion result is `x` or an element of `s`. */
  lemma InsertHeadBound<T>(x: T, s: seq<T>, key: T -> nat, b: nat)
    requires b <= key(x) && forall i :: 0 <= i < |s| ==> b <= key(s[i])
    ensures forall y :: y in multiset(Insert(x, s, key)) ==> b <= key(y)
  {
    InsertPermutes(x, s, key);
    forall y | y in multiset(Insert(x, s, key))
      ensures b <= key(y)
    {
      if y != x {
        assert y in multiset(s);
        var i :| 0 <= i < |s| && s[i] == y;
      }
    }
  }

  /** Inserting `x` puts it ahead of every element of its own key. */
  lemma {:induction false} InsertKeyFilter<T>(x: T, s: seq<T>, key: T -> nat, k: nat)
    requires SortedBy(s, key)
    ensures KeyFilter(Insert(x, s, key), key, k) == (if key(x) == k then [x] else []) + KeyFilter(s, key, k)
  {
    if |s| == 0 || key(x) <= key(s[0]) {
      var r := [x] + s;
      assert r[1..] == s;
      if |s| > 0 && key(x) == k {
        assert key(s[0]) >= k;
      }
    } else {
      InsertKeyFilter(x, s[1..], key, k);
      var r := [s[0]] + Insert(x, s[1..], key);
      assert r[1..] == Insert(x, s[1..], key);
    }
  }

  /** The sort orders by key and, for every key value, keeps the input order. */
  lemma {:induction false} SortIsStable<T>(s: seq<T>, key: T -> nat)
    ensures SortedBy(Sort(s, key), key)
    ensures forall k :: KeyFilter(Sort(s, key), key, k) == KeyFilter(s, key, k)
  {
    if |s| > 0 {
      SortIsStable(s[1..], key);
      InsertSorted(s[0], Sort(s[1..], key), key);
      forall k
        ensures KeyFilter(Sort(s, key), key, k) == KeyFilter(s, key, k)
      {
        InsertKeyFilter(s[0], Sort(s[1..], key), key, k);
      }
    }
  }

  /** Within each group of equal `key`, the elements are ordered by `key2`. */
  predicate OrderedWithin<T>(s: seq<T>, key: T -> nat, key2: T -> nat) {
    forall i, j :: 0 <= i < j < |s| ==> PairWithin(s, key, key2, i, j)
  }

  /** Positions `i` and `j` are in `key2` order if they share a `key`. */
  predicate PairWithin<T>(s: seq<T>, key: T -> nat, key2: T -> nat, i: nat, j: nat)
    requires i < |s| && j < |s|
  {
    key(s[i]) == key(s[j]) ==> key2(s[i]) <= key2(s[j])
  }

  lemma {:induction false} InsertWithin<T>(x: T, s: seq<T>, key: T -> nat, key2: T -> nat)
    requires OrderedWithin(s, key, key2)
    requires forall i :: 0 <= i < |s| ==> key2(x) <= key2(s[i])
    ensures OrderedWithin(Insert(x, s, key), key, key2)
  {
    if |s| == 0 || key(x) <= key(s[0]) {
      PrependWithin(x, s, key, key2);
    } else {
      TailWithin(s, key, key2);
      InsertWithin(x, s[1..], key, key2);
      InsertAfterHead(x, s, key, key2);
    }
  }

  /** Putting `x` in front keeps the groups ordered when `x` is smallest by `key2`. */
  lemma PrependWithin<T>(x: T, s: seq<T>, key: T -> nat, key2: T -> nat)
    requires OrderedWithin(s, key, key2)
    requires forall i :: 0 <= i < |s| ==> key2(x) <= key2(s[i])
    ensures OrderedWithin([x] + s, key, key2)
  {
    var r := [x] + s;
    forall i, j | 0 <= i < j < |r|
      ensures PairWithin(r, key, key2, i, j)
    {
      assert r[j] == s[j - 1];
      if i > 0 {
        assert r[i] == s[i - 1];
        assert PairWithin(s, key, key2, i - 1, j - 1);
      }
    }
  }

  /** The step of `Insert` that keeps the head of `s` in front. */
  lemma InsertAfterHead<T>(x: T, s: seq<T>, key: T -> nat, key2: T -> nat)
    requires OrderedWithin(s, key, key2)
    requires 0 < |s| && key(x) > key(s[0])
    requires OrderedWithin(Insert(x, s[1..], key), key, key2)
    ensures OrderedWithin(Insert(x, s, key), key, key2)
  {
    var r := [s[0]] + Insert(x, s[1..], key);
    assert Insert(x, s, key) == r;
    forall i, j | 0 <= i < j < |r|
      ensures PairWithin(r, key, key2, i, j)
    {
      AfterHeadPair(x, s, key, key2, i, j);
    }
  }

  lemma AfterHeadPair<T>(x: T, s: seq<T>, key: T -> nat, key2: T -> nat, i: nat, j: nat)
    requires OrderedWithin(s, key, key2)
    requires 0 < |s| && key(x) > key(s[0])
    requires OrderedWithin(Insert(x, s[1..], key), key, key2)
    requires i < j <= |s|
    ensures PairWithin([s[0]] + Insert(x, s[1..], key), key, key2, i, j)
  {
    var t := Insert(x, s[1..], key);
    var r := [s[0]] + t;
    assert r[j] == t[j - 1];
    if i > 0 {
      assert r[i] == t[i - 1];
      assert PairWithin(t, key, key2, i - 1, j - 1);
    } else if key(r[i]) == key(r[j]) {
      assert t[j - 1] in multiset(t);
      HeadBeforeGroup(x, s, key, key2, r[j]);
    }
  }

  /** Dropping the head keeps the groups ordered. */
  lemma TailWithin<T>(s: seq<T>, key: T -> nat, key2: T -> nat)
    requires OrderedWithin(s, key, key2) && 0 < |s|
    ensures OrderedWithin(s[1..], key, key2)
  {
    forall i, j | 0 <= i < j < |s| - 1
      ensures PairWithin(s[1..], key, key2, i, j)
    {
      assert PairWithin(s, key, key2, i + 1, j + 1);
    }
  }

  /** An element inserted behind the head of `s` that shares the head's key
      comes from `s` itself, so it is not below the head by `key2`. */
  lemma HeadBeforeGroup<T>(x: T, s: seq<T>, key: T -> nat, key2: T -> nat, y: T)
    requires OrderedWithin(s, key, key2)
    requires 0 < |s| && key(x) > key(s[0])
    requires y in multiset(Insert(x, s[1..], key)) && key(y) == key(s[0])
    ensures key2(s[0]) <= key2(y)
  {
    InsertPermutes(x, s[1..], key);
    assert y in multiset(s[1..]);
    var m :| 0 <= m < |s[1..]| && s[1..][m] == y;
    assert s[m + 1] == y;
    assert PairWithin(s, key, key2, 0, m + 1);
  }

  /** Sorting a list already ordered by `key2` leaves each group of equal
      `key` ordered by `key2`: the sort's tie-break is the input order. */
  lemma {:induction false} SortWithin<T>(s: seq<T>, key: T -> nat, key2: T -> nat)
    requires SortedBy(s, key2)
    ensures OrderedWithin(Sort(s, key), key, key2)
  {
    if |s| > 0 {
      var t := Sort(s[1..], key);
      SortWithin(s[1..], key, key2);
      SortPermutes(s[1..], key);
      forall i | 0 <= i < |t|
        ensures key2(s[0]) <= key2(t[i])
      {
        assert t[i] in multiset(s[1..]);
        var m :| 0 <= m < |s[1..]| && s[1..][m] == t[i];
        assert s[m + 1] == t[i];
      }
      InsertWithin(s[0], t, key, key2);
    }
  }

  /** A list already ordered by the key is left as it is. */
  lemma {:induction false} SortOfSorted<T>(s: seq<T>, key: T -> nat)
    requires SortedBy(s, key)
    ensures Sort(s, key) == s
  {
    if |s| > 0 {
      SortOfSorted(s[1..], key);
      assert s == [s[0]] + s[1..];
    }
  }

  /** `x` lands after the first `n` elements, which are all smaller, and in
      front of the rest. */
  lemma {:induction false} InsertAt<T>(x: T, s: seq<T>, key: T -> nat, n: nat)
    requires n <= |s|
    requires forall i :: 0 <= i < n ==> key(s[i]) < key(x)
    requires n < |s| ==> key(x) <= key(s[n])
    ensures Insert(x, s, key) == s[..n] + [x] + s[n..]
  {
    if n > 0 {
      var t := s[1..];
      assert key(s[0]) < key(x);
      assert Insert(x, s, key) == [s[0]] + Insert(x, t, key);
      forall i | 0 <= i < n - 1
        ensures key(t[i]) < key(x)
      {
        assert t[i] == s[i + 1];
      }
      assert n - 1 < |t| ==> t[n - 1] == s[n];
      InsertAt(x, t, key, n - 1);
      assert [s[0]] + t[..n - 1] == s[..n];
      assert t[n - 1..] == s[n..];
      calc {
        Insert(x, s, key);
        [s[0]] + (t[..n - 1] + [x] + t[n - 1..]);
        { SeqAssoc([s[0]], t[..n - 1], [x], t[n - 1..]); }
        ([s[0]] + t[..n - 1]) + [x] + t[n - 1..];
      }
    } else {
      assert s[..n] + [x] + s[n..] == [x] + s;
    }
  }

  lemma SeqAssoc<T>(a: seq<T>, b: seq<T>, c: seq<T>, d: seq<T>)
    ensures a + (b + c + d) == a + b + c + d
  {
  }

  /** A filter that only passes elements with key `k` sees the same sequence
      whether or not the other keys were removed first. */
  lemma {:induction false} FilterInKey<T>(p: T -> bool, s: seq<T>, key: T -> nat, k: nat)
    requires forall x :: p(x) ==> key(x) == k
    ensures Filter(p, KeyFilter(s, key, k)) == Filter(p, s)
  {
    if |s| > 0 {
      FilterInKey(p, s[1..], key, k);
      var x := s[0];
      FilterAppend(p, if key(x) == k then [x] else [], KeyFilter(s[1..], key, k));
      assert Filter(p, [x]) == (if p(x) then [x] else []) by {
        assert [x][1..] == [];
      }
    }
  }

  /** Stability seen through a filter: elements that all share one key keep
      their relative input order through the sort. */
  lemma SortKeepsGroup<T>(p: T -> bool, s: seq<T>, key: T -> nat, k: nat)
    requires forall x :: p(x) ==> key(x) == k
    ensures Filter(p, Sort(s, key)) == Filter(p, s)
  {
    SortIsStable(s, key);
    FilterInKey(p, Sort(s, key), key, k);
    FilterInKey(p, s, key, k);
  }
}
