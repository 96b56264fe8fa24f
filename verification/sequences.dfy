/** Element-wise map and filter over sequences, with the facts the ranking
    pipeline needs: both commute with concatenation, and both carry
    permutations (equal multisets) to permutations. */
module Sequences {

  /** Applies `f` to every element, keeping positions. */
  function MapSeq<T, U>(f: T -> U, s: seq<T>): (r: seq<U>)
    ensures |r| == |s|
    ensures forall i :: 0 <= i < |s| ==> r[i] == f(s[i])
  {
    seq(|s|, i requires 0 <= i < |s| => f(s[i]))
  }

  /** The elements satisfying `p`, in their order in `s` (the source's
      `retain`). */
  function Filter<T>(p: T -> bool, s: seq<T>): (r: seq<T>)
    ensures |r| <= |s|
    ensures forall i :: 0 <= i < |r| ==> p(r[i])
  {
    if |s| == 0 then []
    else (if p(s[0]) then [s[0]] else []) + Filter(p, s[1..])
  }

  lemma {:induction false} FilterAppend<T>(p: T -> bool, a: seq<T>, b: seq<T>)
    ensures Filter(p, a + b) == Filter(p, a) + Filter(p, b)
  {
    if |a| > 0 {
      FilterAppend(p, a[1..], b);
      assert (a + b)[1..] == a[1..] + b;
    } else {
      assert a + b == b;
    }
  }

  /** Two filters may be applied in either order. */
  lemma {:induction false} FilterCommute<T>(p: T -> bool, q: T -> bool, s: seq<T>)
    ensures Filter(p, Filter(q, s)) == Filter(q, Filter(p, s))
  {
    if |s| > 0 {
      FilterCommute(p, q, s[1..]);
      var x := s[0];
      FilterAppend(p, if q(x) then [x] else [], Filter(q, s[1..]));
      FilterAppend(q, if p(x) then [x] else [], Filter(p, s[1..]));
      assert Filter(p, [x]) == (if p(x) then [x] else []) by {
        assert [x][1..] == [];
      }
      assert Filter(q, [x]) == (if q(x) then [x] else []) by {
        assert [x][1..] == [];
      }
    }
  }

  /** Filtering the first `n` elements gives a prefix of filtering them all. */
  lemma FilterPrefix<T>(p: T -> bool, s: seq<T>, n: nat)
    requires n <= |s|
    ensures Filter(p, s[..n]) <= Filter(p, s)
  {
    SplitAt(s, n);
    FilterAppend(p, s[..n], s[n..]);
    PrefixOfAppend(Filter(p, s[..n]), Filter(p, s[n..]));
  }

  lemma SplitAt<T>(s: seq<T>, n: nat)
    requires n <= |s|
    ensures s[..n] + s[n..] == s
  {
  }

  lemma PrefixOfAppend<T>(a: seq<T>, b: seq<T>)
    ensures a <= a + b
  {
    assert (a + b)[..|a|] == a;
  }

  /** The test `g` applied after `f`. */
  function Compose<T, U>(g: U -> bool, f: T -> U): T -> bool {
    x => g(f(x))
  }

  /** Filtering a pointwise image is the image of a filter by the composed test. */
  lemma {:induction false} FilterImage<T, U>(f: T -> U, g: U -> bool, s: seq<T>, r: seq<U>)
    requires |r| == |s| && forall i :: 0 <= i < |s| ==> r[i] == f(s[i])
    ensures Filter(g, r) == MapSeq(f, Filter(Compose(g, f), s))
  {
    if |s| > 0 {
      FilterImage(f, g, s[1..], r[1..]);
      var head := if Compose(g, f)(s[0]) then [s[0]] else [];
      MapAppend(f, head, Filter(Compose(g, f), s[1..]));
    }
  }

  lemma MapAppend<T, U>(f: T -> U, a: seq<T>, b: seq<T>)
    ensures MapSeq(f, a + b) == MapSeq(f, a) + MapSeq(f, b)
  {
    var l, r := MapSeq(f, a + b), MapSeq(f, a) + MapSeq(f, b);
    forall i | 0 <= i < |l|
      ensures l[i] == r[i]
    {
      if i < |a| {
        assert (a + b)[i] == a[i];
      } else {
        assert (a + b)[i] == b[i - |a|];
      }
    }
  }

  /** Filtering keeps exactly the copies of the elements that pass. */
  lemma {:induction false} FilterCount<T>(p: T -> bool, s: seq<T>, y: T)
    ensures multiset(Filter(p, s))[y] == if p(y) then multiset(s)[y] else 0
  {
    if |s| > 0 {
      FilterCount(p, s[1..], y);
      assert s == [s[0]] + s[1..];
    }
  }

  lemma MultisetExtensionality<T>(x: multiset<T>, y: multiset<T>)
    requires forall e :: x[e] == y[e]
    ensures x == y
  {
  }

  /** Filtering a permutation gives a permutation of the filtered original. */
  lemma FilterPermutation<T>(p: T -> bool, a: seq<T>, b: seq<T>)
    requires multiset(a) == multiset(b)
    ensures multiset(Filter(p, a)) == multiset(Filter(p, b))
    ensures |Filter(p, a)| == |Filter(p, b)|
  {
    var fa, fb := multiset(Filter(p, a)), multiset(Filter(p, b));
    forall y
      ensures fa[y] == fb[y]
    {
      FilterCount(p, a, y);
      FilterCount(p, b, y);
    }
    MultisetExtensionality(fa, fb);
    assert |multiset(Filter(p, a))| == |multiset(Filter(p, b))|;
  }

  /** Mapping a permutation gives a permutation of the mapped original. */
  lemma {:induction false} MapPermutation<T, U>(f: T -> U, a: seq<T>, b: seq<T>)
    requires multiset(a) == multiset(b)
    ensures multiset(MapSeq(f, a)) == multiset(MapSeq(f, b))
  {
    if |a| > 0 {
      assert a[0] in multiset(b);
      var k :| 0 <= k < |b| && b[k] == a[0];
      TailPermutation(a, b, k);
      MapPermutation(f, a[1..], b[..k] + b[k + 1..]);
      MapPermutationStep(f, a, b, k);
    }
  }

  /** Matching the head of `a` with position `k` of its permutation `b`
      leaves two permuted remainders. */
  lemma TailPermutation<T>(a: seq<T>, b: seq<T>, k: nat)
    requires multiset(a) == multiset(b) && 0 < |a| && k < |b| && b[k] == a[0]
    ensures multiset(a[1..]) == multiset(b[..k] + b[k + 1..])
  {
    RemoveAt(b, k);
    assert a == [a[0]] + a[1..];
    calc {
      multiset(a[1..]);
      (multiset{a[0]} + multiset(a[1..])) - multiset{a[0]};
      multiset(a) - multiset{a[0]};
    }
  }

  /** Mapped remainders that are permutations extend to mapped permutations. */
  lemma MapPermutationStep<T, U>(f: T -> U, a: seq<T>, b: seq<T>, k: nat)
    requires 0 < |a| && k < |b| && b[k] == a[0]
    requires multiset(MapSeq(f, a[1..])) == multiset(MapSeq(f, b[..k] + b[k + 1..]))
    ensures multiset(MapSeq(f, a)) == multiset(MapSeq(f, b))
  {
    MapRemoveAt(f, b, k);
    MapRemoveAt(f, a, 0);
    assert a[..0] + a[1..] == a[1..];
    var ma, mb := MapSeq(f, a), MapSeq(f, b);
    assert ma[0] in multiset(ma) && mb[k] in multiset(mb);
    PutBack(multiset(ma), f(a[0]));
    PutBack(multiset(mb), f(b[k]));
  }

  /** Taking out the element at `k` takes one copy of it out of the multiset. */
  lemma RemoveAt<T>(b: seq<T>, k: nat)
    requires k < |b|
    ensures multiset(b[..k] + b[k + 1..]) == multiset(b) - multiset{b[k]}
  {
    assert b == b[..k] + [b[k]] + b[k + 1..];
    assert multiset(b) == multiset(b[..k]) + multiset{b[k]} + multiset(b[k + 1..]);
  }

  /** Mapping commutes with taking out one element. */
  lemma MapRemoveAt<T, U>(f: T -> U, b: seq<T>, k: nat)
    requires k < |b|
    ensures multiset(MapSeq(f, b[..k] + b[k + 1..])) == multiset(MapSeq(f, b)) - multiset{f(b[k])}
  {
    var m := MapSeq(f, b);
    var l, r := MapSeq(f, b[..k] + b[k + 1..]), m[..k] + m[k + 1..];
    forall i | 0 <= i < |l|
      ensures l[i] == r[i]
    {
      if i < k {
        assert (b[..k] + b[k + 1..])[i] == b[i];
      } else {
        assert (b[..k] + b[k + 1..])[i] == b[i + 1];
      }
    }
    assert l == r;
    RemoveAt(m, k);
  }

  lemma PutBack<T>(x: multiset<T>, e: T)
    requires e in x
    ensures x == (x - multiset{e}) + multiset{e}
  {
  }

  /** A prefix maps to a sub-multiset of the whole. */
  lemma PrefixMapSubMultiset<T, U>(f: T -> U, s: seq<T>, n: nat)
    requires n <= |s|
    ensures multiset(MapSeq(f, s[..n])) <= multiset(MapSeq(f, s))
  {
    assert s == s[..n] + s[n..];
    MapAppend(f, s[..n], s[n..]);
  }
}
