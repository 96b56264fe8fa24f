/** Levenshtein (edit) distance, generic over the element type.

    `Dist` is the textbook insert/delete/substitute recurrence over prefixes;
    `GenericLevenshtein` is the engine's linear-space algorithm (one rolling
    row of size |b| plus a running diagonal), proved to return the same value.
 */
module Levenshtein {

  function Min(x: nat, y: nat): nat {
    if x <= y then x else y
  }

  /** Substitution cost: 0 for equal elements, 1 otherwise. */
  function Cost<T(==)>(x: T, y: T): nat {
    if x == y then 0 else 1
  }

  /** Edit distance between the first `i` elements of `a` and the first `j` of `b`. */
  function Dist<T(==)>(a: seq<T>, b: seq<T>, i: nat, j: nat): nat
    requires i <= |a| && j <= |b|
    decreases i + j
  {
    if i == 0 then j
    else if j == 0 then i
    else Min(Dist(a, b, i - 1, j) + 1,
             Min(Dist(a, b, i, j - 1) + 1, Dist(a, b, i - 1, j - 1) + Cost(a[i - 1], b[j - 1])))
  }

  /** Edit distance between the whole of `a` and the whole of `b`. */
  function Distance<T(==)>(a: seq<T>, b: seq<T>): nat {
    Dist(a, b, |a|, |b|)
  }

  /** The rolling-row dynamic programme: `cache[j]` holds the distance from the
      current prefix of `a` to `b[..j+1]`. The row is a value updated in place
      (`cache[j := ..]`), standing for the engine's `Vec<usize>`. */
  method GenericLevenshtein<T(==)>(a: seq<T>, b: seq<T>) returns (result: nat)
    ensures result == Distance(a, b)
    ensures |a| == 0 ==> result == |b|
  {
    var bLen := |b|;
    var cache: seq<nat> := [];
    while |cache| < bLen
      invariant |cache| <= bLen
      invariant forall m :: 0 <= m < |cache| ==> cache[m] == m + 1
    {
      cache := cache + [|cache| + 1];
    }

    result := bLen;
    var i := 0;
    while i < |a|
      invariant 0 <= i <= |a|
      invariant |cache| == bLen
      invariant forall m :: 0 <= m < bLen ==> cache[m] == Dist(a, b, i, m + 1)
      invariant result == Dist(a, b, i, bLen)
    {
      cache, result := NextRow(a, b, i, cache);
      i := i + 1;
    }
  }

  /** One pass of the outer loop: turns row `i` of the table into row `i + 1`
      using the running diagonal `distanceB`, and returns that row's last cell. */
  method NextRow<T(==)>(a: seq<T>, b: seq<T>, i: nat, row: seq<nat>) returns (cache: seq<nat>, result: nat)
    requires i < |a| && |row| == |b|
    requires forall m :: 0 <= m < |b| ==> row[m] == Dist(a, b, i, m + 1)
    ensures |cache| == |b|
    ensures forall m :: 0 <= m < |b| ==> cache[m] == Dist(a, b, i + 1, m + 1)
    ensures result == Dist(a, b, i + 1, |b|)
  {
    cache := row;
    result := i + 1;
    var distanceB := i;
    var j := 0;
    while j < |b|
      invariant 0 <= j <= |b| && |cache| == |b|
      invariant forall m :: 0 <= m < j ==> cache[m] == Dist(a, b, i + 1, m + 1)
      invariant forall m :: j <= m < |b| ==> cache[m] == row[m]
      invariant distanceB == Dist(a, b, i, j)
      invariant result == Dist(a, b, i + 1, j)
    {
      var cost := if a[i] != b[j] then 1 else 0;
      var distanceA := distanceB + cost;
      distanceB := cache[j];
      assert distanceB == Dist(a, b, i, j + 1);
      result := Min(result + 1, Min(distanceA, distanceB + 1));
      assert result == Dist(a, b, i + 1, j + 1) by {
        assert cost == Cost(a[i], b[j]);
        DistStep(a, b, i, j);
      }
      RowUpdate(a, b, i, j, row, cache, result, cache[j := result]);
      cache := cache[j := result];
      j := j + 1;
    }
  }

  /** Writing cell `j` of row `i + 1` over the old row keeps the row split:
      new cells before the write position, old cells after it. */
  lemma RowUpdate<T>(a: seq<T>, b: seq<T>, i: nat, j: nat, row: seq<nat>, cache: seq<nat>, result: nat, updated: seq<nat>)
    requires i < |a| && j < |b| && |row| == |b| && |cache| == |b|
    requires forall m :: 0 <= m < j ==> cache[m] == Dist(a, b, i + 1, m + 1)
    requires forall m :: j <= m < |b| ==> cache[m] == row[m]
    requires result == Dist(a, b, i + 1, j + 1) && updated == cache[j := result]
    ensures forall m :: 0 <= m < j + 1 ==> updated[m] == Dist(a, b, i + 1, m + 1)
    ensures forall m :: j + 1 <= m < |b| ==> updated[m] == row[m]
  {
  }

  /** One cell of the recurrence, stated in the order the rolling row meets it. */
  lemma DistStep<T>(a: seq<T>, b: seq<T>, i: nat, j: nat)
    requires i < |a| && j < |b|
    ensures Dist(a, b, i + 1, j + 1)
            == Min(Dist(a, b, i + 1, j) + 1, Min(Dist(a, b, i, j) + Cost(a[i], b[j]), Dist(a, b, i, j + 1) + 1))
  {
  }

  /** `r` is row `i` of the table: `r[m]` is the distance from `a[..i]` to `b[..m]`. */
  predicate IsRow<T(==)>(a: seq<T>, b: seq<T>, i: nat, r: seq<nat>) {
    i <= |a| && |r| == |b| + 1 && forall m :: 0 <= m <= |b| ==> r[m] == Dist(a, b, i, m)
  }

  /** `cur` is computed from `prev` by one pass of the recurrence for the element `x`. */
  predicate Follows<T(==)>(x: T, b: seq<T>, prev: seq<nat>, cur: seq<nat>) {
    && |prev| == |b| + 1 && |cur| == |b| + 1 && cur[0] == prev[0] + 1
    && forall m :: 0 <= m < |b| ==> CellFollows(x, b, prev, cur, m)
  }

  /** Cell `m + 1` of `cur` is the recurrence applied to its three neighbours. */
  predicate CellFollows<T(==)>(x: T, b: seq<T>, prev: seq<nat>, cur: seq<nat>, m: nat)
    requires m < |b| && |prev| == |b| + 1 && |cur| == |b| + 1
  {
    cur[m + 1] == Min(cur[m] + 1, Min(prev[m] + Cost(x, b[m]), prev[m + 1] + 1))
  }

  /** The first row of every table counts insertions. */
  lemma FirstRow<T>(a: seq<T>, b: seq<T>, r: seq<nat>)
    requires |r| == |b| + 1 && forall m :: 0 <= m <= |b| ==> r[m] == m
    ensures IsRow(a, b, 0, r)
  {
  }

  /** One pass of the recurrence turns row `i` into row `i + 1`: the table can
      be filled row by row, which is what the rolling-row algorithm does. */
  lemma RowFollows<T>(a: seq<T>, b: seq<T>, i: nat, prev: seq<nat>, cur: seq<nat>)
    requires i < |a| && IsRow(a, b, i, prev) && Follows(a[i], b, prev, cur)
    ensures IsRow(a, b, i + 1, cur)
  {
    forall m | 0 <= m <= |b|
      ensures cur[m] == Dist(a, b, i + 1, m)
    {
      RowPrefix(a, b, i, prev, cur, m);
    }
  }

  lemma {:induction false} RowPrefix<T>(a: seq<T>, b: seq<T>, i: nat, prev: seq<nat>, cur: seq<nat>, m: nat)
    requires i < |a| && IsRow(a, b, i, prev) && Follows(a[i], b, prev, cur) && m <= |b|
    ensures cur[m] == Dist(a, b, i + 1, m)
  {
    if m == 0 {
      assert prev[0] == Dist(a, b, i, 0);
    } else {
      RowPrefix(a, b, i, prev, cur, m - 1);
      var left, diag, up := Dist(a, b, i + 1, m - 1), Dist(a, b, i, m - 1), Dist(a, b, i, m);
      assert prev[m - 1] == diag && prev[m] == up;
      assert CellFollows(a[i], b, prev, cur, m - 1);
      DistStep(a, b, i, m - 1);
    }
  }

  /** The engine's `levenshtein` on strings: the generic algorithm over characters. */
  method Levenshtein(a: string, b: string) returns (d: nat)
    ensures d == Distance(a, b)
    ensures d == 0 <==> a == b
  {
    d := GenericLevenshtein(a, b);
    DistanceZeroIffEqual(a, b);
  }

  // ---------------------------------------------------------------------------
  // Properties of the recurrence

  lemma DistZeroIffEqualPrefixes<T>(a: seq<T>, b: seq<T>, i: nat, j: nat)
    requires i <= |a| && j <= |b|
    ensures Dist(a, b, i, j) == 0 <==> i == j && a[..i] == b[..j]
  {
    if i == j && a[..i] == b[..j] {
      EqualPrefixesDistZero(a, b, i);
    }
    if Dist(a, b, i, j) == 0 {
      DistZeroEqualPrefixes(a, b, i, j);
    }
  }

  lemma {:induction false} EqualPrefixesDistZero<T>(a: seq<T>, b: seq<T>, i: nat)
    requires i <= |a| && i <= |b| && a[..i] == b[..i]
    ensures Dist(a, b, i, i) == 0
  {
    if i > 0 {
      assert a[..i - 1] == a[..i][..i - 1] && b[..i - 1] == b[..i][..i - 1];
      assert a[i - 1] == a[..i][i - 1] && b[i - 1] == b[..i][i - 1];
      EqualPrefixesDistZero(a, b, i - 1);
    }
  }

  lemma {:induction false} DistZeroEqualPrefixes<T>(a: seq<T>, b: seq<T>, i: nat, j: nat)
    requires i <= |a| && j <= |b| && Dist(a, b, i, j) == 0
    ensures i == j && a[..i] == b[..j]
    decreases i + j
  {
    if i > 0 && j > 0 {
      assert Dist(a, b, i - 1, j - 1) == 0 && a[i - 1] == b[j - 1];
      DistZeroEqualPrefixes(a, b, i - 1, j - 1);
      assert a[..i] == a[..i - 1] + [a[i - 1]] && b[..j] == b[..j - 1] + [b[j - 1]];
    }
  }

  /** Distance is 0 exactly when the two sequences are equal. */
  lemma DistanceZeroIffEqual<T>(a: seq<T>, b: seq<T>)
    ensures Distance(a, b) == 0 <==> a == b
  {
    DistZeroIffEqualPrefixes(a, b, |a|, |b|);
    assert a[..|a|] == a && b[..|b|] == b;
  }

  function Gap(i: nat, j: nat): nat {
    if i <= j then j - i else i - j
  }

  /** No fewer edits than the difference in length. */
  lemma {:induction false} DistAtLeastLengthGap<T>(a: seq<T>, b: seq<T>, i: nat, j: nat)
    requires i <= |a| && j <= |b|
    ensures Dist(a, b, i, j) >= Gap(i, j)
    decreases i + j
  {
    if i > 0 && j > 0 {
      DistAtLeastLengthGap(a, b, i - 1, j);
      DistAtLeastLengthGap(a, b, i, j - 1);
      DistAtLeastLengthGap(a, b, i - 1, j - 1);
      MinAtLeast(Dist(a, b, i - 1, j) + 1, Dist(a, b, i, j - 1) + 1,
                 Dist(a, b, i - 1, j - 1) + Cost(a[i - 1], b[j - 1]), Gap(i, j));
    }
  }

  lemma MinAtLeast(x: nat, y: nat, z: nat, g: nat)
    requires x >= g && y >= g && z >= g
    ensures Min(x, Min(y, z)) >= g
  {
  }

  /** No more edits than the longer of the two lengths. */
  lemma {:induction false} DistAtMostLongerLength<T>(a: seq<T>, b: seq<T>, i: nat, j: nat)
    requires i <= |a| && j <= |b|
    ensures Dist(a, b, i, j) <= if i <= j then j else i
    decreases i + j
  {
    if i > 0 && j > 0 {
      DistAtMostLongerLength(a, b, i - 1, j - 1);
    }
  }

  /** The distance lies between the length gap and the longer length. */
  lemma DistanceBounds<T>(a: seq<T>, b: seq<T>)
    ensures Gap(|a|, |b|) <= Distance(a, b) <= if |a| <= |b| then |b| else |a|
  {
    DistAtLeastLengthGap(a, b, |a|, |b|);
    DistAtMostLongerLength(a, b, |a|, |b|);
  }

  /** Number of positions below `n` at which `a` and `b` differ. */
  function Mismatches<T(==)>(a: seq<T>, b: seq<T>, n: nat): nat
    requires n <= |a| && n <= |b|
  {
    if n == 0 then 0 else Mismatches(a, b, n - 1) + Cost(a[n - 1], b[n - 1])
  }

  lemma {:induction false} DistAtMostMismatches<T>(a: seq<T>, b: seq<T>, n: nat)
    requires n <= |a| && n <= |b|
    ensures Dist(a, b, n, n) <= Mismatches(a, b, n)
  {
    if n > 0 {
      DistAtMostMismatches(a, b, n - 1);
    }
  }

  lemma {:induction false} SmallDistIsMismatches<T>(a: seq<T>, b: seq<T>, n: nat)
    requires n <= |a| && n <= |b|
    requires Dist(a, b, n, n) <= 1
    ensures Dist(a, b, n, n) == Mismatches(a, b, n)
  {
    if n > 0 {
      DistAtLeastLengthGap(a, b, n - 1, n);
      DistAtLeastLengthGap(a, b, n, n - 1);
      SmallDistIsMismatches(a, b, n - 1);
    }
  }

  /** For words of equal length, distance 1 means exactly one differing position. */
  lemma EqualLengthDistanceOne<T>(a: seq<T>, b: seq<T>)
    requires |a| == |b|
    ensures Distance(a, b) == 1 <==> Mismatches(a, b, |a|) == 1
  {
    DistAtMostMismatches(a, b, |a|);
    if Distance(a, b) <= 1 {
      SmallDistIsMismatches(a, b, |a|);
    }
  }

  /** A single mismatch below `n` sits at one position, and everywhere else
      the two sequences agree. */
  lemma {:induction false} OneMismatchPosition<T>(a: seq<T>, b: seq<T>, n: nat)
    requires n <= |a| && n <= |b|
    requires Mismatches(a, b, n) == 1
    ensures exists p :: 0 <= p < n && a[p] != b[p] && forall j :: 0 <= j < n && j != p ==> a[j] == b[j]
  {
    if a[n - 1] != b[n - 1] {
      NoMismatches(a, b, n - 1);
    } else {
      OneMismatchPosition(a, b, n - 1);
      var p :| 0 <= p < n - 1 && a[p] != b[p] && forall j :: 0 <= j < n - 1 && j != p ==> a[j] == b[j];
      assert forall j :: 0 <= j < n && j != p ==> a[j] == b[j];
    }
  }

  lemma {:induction false} NoMismatches<T>(a: seq<T>, b: seq<T>, n: nat)
    requires n <= |a| && n <= |b|
    requires Mismatches(a, b, n) == 0
    ensures forall j :: 0 <= j < n ==> a[j] == b[j]
  {
    if n > 0 {
      NoMismatches(a, b, n - 1);
    }
  }
}
