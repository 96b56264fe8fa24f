/** Ranking of the candidates found for a query (`get_top_similar_words`):
    order by distance, drop those beyond the cutoff, relabel the distance-one
    candidates, order by typo kind, keep the first `limit`. */
module Ranker {
  import opened Outcomes
  import opened Typos
  import opened Classifier
  import opened Sequences
  import opened StableSort

  /** The kind order used when the caller gives none: extra characters,
      missing characters, similar shapes, keyboard neighbours, unclassified. */
  const DefaultOrder: seq<TypoType> := [
    ExtraCharacters('A', Head),
    MissingCharacters('Z', Tail),
    SimilarShapes,
    CloseKeyboardPlacement,
    UndefinedType
  ]

  /** `i` is the last position of `order` whose kind has this name. */
  predicate LastIndexOf(order: seq<TypoType>, name: string, i: nat) {
    && i < |order|
    && TypeName(order[i]) == name
    && forall j :: i < j < |order| ==> TypeName(order[j]) != name
  }

  /** Some entry of `order` has a kind with this name. */
  predicate Lists(order: seq<TypoType>, name: string) {
    exists i :: 0 <= i < |order| && TypeName(order[i]) == name
  }

  /** The order as a name-to-priority table. Collecting `(name, index)` pairs
      into a hash map keeps the index of the last entry for a repeated name. */
  function OrderMap(order: seq<TypoType>): (m: map<string, nat>)
    ensures forall name :: name in m <==> Lists(order, name)
    ensures forall name :: name in m ==> LastIndexOf(order, name, m[name])
  {
    if |order| == 0 then map[]
    else
      var init := order[..|order| - 1];
      var m0 := OrderMap(init);
      OrderMapDomain(order, m0);
      OrderMapIndex(order, m0);
      m0[TypeName(order[|order| - 1]) := |order| - 1]
  }

  /** Adding the last entry to the table of all the others: the names. */
  lemma OrderMapDomain(order: seq<TypoType>, m0: map<string, nat>)
    requires 0 < |order|
    requires forall name :: name in m0 <==> Lists(order[..|order| - 1], name)
    ensures forall name :: name in m0[TypeName(order[|order| - 1]) := |order| - 1] <==> Lists(order, name)
  {
    var n := |order| - 1;
    var init := order[..n];
    forall name
      ensures name in m0 || name == TypeName(order[n]) <==> Lists(order, name)
    {
      if Lists(order, name) && name != TypeName(order[n]) {
        var i :| 0 <= i < |order| && TypeName(order[i]) == name;
        assert TypeName(init[i]) == name;
      }
      if name in m0 {
        var i :| 0 <= i < n && TypeName(init[i]) == name;
        assert TypeName(order[i]) == name;
      }
    }
  }

  /** Adding the last entry to the table of all the others: the indices. */
  lemma OrderMapIndex(order: seq<TypoType>, m0: map<string, nat>)
    requires 0 < |order|
    requires forall name :: name in m0 ==> LastIndexOf(order[..|order| - 1], name, m0[name])
    ensures var m := m0[TypeName(order[|order| - 1]) := |order| - 1];
      forall name :: name in m ==> LastIndexOf(order, name, m[name])
  {
    var n := |order| - 1;
    var m := m0[TypeName(order[n]) := n];
    forall name | name in m
      ensures LastIndexOf(order, name, m[name])
    {
      OrderMapEntry(order, m0, name);
    }
  }

  lemma OrderMapEntry(order: seq<TypoType>, m0: map<string, nat>, name: string)
    requires 0 < |order|
    requires name in m0 ==> LastIndexOf(order[..|order| - 1], name, m0[name])
    requires name in m0 || name == TypeName(order[|order| - 1])
    ensures LastIndexOf(order, name, m0[TypeName(order[|order| - 1]) := |order| - 1][name])
  {
    var n := |order| - 1;
    var m := m0[TypeName(order[n]) := n];
    if name == TypeName(order[n]) {
      LastIndexAtEnd(order, name);
      assert m[name] == n;
    } else {
      assert m[name] == m0[name];
      LastIndexExtends(order, name, m0[name]);
    }
  }

  lemma LastIndexAtEnd(order: seq<TypoType>, name: string)
    requires 0 < |order| && name == TypeName(order[|order| - 1])
    ensures LastIndexOf(order, name, |order| - 1)
  {
  }

  lemma LastIndexExtends(order: seq<TypoType>, name: string, i: nat)
    requires 0 < |order| && name != TypeName(order[|order| - 1])
    requires LastIndexOf(order[..|order| - 1], name, i)
    ensures LastIndexOf(order, name, i)
  {
    var n := |order| - 1;
    assert TypeName(order[i]) == TypeName(order[..n][i]);
    forall j | i < j < |order|
      ensures TypeName(order[j]) != name
    {
      if j < n {
        assert order[j] == order[..n][j];
      }
    }
  }

  /** A candidate's priority under a table; kinds absent from it rank 0,
      which matters only for lists too short to be compared. */
  function Rank(m: map<string, nat>, w: SimilarWord): nat {
    var name := TypeName(w.typoType);
    if name in m then m[name] else 0
  }

  function RankKey(m: map<string, nat>): SimilarWord -> nat {
    w => Rank(m, w)
  }

  function DistanceOf(w: SimilarWord): nat {
    w.distance
  }

  /** Every candidate's kind is listed in the table. */
  predicate AllRanked(m: map<string, nat>, xs: seq<SimilarWord>) {
    forall i :: 0 <= i < |xs| ==> TypeName(xs[i].typoType) in m
  }

  /** Stable sort by kind priority (`sort_by_typo_type`). The comparator
      unwraps a table lookup, so a list of two or more candidates aborts when
      any candidate's kind is missing from the order; a shorter list is never
      compared. */
  function SortByTypoType(xs: seq<SimilarWord>, order: seq<TypoType>): (r: Outcome<seq<SimilarWord>>)
    ensures r.Panic? <==> |xs| >= 2 && exists i :: 0 <= i < |xs| && TypeName(xs[i].typoType) !in OrderMap(order)
    ensures r.Panic? ==> r.cause == MissingSortKey
    ensures r.Value? ==> |r.value| == |xs| && multiset(r.value) == multiset(xs)
    ensures r.Value? ==> SortedBy(r.value, RankKey(OrderMap(order)))
    ensures r.Value? ==> forall k :: KeyFilter(r.value, RankKey(OrderMap(order)), k) == KeyFilter(xs, RankKey(OrderMap(order)), k)
  {
    var m := OrderMap(order);
    if |xs| >= 2 && !AllRanked(m, xs) then Panic(MissingSortKey)
    else
      SortIsStable(xs, RankKey(m));
      SortPermutes(xs, RankKey(m));
      Value(Sort(xs, RankKey(m)))
  }

  /** The default order ranks the kinds 0 to 4 in the order it lists them. */
  lemma DefaultRanks(w: SimilarWord)
    ensures var m := OrderMap(DefaultOrder);
      TypeName(w.typoType) in m &&
      Rank(m, w) == match w.typoType
                    case ExtraCharacters(_, _) => 0
                    case MissingCharacters(_, _) => 1
                    case SimilarShapes => 2
                    case CloseKeyboardPlacement => 3
                    case UndefinedType => 4
  {
    var m := OrderMap(DefaultOrder);
    var i := match w.typoType
             case ExtraCharacters(_, _) => 0
             case MissingCharacters(_, _) => 1
             case SimilarShapes => 2
             case CloseKeyboardPlacement => 3
             case UndefinedType => 4;
    TypeNameIdentifiesVariant(DefaultOrder[i], w.typoType);
    assert TypeName(DefaultOrder[i]) == TypeName(w.typoType);
    forall j | 0 <= j < 5 && j != i
      ensures TypeName(DefaultOrder[j]) != TypeName(w.typoType)
    {
      TypeNameIdentifiesVariant(DefaultOrder[j], w.typoType);
    }
    assert LastIndexOf(DefaultOrder, TypeName(w.typoType), i);
  }

  /** Relabels one candidate. Only distance-one candidates are touched: those
      of the query's length by the differing-letter test, the others by the
      missing/extra-character test. */
  function Reclassify(check: string, checkLength: nat, w: SimilarWord): (r: Outcome<SimilarWord>)
    ensures r.Value? ==> r.value.spelling == w.spelling && r.value.distance == w.distance
    ensures w.distance != 1 ==> r == Value(w)
    ensures r.Panic? ==> r.cause == MissingKeyboardEntry && w.distance == 1 && checkLength == |w.spelling|
  {
    if w.distance != 1 then Value(w)
    else if checkLength == |w.spelling| then FindDifferentAChar(check, w)
    else Value(FindMissingOrExtraChars(check, w))
  }

  /** Relabels every candidate in place; the first abort ends the loop. */
  function ReclassifyAll(check: string, checkLength: nat, xs: seq<SimilarWord>): (r: Outcome<seq<SimilarWord>>)
    ensures r.Value? ==> |r.value| == |xs|
    ensures r.Value? ==> forall i :: 0 <= i < |xs| ==> Reclassify(check, checkLength, xs[i]) == Value(r.value[i])
    ensures r.Panic? <==> exists i :: 0 <= i < |xs| && Reclassify(check, checkLength, xs[i]).Panic?
    ensures r.Panic? ==> r.cause == MissingKeyboardEntry
  {
    if |xs| == 0 then Value([])
    else
      var w :- Reclassify(check, checkLength, xs[0]);
      var rest :- ReclassifyAll(check, checkLength, xs[1..]);
      assert forall i :: 1 <= i < |xs| ==> xs[i] == xs[1..][i - 1];
      Value([w] + rest)
  }

  /** The cutoff test of `retain`; with no cutoff every candidate is kept. */
  function Kept(cutoff: Option<nat>, w: SimilarWord): bool {
    cutoff.None? || w.distance <= cutoff.value
  }

  function KeptBy(cutoff: Option<nat>): SimilarWord -> bool {
    w => Kept(cutoff, w)
  }

  /** The first `limit` candidates, or all of them when there are fewer. */
  function Truncate(xs: seq<SimilarWord>, limit: nat): (r: seq<SimilarWord>)
    ensures |r| == if |xs| <= limit then |xs| else limit
    ensures r == xs[..|r|]
  {
    if |xs| <= limit then xs else xs[..limit]
  }

  /** The whole ranking step (`get_top_similar_words`). */
  function GetTopSimilarWords(check: string, checkLength: nat, xs: seq<SimilarWord>, cutoff: Option<nat>,
                              limit: nat, order: Option<seq<TypoType>>): (r: Outcome<seq<SimilarWord>>)
    ensures r.Panic? ==> r.cause == MissingKeyboardEntry || r.cause == MissingSortKey
  {
    var byDistance := Sort(xs, DistanceOf);
    var kept := Filter(KeptBy(cutoff), byDistance);
    RankSurvivors(check, checkLength, kept, limit, order)
  }

  /** The steps after the cutoff: relabel, order by kind, truncate. */
  function RankSurvivors(check: string, checkLength: nat, kept: seq<SimilarWord>,
                         limit: nat, order: Option<seq<TypoType>>): (r: Outcome<seq<SimilarWord>>)
    ensures r.Panic? ==> r.cause == MissingKeyboardEntry || r.cause == MissingSortKey
  {
    var relabelled :- ReclassifyAll(check, checkLength, kept);
    var ranked :- SortByTypoType(relabelled, order.GetOr(DefaultOrder));
    Value(Truncate(ranked, limit))
  }

  // ---------------------------------------------------------------------------
  // Properties of the ranking

  function PairOf(w: SimilarWord): (string, nat) {
    (w.spelling, w.distance)
  }

  /** The candidates that survive the cutoff, in input order. */
  function Survivors(xs: seq<SimilarWord>, cutoff: Option<nat>): seq<SimilarWord> {
    Filter(KeptBy(cutoff), xs)
  }

  /** The distance sort does not change which candidates survive the cutoff. */
  lemma KeptAfterSort(xs: seq<SimilarWord>, cutoff: Option<nat>)
    ensures multiset(Filter(KeptBy(cutoff), Sort(xs, DistanceOf))) == multiset(Survivors(xs, cutoff))
    ensures |Filter(KeptBy(cutoff), Sort(xs, DistanceOf))| == |Survivors(xs, cutoff)|
  {
    SortPermutes(xs, DistanceOf);
    FilterPermutation(KeptBy(cutoff), Sort(xs, DistanceOf), xs);
  }

  /** The result holds `limit` candidates, or every survivor when fewer survive. */
  lemma TopLength(check: string, checkLength: nat, xs: seq<SimilarWord>, cutoff: Option<nat>,
                  limit: nat, order: Option<seq<TypoType>>)
    requires GetTopSimilarWords(check, checkLength, xs, cutoff, limit, order).Value?
    ensures var n := |Survivors(xs, cutoff)|;
      |GetTopSimilarWords(check, checkLength, xs, cutoff, limit, order).value| == if n <= limit then n else limit
  {
    KeptAfterSort(xs, cutoff);
  }

  /** Every reported candidate is within the cutoff. */
  lemma TopWithinCutoff(check: string, checkLength: nat, xs: seq<SimilarWord>, cutoff: Option<nat>,
                        limit: nat, order: Option<seq<TypoType>>)
    requires GetTopSimilarWords(check, checkLength, xs, cutoff, limit, order).Value?
    ensures var r := GetTopSimilarWords(check, checkLength, xs, cutoff, limit, order).value;
      cutoff.Some? ==> forall i :: 0 <= i < |r| ==> r[i].distance <= cutoff.value
  {
    var r := GetTopSimilarWords(check, checkLength, xs, cutoff, limit, order).value;
    forall i | 0 <= i < |r|
      ensures Kept(cutoff, r[i])
    {
      var j := TopEntryOrigin(check, checkLength, xs, cutoff, limit, order, i);
    }
  }

  /** Each reported candidate is the relabelling of a survivor, so it keeps
      that survivor's spelling and distance. */
  lemma TopEntryOrigin(check: string, checkLength: nat, xs: seq<SimilarWord>, cutoff: Option<nat>,
                       limit: nat, order: Option<seq<TypoType>>, i: nat) returns (j: nat)
    requires GetTopSimilarWords(check, checkLength, xs, cutoff, limit, order).Value?
    requires i < |GetTopSimilarWords(check, checkLength, xs, cutoff, limit, order).value|
    ensures var r := GetTopSimilarWords(check, checkLength, xs, cutoff, limit, order).value;
      && j < |xs| && Kept(cutoff, xs[j])
      && Reclassify(check, checkLength, xs[j]) == Value(r[i])
  {
    var kept := Filter(KeptBy(cutoff), Sort(xs, DistanceOf));
    var relabelled := ReclassifyAll(check, checkLength, kept).value;
    var ranked := SortByTypoType(relabelled, order.GetOr(DefaultOrder)).value;
    var r := GetTopSimilarWords(check, checkLength, xs, cutoff, limit, order).value;
    assert r[i] == ranked[i];
    assert ranked[i] in multiset(relabelled);
    var k :| 0 <= k < |relabelled| && relabelled[k] == r[i];
    assert Reclassify(check, checkLength, kept[k]) == Value(r[i]);
    KeptAfterSort(xs, cutoff);
    FilterMembers(KeptBy(cutoff), xs);
    assert kept[k] in multiset(kept);
    assert kept[k] in Survivors(xs, cutoff);
    j :| 0 <= j < |xs| && xs[j] == kept[k];
  }

  /** Candidates at a distance other than one are reported unchanged. */
  lemma TopKeepsOthers(check: string, checkLength: nat, xs: seq<SimilarWord>, cutoff: Option<nat>,
                       limit: nat, order: Option<seq<TypoType>>)
    requires GetTopSimilarWords(check, checkLength, xs, cutoff, limit, order).Value?
    ensures var r := GetTopSimilarWords(check, checkLength, xs, cutoff, limit, order).value;
      forall i :: 0 <= i < |r| && r[i].distance != 1 ==> r[i] in xs
  {
    var r := GetTopSimilarWords(check, checkLength, xs, cutoff, limit, order).value;
    forall i | 0 <= i < |r| && r[i].distance != 1
      ensures r[i] in xs
    {
      var j := TopEntryOrigin(check, checkLength, xs, cutoff, limit, order, i);
    }
  }

  /** The reported (spelling, distance) pairs are a sub-multiset of the
      survivors' pairs: nothing is invented or duplicated. */
  lemma TopPairs(check: string, checkLength: nat, xs: seq<SimilarWord>, cutoff: Option<nat>,
                 limit: nat, order: Option<seq<TypoType>>)
    requires GetTopSimilarWords(check, checkLength, xs, cutoff, limit, order).Value?
    ensures var r := GetTopSimilarWords(check, checkLength, xs, cutoff, limit, order).value;
      multiset(MapSeq(PairOf, r)) <= multiset(MapSeq(PairOf, Survivors(xs, cutoff)))
  {
    var kept := Filter(KeptBy(cutoff), Sort(xs, DistanceOf));
    var relabelled := ReclassifyAll(check, checkLength, kept).value;
    var ranked := SortByTypoType(relabelled, order.GetOr(DefaultOrder)).value;
    var r := GetTopSimilarWords(check, checkLength, xs, cutoff, limit, order).value;
    assert MapSeq(PairOf, relabelled) == MapSeq(PairOf, kept);
    MapPermutation(PairOf, ranked, relabelled);
    KeptAfterSort(xs, cutoff);
    MapPermutation(PairOf, kept, Survivors(xs, cutoff));
    PrefixMapSubMultiset(PairOf, ranked, |r|);
  }

  /** The result is ordered by kind priority and, within one kind, by
      ascending distance. */
  lemma TopOrdered(check: string, checkLength: nat, xs: seq<SimilarWord>, cutoff: Option<nat>,
                   limit: nat, order: Option<seq<TypoType>>)
    requires GetTopSimilarWords(check, checkLength, xs, cutoff, limit, order).Value?
    ensures var r := GetTopSimilarWords(check, checkLength, xs, cutoff, limit, order).value;
      var key := RankKey(OrderMap(order.GetOr(DefaultOrder)));
      SortedBy(r, key) && OrderedWithin(r, key, DistanceOf)
  {
    var key := RankKey(OrderMap(order.GetOr(DefaultOrder)));
    var sorted := Sort(xs, DistanceOf);
    var kept := Filter(KeptBy(cutoff), sorted);
    var relabelled := ReclassifyAll(check, checkLength, kept).value;
    var ranked := SortByTypoType(relabelled, order.GetOr(DefaultOrder)).value;
    KeptByDistance(xs, cutoff);
    RelabelKeepsDistanceOrder(check, checkLength, kept, relabelled);
    assert ranked == Sort(relabelled, key);
    SortWithin(relabelled, key, DistanceOf);
    PrefixOrdered(ranked, key, |GetTopSimilarWords(check, checkLength, xs, cutoff, limit, order).value|);
  }

  /** Candidates with kind priority `k` and distance `d` under table `m`. */
  function InGroup(m: map<string, nat>, k: nat, d: nat): SimilarWord -> bool {
    w => Rank(m, w) == k && w.distance == d
  }

  /** A candidate's relabelling, or the candidate itself when relabelling aborts. */
  function RelabelOrKeep(check: string, checkLength: nat): SimilarWord -> SimilarWord {
    w => if Reclassify(check, checkLength, w).Value? then Reclassify(check, checkLength, w).value else w
  }

  /** A successful relabelling of the whole list is the pointwise image of
      `RelabelOrKeep`. */
  lemma RelabelledImage(check: string, checkLength: nat, s: seq<SimilarWord>, r: seq<SimilarWord>)
    requires ReclassifyAll(check, checkLength, s) == Value(r)
    ensures |r| == |s| && forall i :: 0 <= i < |s| ==> r[i] == RelabelOrKeep(check, checkLength)(s[i])
  {
  }

  /** A test that fixes the distance sees the same survivors whether or not
      they were sorted by distance first. */
  lemma KeptGroup(xs: seq<SimilarWord>, cutoff: Option<nat>, h: SimilarWord -> bool, d: nat)
    requires forall w :: h(w) ==> DistanceOf(w) == d
    ensures Filter(h, Filter(KeptBy(cutoff), Sort(xs, DistanceOf))) == Filter(h, Survivors(xs, cutoff))
  {
    FilterCommute(h, KeptBy(cutoff), Sort(xs, DistanceOf));
    SortKeepsGroup(h, xs, DistanceOf, d);
    FilterCommute(KeptBy(cutoff), h, xs);
  }

  /** Among reported candidates of one kind priority and one distance, the
      order is their order in the input: both sorts are stable, so the
      reported group is a prefix of the same group of the relabelled
      survivors taken in input order. */
  lemma TopKeepsInputOrder(check: string, checkLength: nat, xs: seq<SimilarWord>, cutoff: Option<nat>,
                           limit: nat, order: Option<seq<TypoType>>, k: nat, d: nat)
    requires GetTopSimilarWords(check, checkLength, xs, cutoff, limit, order).Value?
    ensures ReclassifyAll(check, checkLength, Survivors(xs, cutoff)).Value?
    ensures var g := InGroup(OrderMap(order.GetOr(DefaultOrder)), k, d);
      Filter(g, GetTopSimilarWords(check, checkLength, xs, cutoff, limit, order).value)
        <= Filter(g, ReclassifyAll(check, checkLength, Survivors(xs, cutoff)).value)
  {
    var m := OrderMap(order.GetOr(DefaultOrder));
    var g := InGroup(m, k, d);
    var s := Survivors(xs, cutoff);
    var kept := Filter(KeptBy(cutoff), Sort(xs, DistanceOf));
    TopPanics(check, checkLength, xs, cutoff, limit, order);
    var relabelled := ReclassifyAll(check, checkLength, kept).value;
    var rs := ReclassifyAll(check, checkLength, s).value;
    RankedGroupPrefix(check, checkLength, kept, limit, order, k, d);
    SurvivorGroupsAgree(check, checkLength, xs, cutoff, g, d, relabelled, rs);
  }

  /** The kind sort and the truncation keep a group of one kind priority in
      order, as a prefix. */
  lemma RankedGroupPrefix(check: string, checkLength: nat, kept: seq<SimilarWord>, limit: nat,
                          order: Option<seq<TypoType>>, k: nat, d: nat)
    requires RankSurvivors(check, checkLength, kept, limit, order).Value?
    ensures ReclassifyAll(check, checkLength, kept).Value?
    ensures var g := InGroup(OrderMap(order.GetOr(DefaultOrder)), k, d);
      Filter(g, RankSurvivors(check, checkLength, kept, limit, order).value)
        <= Filter(g, ReclassifyAll(check, checkLength, kept).value)
  {
    var m := OrderMap(order.GetOr(DefaultOrder));
    var g := InGroup(m, k, d);
    var relabelled := ReclassifyAll(check, checkLength, kept).value;
    var ranked := SortByTypoType(relabelled, order.GetOr(DefaultOrder)).value;
    var r := RankSurvivors(check, checkLength, kept, limit, order).value;
    assert r == ranked[..|r|];
    FilterPrefix(g, ranked, |r|);
    assert ranked == Sort(relabelled, RankKey(m));
    SortKeepsGroup(g, relabelled, RankKey(m), k);
  }

  /** A group of one distance, taken from the relabelled survivors, is the
      same whether the survivors were sorted by distance first or not. */
  lemma SurvivorGroupsAgree(check: string, checkLength: nat, xs: seq<SimilarWord>, cutoff: Option<nat>,
                            g: SimilarWord -> bool, d: nat, relabelled: seq<SimilarWord>, rs: seq<SimilarWord>)
    requires forall w :: g(w) ==> w.distance == d
    requires ReclassifyAll(check, checkLength, Filter(KeptBy(cutoff), Sort(xs, DistanceOf))) == Value(relabelled)
    requires ReclassifyAll(check, checkLength, Survivors(xs, cutoff)) == Value(rs)
    ensures Filter(g, relabelled) == Filter(g, rs)
  {
    var h := Compose(g, RelabelOrKeep(check, checkLength));
    RelabelledGroup(check, checkLength, Filter(KeptBy(cutoff), Sort(xs, DistanceOf)), relabelled, g);
    RelabelledGroup(check, checkLength, Survivors(xs, cutoff), rs, g);
    RelabelledDistance(check, checkLength, g, d);
    KeptGroup(xs, cutoff, h, d);
  }

  /** Relabelling keeps the distance, so a test that fixes the distance of
      relabelled candidates fixes it before relabelling too. */
  lemma RelabelledDistance(check: string, checkLength: nat, g: SimilarWord -> bool, d: nat)
    requires forall w :: g(w) ==> w.distance == d
    ensures forall w :: Compose(g, RelabelOrKeep(check, checkLength))(w) ==> DistanceOf(w) == d
  {
    var f := RelabelOrKeep(check, checkLength);
    forall w | Compose(g, f)(w)
      ensures DistanceOf(w) == d
    {
      assert f(w).distance == w.distance;
    }
  }

  /** Filtering the relabelled candidates is relabelling the candidates whose
      relabelling passes the filter. */
  lemma RelabelledGroup(check: string, checkLength: nat, s: seq<SimilarWord>, r: seq<SimilarWord>,
                        g: SimilarWord -> bool)
    requires ReclassifyAll(check, checkLength, s) == Value(r)
    ensures Filter(g, r) == MapSeq(RelabelOrKeep(check, checkLength), Filter(Compose(g, RelabelOrKeep(check, checkLength)), s))
  {
    RelabelledImage(check, checkLength, s, r);
    FilterImage(RelabelOrKeep(check, checkLength), g, s, r);
  }

  /** When every survivor fits under the limit, every survivor is reported
      with its spelling and distance. */
  lemma TopReportsAll(check: string, checkLength: nat, xs: seq<SimilarWord>, cutoff: Option<nat>,
                      limit: nat, order: Option<seq<TypoType>>)
    requires GetTopSimilarWords(check, checkLength, xs, cutoff, limit, order).Value?
    requires |Survivors(xs, cutoff)| <= limit
    ensures var r := GetTopSimilarWords(check, checkLength, xs, cutoff, limit, order).value;
      forall c :: c in Survivors(xs, cutoff) ==>
        exists i :: 0 <= i < |r| && r[i].spelling == c.spelling && r[i].distance == c.distance
  {
    var r := GetTopSimilarWords(check, checkLength, xs, cutoff, limit, order).value;
    forall c | c in Survivors(xs, cutoff)
      ensures exists i :: 0 <= i < |r| && r[i].spelling == c.spelling && r[i].distance == c.distance
    {
      var i := TopReportsSurvivor(check, checkLength, xs, cutoff, limit, order, c);
      assert r[i].spelling == c.spelling && r[i].distance == c.distance;
    }
  }

  /** When every survivor fits under the limit, every survivor is reported,
      relabelled. */
  lemma TopReportsSurvivor(check: string, checkLength: nat, xs: seq<SimilarWord>, cutoff: Option<nat>,
                           limit: nat, order: Option<seq<TypoType>>, c: SimilarWord) returns (i: nat)
    requires GetTopSimilarWords(check, checkLength, xs, cutoff, limit, order).Value?
    requires |Survivors(xs, cutoff)| <= limit
    requires c in Survivors(xs, cutoff)
    ensures var r := GetTopSimilarWords(check, checkLength, xs, cutoff, limit, order).value;
      i < |r| && Reclassify(check, checkLength, c) == Value(r[i])
  {
    var kept := Filter(KeptBy(cutoff), Sort(xs, DistanceOf));
    KeptAfterSort(xs, cutoff);
    assert c in multiset(kept);
    var k :| 0 <= k < |kept| && kept[k] == c;
    i := RankedKeepsAll(check, checkLength, kept, limit, order, k);
  }

  /** When nothing is cut off by the limit, the relabelling of every kept
      candidate is ranked. */
  lemma RankedKeepsAll(check: string, checkLength: nat, kept: seq<SimilarWord>, limit: nat,
                       order: Option<seq<TypoType>>, k: nat) returns (i: nat)
    requires RankSurvivors(check, checkLength, kept, limit, order).Value?
    requires |kept| <= limit && k < |kept|
    ensures var r := RankSurvivors(check, checkLength, kept, limit, order).value;
      i < |r| && Reclassify(check, checkLength, kept[k]) == Value(r[i])
  {
    var relabelled := ReclassifyAll(check, checkLength, kept).value;
    var ranked := SortByTypoType(relabelled, order.GetOr(DefaultOrder)).value;
    assert RankSurvivors(check, checkLength, kept, limit, order).value == ranked;
    assert relabelled[k] in multiset(ranked);
    i :| 0 <= i < |ranked| && ranked[i] == relabelled[k];
  }

  /** Relabelling this candidate aborts. */
  predicate Aborts(check: string, checkLength: nat, w: SimilarWord) {
    Reclassify(check, checkLength, w).Panic?
  }

  /** Relabelling this candidate gives a kind the table does not list. */
  predicate Unranked(check: string, checkLength: nat, m: map<string, nat>, w: SimilarWord) {
    Reclassify(check, checkLength, w).Value? && TypeName(Reclassify(check, checkLength, w).value.typoType) !in m
  }

  predicate AnyAborts(check: string, checkLength: nat, s: seq<SimilarWord>) {
    exists i :: 0 <= i < |s| && Aborts(check, checkLength, s[i])
  }

  predicate AnyUnranked(check: string, checkLength: nat, m: map<string, nat>, s: seq<SimilarWord>) {
    exists i :: 0 <= i < |s| && Unranked(check, checkLength, m, s[i])
  }

  /** The survivors of the cutoff are still in distance order. */
  lemma KeptByDistance(xs: seq<SimilarWord>, cutoff: Option<nat>)
    ensures SortedBy(Filter(KeptBy(cutoff), Sort(xs, DistanceOf)), DistanceOf)
  {
    SortIsStable(xs, DistanceOf);
    FilterSorted(KeptBy(cutoff), Sort(xs, DistanceOf), DistanceOf);
  }

  /** Relabelling changes no distance, so it keeps a distance order. */
  lemma RelabelKeepsDistanceOrder(check: string, checkLength: nat, kept: seq<SimilarWord>, relabelled: seq<SimilarWord>)
    requires SortedBy(kept, DistanceOf)
    requires ReclassifyAll(check, checkLength, kept) == Value(relabelled)
    ensures SortedBy(relabelled, DistanceOf)
  {
    forall i, j | 0 <= i < j < |relabelled|
      ensures relabelled[i].distance <= relabelled[j].distance
    {
      assert relabelled[i].distance == kept[i].distance;
      assert relabelled[j].distance == kept[j].distance;
    }
  }

  /** The ranking aborts exactly when a surviving candidate makes the
      differing-letter test abort, or, with at least two survivors, when a
      relabelled survivor's kind is missing from the order. */
  lemma TopPanics(check: string, checkLength: nat, xs: seq<SimilarWord>, cutoff: Option<nat>,
                  limit: nat, order: Option<seq<TypoType>>)
    ensures var r := GetTopSimilarWords(check, checkLength, xs, cutoff, limit, order);
      var s := Survivors(xs, cutoff);
      var m := OrderMap(order.GetOr(DefaultOrder));
      && (r == Panic(MissingKeyboardEntry) <==> AnyAborts(check, checkLength, s))
      && (r == Panic(MissingSortKey) <==>
            !AnyAborts(check, checkLength, s) && |s| >= 2 && AnyUnranked(check, checkLength, m, s))
  {
    var s := Survivors(xs, cutoff);
    var m := OrderMap(order.GetOr(DefaultOrder));
    var kept := Filter(KeptBy(cutoff), Sort(xs, DistanceOf));
    KeptAfterSort(xs, cutoff);
    AbortsTransfer(check, checkLength, kept, s);
    UnrankedTransfer(check, checkLength, m, kept, s);
    RankSurvivorsPanics(check, checkLength, kept, limit, order);
  }

  lemma RankSurvivorsPanics(check: string, checkLength: nat, kept: seq<SimilarWord>, limit: nat, order: Option<seq<TypoType>>)
    ensures var r := RankSurvivors(check, checkLength, kept, limit, order);
      var m := OrderMap(order.GetOr(DefaultOrder));
      && (r == Panic(MissingKeyboardEntry) <==> AnyAborts(check, checkLength, kept))
      && (r == Panic(MissingSortKey) <==>
            !AnyAborts(check, checkLength, kept) && |kept| >= 2 && AnyUnranked(check, checkLength, m, kept))
  {
    var rl := ReclassifyAll(check, checkLength, kept);
    if rl.Value? {
      UnrankedAfterRelabel(check, checkLength, OrderMap(order.GetOr(DefaultOrder)), kept, rl.value);
    }
  }

  /** After relabelling, a kind is missing from the table exactly when some
      candidate relabels to a missing kind. */
  lemma UnrankedAfterRelabel(check: string, checkLength: nat, m: map<string, nat>, kept: seq<SimilarWord>, relabelled: seq<SimilarWord>)
    requires |relabelled| == |kept|
    requires forall i :: 0 <= i < |kept| ==> Reclassify(check, checkLength, kept[i]) == Value(relabelled[i])
    ensures (exists i :: 0 <= i < |relabelled| && TypeName(relabelled[i].typoType) !in m) <==> AnyUnranked(check, checkLength, m, kept)
  {
    if exists i :: 0 <= i < |relabelled| && TypeName(relabelled[i].typoType) !in m {
      var i :| 0 <= i < |relabelled| && TypeName(relabelled[i].typoType) !in m;
      assert Unranked(check, checkLength, m, kept[i]);
    }
  }

  lemma AbortsTransfer(check: string, checkLength: nat, a: seq<SimilarWord>, b: seq<SimilarWord>)
    requires multiset(a) == multiset(b)
    ensures AnyAborts(check, checkLength, a) <==> AnyAborts(check, checkLength, b)
  {
    SameElements(a, b);
    if AnyAborts(check, checkLength, a) {
      var i :| 0 <= i < |a| && Aborts(check, checkLength, a[i]);
      var k :| 0 <= k < |b| && b[k] == a[i];
    }
    if AnyAborts(check, checkLength, b) {
      var k :| 0 <= k < |b| && Aborts(check, checkLength, b[k]);
      var i :| 0 <= i < |a| && a[i] == b[k];
    }
  }

  lemma UnrankedTransfer(check: string, checkLength: nat, m: map<string, nat>, a: seq<SimilarWord>, b: seq<SimilarWord>)
    requires multiset(a) == multiset(b)
    ensures AnyUnranked(check, checkLength, m, a) <==> AnyUnranked(check, checkLength, m, b)
  {
    SameElements(a, b);
    if AnyUnranked(check, checkLength, m, a) {
      var i :| 0 <= i < |a| && Unranked(check, checkLength, m, a[i]);
      var k :| 0 <= k < |b| && b[k] == a[i];
    }
    if AnyUnranked(check, checkLength, m, b) {
      var k :| 0 <= k < |b| && Unranked(check, checkLength, m, b[k]);
      var i :| 0 <= i < |a| && a[i] == b[k];
    }
  }

  /** With the default order no candidate's kind is ever missing. */
  lemma DefaultOrderNeverMissing(check: string, checkLength: nat, xs: seq<SimilarWord>, cutoff: Option<nat>, limit: nat)
    ensures GetTopSimilarWords(check, checkLength, xs, cutoff, limit, None) != Panic(MissingSortKey)
  {
    var s := Survivors(xs, cutoff);
    TopPanics(check, checkLength, xs, cutoff, limit, None);
    if AnyUnranked(check, checkLength, OrderMap(DefaultOrder), s) {
      var i :| 0 <= i < |s| && Unranked(check, checkLength, OrderMap(DefaultOrder), s[i]);
      DefaultRanks(Reclassify(check, checkLength, s[i]).value);
    }
  }

  /** With the default order the ranking step succeeds exactly when no
      survivor of the cutoff aborts its relabelling. */
  lemma DefaultOrderSucceedsIff(check: string, checkLength: nat, xs: seq<SimilarWord>, cutoff: Option<nat>, limit: nat)
    ensures GetTopSimilarWords(check, checkLength, xs, cutoff, limit, None).Value?
            <==> !AnyAborts(check, checkLength, Survivors(xs, cutoff))
  {
    TopPanics(check, checkLength, xs, cutoff, limit, None);
    DefaultOrderNeverMissing(check, checkLength, xs, cutoff, limit);
  }

  // ---------------------------------------------------------------------------
  // Helpers about sequences of candidates

  /** Filtering keeps exactly the members that pass. */
  lemma {:induction false} FilterMembers<T(!new)>(p: T -> bool, s: seq<T>)
    ensures forall y :: y in Filter(p, s) <==> y in s && p(y)
  {
    if |s| > 0 {
      FilterMembers(p, s[1..]);
      assert s == [s[0]] + s[1..];
    }
  }

  /** Two permutations have the same members, position by position. */
  lemma SameElements<T>(a: seq<T>, b: seq<T>)
    requires multiset(a) == multiset(b)
    ensures forall i :: 0 <= i < |a| ==> exists k :: 0 <= k < |b| && b[k] == a[i]
    ensures forall k :: 0 <= k < |b| ==> exists i :: 0 <= i < |a| && a[i] == b[k]
  {
    forall i | 0 <= i < |a|
      ensures exists k :: 0 <= k < |b| && b[k] == a[i]
    {
      assert a[i] in multiset(b);
    }
    forall k | 0 <= k < |b|
      ensures exists i :: 0 <= i < |a| && a[i] == b[k]
    {
      assert b[k] in multiset(a);
    }
  }

  /** A filtered sorted list is sorted. */
  lemma {:induction false} FilterSorted<T(!new)>(p: T -> bool, s: seq<T>, key: T -> nat)
    requires SortedBy(s, key)
    ensures SortedBy(Filter(p, s), key)
  {
    if |s| > 0 {
      FilterSorted(p, s[1..], key);
      FilterMembers(p, s[1..]);
      var rest := Filter(p, s[1..]);
      forall j | 0 <= j < |rest|
        ensures key(s[0]) <= key(rest[j])
      {
        assert rest[j] in rest;
        assert rest[j] in s[1..];
        var m :| 0 <= m < |s[1..]| && s[1..][m] == rest[j];
        assert s[m + 1] == rest[j];
      }
    }
  }

  /** Both orderings survive cutting the list short. */
  lemma PrefixOrdered(s: seq<SimilarWord>, key: SimilarWord -> nat, n: nat)
    requires n <= |s|
    requires SortedBy(s, key) && OrderedWithin(s, key, DistanceOf)
    ensures SortedBy(s[..n], key) && OrderedWithin(s[..n], key, DistanceOf)
  {
    forall i, j | 0 <= i < j < n
      ensures PairWithin(s[..n], key, DistanceOf, i, j)
    {
      assert PairWithin(s, key, DistanceOf, i, j);
    }
  }
}
