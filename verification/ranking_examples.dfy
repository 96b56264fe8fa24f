/** The ranking step's unit tests (src/lib.rs:782-1039), restated as lemmas
    about `GetTopSimilarWords`: the basic sort, the cutoff, the limit, and the
    seven-candidate test under the default and a custom kind order. */
module RankingExamples {
  import opened Outcomes
  import opened Typos
  import opened Tables
  import opened Classifier
  import opened Sequences
  import opened StableSort
  import opened Ranker

  const Best: SimilarWord := NewSimilarWord("best", 1)
  const Tost: SimilarWord := NewSimilarWord("tost", 1)
  const Toast: SimilarWord := NewSimilarWord("toast", 2)
  const TostShape: SimilarWord := SimilarWord("tost", 1, SimilarShapes)

  /** The whole test: two results, "tost" first, then "best". */
  lemma BasicSorting()
    ensures GetTopSimilarWords("test", 4, [Best, Tost, Toast], None, 2, None) == Value([TostShape, Best])
  {
    var xs := [Best, Tost, Toast];
    AlreadyByDistance();
    KeepAllWithoutCutoff(xs);
    SurvivorsRanked();
  }

  lemma KeepAllWithoutCutoff(xs: seq<SimilarWord>)
    ensures Filter(KeptBy(None), xs) == xs
  {
    FilterKeepsAll(KeptBy(None), xs);
  }

  /** Relabelling, ordering by kind and truncating the three survivors. */
  lemma SurvivorsRanked()
    ensures RankSurvivors("test", 4, [Best, Tost, Toast], 2, None) == Value([TostShape, Best])
  {
    RelabelAll();
    RankByDefault();
    TruncateToTwo();
  }

  lemma TruncateToTwo()
    ensures Truncate([TostShape, Best, Toast], 2) == [TostShape, Best]
  {
  }

  lemma {:induction false} FilterKeepsAll<T>(p: T -> bool, s: seq<T>)
    requires forall i :: 0 <= i < |s| ==> p(s[i])
    ensures Filter(p, s) == s
  {
    if |s| > 0 {
      FilterKeepsAll(p, s[1..]);
    }
  }

  /** The input is already in distance order, and the sort is stable. */
  lemma AlreadyByDistance()
    ensures Sort([Best, Tost, Toast], DistanceOf) == [Best, Tost, Toast]
  {
    var xs := [Best, Tost, Toast];
    assert xs[1..] == [Tost, Toast] && xs[1..][1..] == [Toast];
    assert Sort([Toast], DistanceOf) == [Toast];
    assert Insert(Tost, [Toast], DistanceOf) == [Tost, Toast];
    assert Insert(Best, [Tost, Toast], DistanceOf) == [Best, Tost, Toast];
  }

  /** "best" differs from "test" in its first letter only, and 't' and 'b'
      are neither look-alikes nor neighbours: the label stays. */
  lemma RelabelBest()
    ensures Reclassify("test", 4, Best) == Value(Best)
  {
    BestCase("test", Best);
  }

  lemma BestCase(check: string, word: SimilarWord)
    requires check == "test" && word == Best
    ensures FindDifferentAChar(check, word) == Value(Best)
  {
    BestPair();
    assert OnlyDifferenceAt(check, word.spelling, 0) && check[0] == 't' && word.spelling[0] == 'b';
    SingleDifference(check, word, 0);
  }

  lemma BestPair()
    ensures !SimilarShape('t', 'b') && 't' in Keyboard && 'b' !in Keyboard['t']
  {
    BestShape();
    BestKeys();
  }

  lemma BestShape()
    ensures !SimilarShape('t', 'b')
  {
    SimilarShapeCases('t', 'b');
  }

  lemma BestKeys()
    ensures 't' in Keyboard && 'b' !in Keyboard['t']
  {
    assert Keyboard['t'] == Neighbours('t');
  }

  /** "tost" differs from "test" in 'e' against 'o', which look alike. */
  lemma RelabelTost()
    ensures Reclassify("test", 4, Tost) == Value(TostShape)
  {
    TostCase("test", Tost);
  }

  lemma TostCase(check: string, word: SimilarWord)
    requires check == "test" && word == Tost
    ensures FindDifferentAChar(check, word) == Value(TostShape)
  {
    SimilarShapeCases('e', 'o');
    assert OnlyDifferenceAt(check, word.spelling, 1) && check[1] == 'e' && word.spelling[1] == 'o';
    SingleDifference(check, word, 1);
  }

  lemma RelabelAll()
    ensures ReclassifyAll("test", 4, [Best, Tost, Toast]) == Value([Best, TostShape, Toast])
  {
    RelabelBest();
    RelabelTost();
    RelabelThree("test", 4, Best, Tost, Toast, Best, TostShape, Toast);
  }

  lemma RelabelThree(check: string, checkLength: nat, a: SimilarWord, b: SimilarWord, c: SimilarWord,
                     a': SimilarWord, b': SimilarWord, c': SimilarWord)
    requires Reclassify(check, checkLength, a) == Value(a')
    requires Reclassify(check, checkLength, b) == Value(b')
    requires Reclassify(check, checkLength, c) == Value(c')
    ensures ReclassifyAll(check, checkLength, [a, b, c]) == Value([a', b', c'])
  {
    var xs, ys := [a, b, c], [a', b', c'];
    forall i | 0 <= i < |xs|
      ensures Reclassify(check, checkLength, xs[i]) == Value(ys[i])
    {
    }
    RelabelPointwise(check, checkLength, xs, ys);
  }

  /** When every candidate relabels without aborting, the loop yields the
      relabelled list. */
  lemma RelabelPointwise(check: string, checkLength: nat, xs: seq<SimilarWord>, ys: seq<SimilarWord>)
    requires |xs| == |ys|
    requires forall i :: 0 <= i < |xs| ==> Reclassify(check, checkLength, xs[i]) == Value(ys[i])
    ensures ReclassifyAll(check, checkLength, xs) == Value(ys)
  {
    var r := ReclassifyAll(check, checkLength, xs);
    assert r.Value?;
    forall i | 0 <= i < |xs|
      ensures r.value[i] == ys[i]
    {
      assert Reclassify(check, checkLength, xs[i]) == Value(r.value[i]);
    }
    assert r.value == ys;
  }

  /** Under the default order "tost" ranks 2 and the other two rank 4. */
  lemma RankByDefault()
    ensures SortByTypoType([Best, TostShape, Toast], DefaultOrder) == Value([TostShape, Best, Toast])
  {
    var m := OrderMap(DefaultOrder);
    DefaultRanks(Best);
    DefaultRanks(TostShape);
    DefaultRanks(Toast);
    SortThree(m, Best, TostShape, Toast);
  }

  /** Two candidates of rank 4 around one of rank 2: the stable sort moves the
      middle one to the front. */
  lemma SortThree(m: map<string, nat>, a: SimilarWord, b: SimilarWord, c: SimilarWord)
    requires TypeName(a.typoType) in m && TypeName(b.typoType) in m && TypeName(c.typoType) in m
    requires Rank(m, a) == 4 && Rank(m, b) == 2 && Rank(m, c) == 4
    ensures AllRanked(m, [a, b, c])
    ensures Sort([a, b, c], RankKey(m)) == [b, a, c]
  {
    var key := RankKey(m);
    MiddleFirst(a, b, c, key);
  }

  lemma MiddleFirst<T>(a: T, b: T, c: T, key: T -> nat)
    requires key(b) < key(a) <= key(c)
    ensures Sort([a, b, c], key) == [b, a, c]
  {
    var s := [a, b, c];
    assert s[1..] == [b, c];
    SortTwo(b, c, key);
    assert Sort(s, key) == Insert(a, [b, c], key);
    InsertSecond(a, b, c, key);
  }

  lemma SortTwo<T>(b: T, c: T, key: T -> nat)
    requires key(b) <= key(c)
    ensures Sort([b, c], key) == [b, c]
  {
    assert [b, c][1..] == [c];
    assert [c][1..] == [];
    assert Sort([c], key) == Insert(c, [], key) == [c];
    assert Insert(b, [c], key) == [b] + [c];
  }

  lemma InsertSecond<T>(a: T, b: T, c: T, key: T -> nat)
    requires key(b) < key(a) <= key(c)
    ensures Insert(a, [b, c], key) == [b, a, c]
  {
    assert [b, c][1..] == [c];
    assert Insert(a, [c], key) == [a] + [c];
    assert Insert(a, [b, c], key) == [b] + Insert(a, [c], key);
  }

  // ---------------------------------------------------------------------------
  // The cutoff and limit tests (src/lib.rs:895-915 and 1020-1039)

  const Tasteo: SimilarWord := NewSimilarWord("tasteo", 3)

  /** With a cutoff of 2, "tasteo" is dropped and the two others remain. */
  lemma WithCutoff()
    ensures var r := GetTopSimilarWords("test", 4, [Tost, Toast, Tasteo], Some(2), 3, None);
      r.Value? && |r.value| == 2 && forall i :: 0 <= i < |r.value| ==> r.value[i].distance <= 2
  {
    var xs := [Tost, Toast, Tasteo];
    CutoffSurvivors();
    RelabelTost();
    NoneAbort("test", 4, Tost, Toast);
    DefaultOrderSucceedsIff("test", 4, xs, Some(2), 3);
    TopLength("test", 4, xs, Some(2), 3, None);
    TopWithinCutoff("test", 4, xs, Some(2), 3, None);
  }

  lemma CutoffSurvivors()
    ensures Survivors([Tost, Toast, Tasteo], Some(2)) == [Tost, Toast]
  {
    var p := KeptBy(Some(2));
    assert p(Tost) && p(Toast) && !p(Tasteo);
    assert [Tasteo][1..] == [];
    assert Filter(p, [Tasteo]) == [];
    assert [Toast, Tasteo][1..] == [Tasteo];
    assert Filter(p, [Toast, Tasteo]) == [Toast];
    assert [Tost, Toast, Tasteo][1..] == [Toast, Tasteo];
  }

  lemma NoneAbort(check: string, checkLength: nat, a: SimilarWord, b: SimilarWord)
    requires Reclassify(check, checkLength, a).Value? && Reclassify(check, checkLength, b).Value?
    ensures !AnyAborts(check, checkLength, [a, b])
  {
  }

  const Tetsaa: SimilarWord := NewSimilarWord("tetsaa", 2)
  const Tetsaao: SimilarWord := NewSimilarWord("tetsaao", 2)

  /** A limit of 1 keeps one of the three candidates. */
  lemma LimitResults()
    ensures var r := GetTopSimilarWords("tets", 4, [Tost, Tetsaa, Tetsaao], None, 1, None);
      r.Value? && |r.value| == 1
  {
    var xs := [Tost, Tetsaa, Tetsaao];
    KeepAllWithoutCutoff(xs);
    TetsTost();
    NoneAbortThree("tets", 4, Tost, Tetsaa, Tetsaao);
    DefaultOrderSucceedsIff("tets", 4, xs, None, 1);
    TopLength("tets", 4, xs, None, 1, None);
  }

  /** "tost" against "tets" first differs in 'e' against 'o', a shape pair,
      which settles the label before the keyboard is consulted. */
  lemma TetsTost()
    ensures Reclassify("tets", 4, Tost).Value?
  {
    TetsTostCase("tets", Tost);
  }

  lemma TetsTostCase(check: string, word: SimilarWord)
    requires check == "tets" && word == Tost
    ensures !FindDifferentAChar(check, word).Panic?
  {
    DifferentACharCases(check, word);
    SimilarShapeCases('e', 'o');
    var tb := StaticTables;
    assert check[1] == 'e' && word.spelling[1] == 'o';
    assert ShapeHit(tb, check, word.spelling, 1);
    assert ShapeFrom(tb, check, word.spelling, 0);
  }

  lemma NoneAbortThree(check: string, checkLength: nat, a: SimilarWord, b: SimilarWord, c: SimilarWord)
    requires Reclassify(check, checkLength, a).Value? && Reclassify(check, checkLength, b).Value?
    requires Reclassify(check, checkLength, c).Value?
    ensures !AnyAborts(check, checkLength, [a, b, c])
  {
  }

  // ---------------------------------------------------------------------------
  // The kind-ordering tests (src/lib.rs:782-868 and 918-1017)

  // The seven candidates of the tests, all at distance 1 from "tets", with
  // the kinds the tests attach to them.
  const InTest: SimilarWord := SimilarWord("test", 1, UndefinedType)
  const InTsts: SimilarWord := SimilarWord("tsts", 1, CloseKeyboardPlacement)
  const InTots: SimilarWord := SimilarWord("tots", 1, SimilarShapes)
  const InTtets: SimilarWord := SimilarWord("ttets", 1, ExtraCharacters('s', Head))
  const InTetss: SimilarWord := SimilarWord("tetss", 1, ExtraCharacters('s', Tail))
  const InEts: SimilarWord := SimilarWord("ets", 1, MissingCharacters('t', Head))
  const InTet: SimilarWord := SimilarWord("tet", 1, MissingCharacters('s', Tail))

  const Mixed: seq<SimilarWord> := [InTest, InTsts, InTots, InTtets, InTetss, InEts, InTet]

  // Relabelling recomputes the four of another length: a longer candidate
  // lacks a character of the query's point of view, a shorter one has one
  // too few, so their kinds swap with respect to the tests' inputs.
  const OutTtets: SimilarWord := SimilarWord("ttets", 1, MissingCharacters('t', Head))
  const OutTetss: SimilarWord := SimilarWord("tetss", 1, MissingCharacters('s', Tail))
  const OutEts: SimilarWord := SimilarWord("ets", 1, ExtraCharacters('t', Head))
  const OutTet: SimilarWord := SimilarWord("tet", 1, ExtraCharacters('s', Tail))

  const Relabelled: seq<SimilarWord> := [InTest, InTsts, InTots, OutTtets, OutTetss, OutEts, OutTet]

  /** The custom order of the second test. */
  const CustomOrder: seq<TypoType> := [
    SimilarShapes,
    CloseKeyboardPlacement,
    UndefinedType,
    ExtraCharacters('A', Head),
    MissingCharacters('Z', Tail)
  ]

  const ByDefault: seq<SimilarWord> := [OutEts, OutTet, OutTtets, OutTetss, InTots, InTsts, InTest]
  const ByCustom: seq<SimilarWord> := [InTots, InTsts, InTest, OutEts, OutTet, OutTtets, OutTetss]

  /** Default order: extra, extra, missing, missing, shapes, keyboard, unclassified. */
  lemma DefaultTypoTypeSorting()
    ensures GetTopSimilarWords("tets", 4, Mixed, None, 7, None) == Value(ByDefault)
  {
    MixedByDistance();
    KeepAllWithoutCutoff(Mixed);
    MixedRankedByDefault();
  }

  /** Custom order: shapes, keyboard, unclassified, extra, extra, missing, missing. */
  lemma CustomTypoTypeSorting()
    ensures GetTopSimilarWords("tets", 4, Mixed, None, 7, Some(CustomOrder)) == Value(ByCustom)
  {
    MixedByDistance();
    KeepAllWithoutCutoff(Mixed);
    MixedRankedByCustom();
  }

  lemma MixedRankedByDefault()
    ensures RankSurvivors("tets", 4, Mixed, 7, None) == Value(ByDefault)
  {
    RelabelMixed();
    DefaultRanksMixed();
    RankedWithinLimit("tets", 4, Mixed, 7, None, DefaultOrder, Relabelled, ByDefault);
  }

  lemma MixedRankedByCustom()
    ensures RankSurvivors("tets", 4, Mixed, 7, Some(CustomOrder)) == Value(ByCustom)
  {
    var order := Some(CustomOrder);
    assert order.GetOr(DefaultOrder) == CustomOrder;
    RelabelMixed();
    CustomRanksMixed();
    RankedWithinLimit("tets", 4, Mixed, 7, order, CustomOrder, Relabelled, ByCustom);
  }

  /** When the ordered list fits in the limit, it is the result. */
  lemma RankedWithinLimit(check: string, checkLength: nat, kept: seq<SimilarWord>, limit: nat,
                          order: Option<seq<TypoType>>, byKind: seq<TypoType>, relabelled: seq<SimilarWord>, ranked: seq<SimilarWord>)
    requires ReclassifyAll(check, checkLength, kept) == Value(relabelled)
    requires byKind == order.GetOr(DefaultOrder)
    requires SortByTypoType(relabelled, byKind) == Value(ranked)
    requires |ranked| <= limit
    ensures RankSurvivors(check, checkLength, kept, limit, order) == Value(ranked)
  {
  }

  lemma MixedByDistance()
    ensures Sort(Mixed, DistanceOf) == Mixed
  {
    assert forall i :: 0 <= i < |Mixed| ==> DistanceOf(Mixed[i]) == 1;
    SortOfSorted(Mixed, DistanceOf);
  }

  /** The relabelled list, built from the back one candidate at a time. */
  lemma RelabelMixed()
    ensures ReclassifyAll("tets", 4, Mixed) == Value(Relabelled)
  {
    RelabelFrom(0);
    assert Mixed[0..] == Mixed && Relabelled[0..] == Relabelled;
  }

  lemma {:induction false} RelabelFrom(k: nat)
    requires k <= |Mixed|
    ensures ReclassifyAll("tets", 4, Mixed[k..]) == Value(Relabelled[k..])
    decreases |Mixed| - k
  {
    if k < |Mixed| {
      RelabelFrom(k + 1);
      RelabelAt(k);
      SuffixCons(Mixed, k);
      SuffixCons(Relabelled, k);
      RelabelCons("tets", 4, Mixed[k], Mixed[k + 1..], Relabelled[k], Relabelled[k + 1..]);
    } else {
      assert Mixed[k..] == [] && Relabelled[k..] == [];
    }
  }

  lemma RelabelAt(k: nat)
    requires k < |Mixed|
    ensures Reclassify("tets", 4, Mixed[k]) == Value(Relabelled[k])
  {
    if k == 0 {
      RelabelTest();
    } else if k == 1 {
      RelabelTsts();
    } else if k == 2 {
      RelabelTots();
    } else if k == 3 {
      RelabelTtets();
    } else if k == 4 {
      RelabelTetss();
    } else if k == 5 {
      RelabelEts();
    } else {
      RelabelTet();
    }
  }

  lemma SuffixCons<T>(s: seq<T>, k: nat)
    requires k < |s|
    ensures s[k..] == [s[k]] + s[k + 1..]
  {
  }

  /** One more candidate in front relabels in front. */
  lemma RelabelCons(check: string, checkLength: nat, x: SimilarWord, xs: seq<SimilarWord>,
                    y: SimilarWord, ys: seq<SimilarWord>)
    requires Reclassify(check, checkLength, x) == Value(y)
    requires ReclassifyAll(check, checkLength, xs) == Value(ys)
    ensures ReclassifyAll(check, checkLength, [x] + xs) == Value([y] + ys)
  {
    assert ([x] + xs)[0] == x && ([x] + xs)[1..] == xs;
  }

  /** "test" against "tets" differs in the last two letters, 't'/'s' and
      's'/'t': neither pair looks alike or neighbours, so the label stays. */
  lemma RelabelTest()
    ensures Reclassify("tets", 4, InTest) == Value(InTest)
  {
    TestCase("tets", InTest);
  }

  lemma TestCase(check: string, word: SimilarWord)
    requires check == "tets" && word == InTest
    ensures FindDifferentAChar(check, word) == Value(InTest)
  {
    TestQuiet(check, word.spelling);
    DifferentACharCases(check, word);
  }

  /** No pair of "tets" and "test" looks alike, fails a lookup or neighbours. */
  lemma TestQuiet(c: string, t: string)
    requires c == "tets" && t == "test"
    ensures QuietFrom(StaticTables, c, t, 0) && !KeyFrom(StaticTables, c, t, 0)
  {
    var tb := StaticTables;
    TestPairs();
    assert ZipLength(c, t) == 4;
    forall j | 0 <= j < 4
      ensures !ShapeHit(tb, c, t, j) && !LookupFails(tb, c, t, j) && !KeyHit(tb, c, t, j)
    {
      if j < 2 {
        assert c[j] == t[j];
      } else if j == 2 {
        assert c[j] == 't' && t[j] == 's';
      } else {
        assert c[j] == 's' && t[j] == 't';
      }
    }
  }

  lemma TestPairs()
    ensures !SimilarShape('t', 's') && !SimilarShape('s', 't')
    ensures 't' in Keyboard && 's' !in Keyboard['t']
    ensures 's' in Keyboard && 't' !in Keyboard['s']
  {
    TSShapes();
    TKeys();
    SKeys();
  }

  lemma TSShapes()
    ensures !SimilarShape('t', 's') && !SimilarShape('s', 't')
  {
    SimilarShapeCases('t', 's');
    SimilarShapeCases('s', 't');
  }

  lemma TKeys()
    ensures 't' in Keyboard && 's' !in Keyboard['t']
  {
    assert Keyboard['t'] == Neighbours('t');
  }

  lemma SKeys()
    ensures 's' in Keyboard && 't' !in Keyboard['s']
  {
    assert Keyboard['s'] == Neighbours('s');
  }

  /** "tsts": 'e' against 's', keyboard neighbours. */
  lemma RelabelTsts()
    ensures Reclassify("tets", 4, InTsts) == Value(InTsts)
  {
    TstsCase("tets", InTsts);
  }

  lemma TstsCase(check: string, word: SimilarWord)
    requires check == "tets" && word == InTsts
    ensures FindDifferentAChar(check, word) == Value(InTsts)
  {
    TstsPair();
    assert OnlyDifferenceAt(check, word.spelling, 1) && check[1] == 'e' && word.spelling[1] == 's';
    SingleDifference(check, word, 1);
  }

  lemma TstsPair()
    ensures !SimilarShape('e', 's') && 'e' in Keyboard && 's' in Keyboard['e']
  {
    SimilarShapeCases('e', 's');
    EKeys();
  }

  lemma EKeys()
    ensures 'e' in Keyboard && 's' in Keyboard['e']
  {
    assert Keyboard['e'] == Neighbours('e');
  }

  /** "tots": 'e' against 'o', look-alikes. */
  lemma RelabelTots()
    ensures Reclassify("tets", 4, InTots) == Value(InTots)
  {
    TotsCase("tets", InTots);
  }

  lemma TotsCase(check: string, word: SimilarWord)
    requires check == "tets" && word == InTots
    ensures FindDifferentAChar(check, word) == Value(InTots)
  {
    SimilarShapeCases('e', 'o');
    assert OnlyDifferenceAt(check, word.spelling, 1) && check[1] == 'e' && word.spelling[1] == 'o';
    SingleDifference(check, word, 1);
  }

  /** "ttets" holds the query after its first letter, with nothing behind it. */
  lemma RelabelTtets()
    ensures Reclassify("tets", 4, InTtets) == Value(OutTtets)
  {
    MissingOrExtraCases("tets", InTtets);
    assert !OccursAt("tets", "ttets", 0) by { assert "ttets"[1] != "tets"[1]; }
    assert LeftmostWithTail("tets", "ttets", 0).None?;
    assert OccursAt("tets", "ttets", 1);
  }

  /** "tetss" holds the query at its start, followed by 's'. */
  lemma RelabelTetss()
    ensures Reclassify("tets", 4, InTetss) == Value(OutTetss)
  {
    MissingOrExtraCases("tets", InTetss);
    assert OccursAt("tets", "tetss", 0);
  }

  /** "ets" is the query without its first letter. */
  lemma RelabelEts()
    ensures Reclassify("tets", 4, InEts) == Value(OutEts)
  {
    MissingOrExtraCases("tets", InEts);
    assert IsSuffix("ets", "tets");
  }

  /** "tet" is the query without its last letter. */
  lemma RelabelTet()
    ensures Reclassify("tets", 4, InTet) == Value(OutTet)
  {
    MissingOrExtraCases("tets", InTet);
    assert !IsSuffix("tet", "tets") by { assert "tets"[1] != "tet"[0]; }
    assert IsPrefix("tet", "tets");
  }

  lemma DefaultRanksMixed()
    ensures SortByTypoType(Relabelled, DefaultOrder) == Value(ByDefault)
  {
    MixedRankedDefault();
    MixedSortedDefault();
  }

  lemma MixedRankedDefault()
    ensures AllRanked(OrderMap(DefaultOrder), Relabelled)
  {
    forall i | 0 <= i < |Relabelled|
      ensures TypeName(Relabelled[i].typoType) in OrderMap(DefaultOrder)
    {
      DefaultRanks(Relabelled[i]);
    }
  }

  lemma MixedSortedDefault()
    ensures Sort(Relabelled, RankKey(OrderMap(DefaultOrder))) == ByDefault
  {
    var key := RankKey(OrderMap(DefaultOrder));
    DefaultRanks(InTest);
    DefaultRanks(InTsts);
    DefaultRanks(InTots);
    DefaultRanks(OutTtets);
    DefaultRanks(OutTetss);
    DefaultRanks(OutEts);
    DefaultRanks(OutTet);
    assert key(InTest) == 4 && key(InTsts) == 3 && key(InTots) == 2;
    assert key(OutTtets) == 1 && key(OutTetss) == 1 && key(OutEts) == 0 && key(OutTet) == 0;
    SortDescending(InTest, InTsts, InTots, OutTtets, OutTetss, OutEts, OutTet, key);
  }

  lemma CustomRanksMixed()
    ensures SortByTypoType(Relabelled, CustomOrder) == Value(ByCustom)
  {
    MixedRankedCustom();
    MixedSortedCustom();
  }

  lemma MixedRankedCustom()
    ensures AllRanked(OrderMap(CustomOrder), Relabelled)
  {
    forall i | 0 <= i < |Relabelled|
      ensures TypeName(Relabelled[i].typoType) in OrderMap(CustomOrder)
    {
      CustomRanks(Relabelled[i]);
    }
  }

  lemma MixedSortedCustom()
    ensures Sort(Relabelled, RankKey(OrderMap(CustomOrder))) == ByCustom
  {
    var key := RankKey(OrderMap(CustomOrder));
    CustomRanks(InTest);
    CustomRanks(InTsts);
    CustomRanks(InTots);
    CustomRanks(OutTtets);
    CustomRanks(OutTetss);
    CustomRanks(OutEts);
    CustomRanks(OutTet);
    assert key(InTest) == 2 && key(InTsts) == 1 && key(InTots) == 0;
    assert key(OutTtets) == 4 && key(OutTetss) == 4 && key(OutEts) == 3 && key(OutTet) == 3;
    SortCustom(InTest, InTsts, InTots, OutTtets, OutTetss, OutEts, OutTet, key);
  }

  /** The custom order ranks its kinds 0 to 4 in the order it lists them. */
  lemma CustomRanks(w: SimilarWord)
    ensures var m := OrderMap(CustomOrder);
      TypeName(w.typoType) in m &&
      Rank(m, w) == match w.typoType
                    case SimilarShapes => 0
                    case CloseKeyboardPlacement => 1
                    case UndefinedType => 2
                    case ExtraCharacters(_, _) => 3
                    case MissingCharacters(_, _) => 4
  {
    var i := match w.typoType
             case SimilarShapes => 0
             case CloseKeyboardPlacement => 1
             case UndefinedType => 2
             case ExtraCharacters(_, _) => 3
             case MissingCharacters(_, _) => 4;
    TypeNameIdentifiesVariant(CustomOrder[i], w.typoType);
    forall j | 0 <= j < 5 && j != i
      ensures TypeName(CustomOrder[j]) != TypeName(w.typoType)
    {
      TypeNameIdentifiesVariant(CustomOrder[j], w.typoType);
    }
    assert LastIndexOf(CustomOrder, TypeName(w.typoType), i);
  }

  lemma SortCons<T>(x: T, s: seq<T>, key: T -> nat)
    ensures Sort([x] + s, key) == Insert(x, Sort(s, key), key)
  {
    assert ([x] + s)[1..] == s;
  }

  /** Sorting one more element that is larger than all the others. */
  lemma SortAppend<T>(x: T, s: seq<T>, t: seq<T>, key: T -> nat)
    requires Sort(s, key) == t
    requires forall i :: 0 <= i < |t| ==> key(t[i]) < key(x)
    ensures Sort([x] + s, key) == t + [x]
  {
    SortCons(x, s, key);
    InsertAt(x, t, key, |t|);
    assert t[..|t|] == t && t[|t|..] == [];
  }

  /** Sorting one more element that is not larger than the smallest. */
  lemma SortPrepend<T>(x: T, s: seq<T>, t: seq<T>, key: T -> nat)
    requires Sort(s, key) == t && 0 < |t| && key(x) <= key(t[0])
    ensures Sort([x] + s, key) == [x] + t
  {
    SortCons(x, s, key);
  }

  /** Sorting one more element that goes between `t` and `u`. */
  lemma SortBetween<T>(x: T, s: seq<T>, t: seq<T>, u: seq<T>, key: T -> nat)
    requires Sort(s, key) == t + u && 0 < |u| && key(x) <= key(u[0])
    requires forall i :: 0 <= i < |t| ==> key(t[i]) < key(x)
    ensures Sort([x] + s, key) == t + [x] + u
  {
    SortCons(x, s, key);
    var v := t + u;
    forall i | 0 <= i < |t|
      ensures key(v[i]) < key(x)
    {
      assert v[i] == t[i];
    }
    assert v[|t|] == u[0];
    InsertAt(x, v, key, |t|);
    assert v[..|t|] == t && v[|t|..] == u;
  }

  /** Keys 4, 3, 2, 1, 1, 0, 0: the stable sort reverses the groups and
      keeps each group's order. */
  lemma SortDescending<T>(a: T, b: T, c: T, d: T, e: T, f: T, g: T, key: T -> nat)
    requires key(a) == 4 && key(b) == 3 && key(c) == 2 && key(d) == 1 && key(e) == 1
    requires key(f) == 0 && key(g) == 0
    ensures Sort([a, b, c, d, e, f, g], key) == [f, g, d, e, c, b, a]
  {
    SortTail(c, d, e, f, g, key);
    SortAppend(b, [c, d, e, f, g], [f, g, d, e, c], key);
    SortAppend(a, [b, c, d, e, f, g], [f, g, d, e, c, b], key);
  }

  lemma SortTail<T>(c: T, d: T, e: T, f: T, g: T, key: T -> nat)
    requires key(c) == 2 && key(d) == 1 && key(e) == 1 && key(f) == 0 && key(g) == 0
    ensures Sort([c, d, e, f, g], key) == [f, g, d, e, c]
  {
    SortLowGroups(d, e, f, g, key);
    SortAppend(c, [d, e, f, g], [f, g, d, e], key);
  }

  /** The last four: two of one key, then two of a smaller key. */
  lemma SortLowGroups<T>(d: T, e: T, f: T, g: T, key: T -> nat)
    requires key(f) == key(g) < key(d) == key(e)
    ensures Sort([d, e, f, g], key) == [f, g, d, e]
  {
    SortCons(g, [], key);
    SortPrepend(f, [g], [g], key);
    SortAppend(e, [f, g], [f, g], key);
    SortBetween(d, [e, f, g], [f, g], [e], key);
  }

  /** Keys 2, 1, 0, 4, 4, 3, 3. */
  lemma SortCustom<T>(a: T, b: T, c: T, d: T, e: T, f: T, g: T, key: T -> nat)
    requires key(a) == 2 && key(b) == 1 && key(c) == 0 && key(d) == 4 && key(e) == 4
    requires key(f) == 3 && key(g) == 3
    ensures Sort([a, b, c, d, e, f, g], key) == [c, b, a, f, g, d, e]
  {
    SortCustomTail(c, d, e, f, g, key);
    SortBetween(b, [c, d, e, f, g], [c], [f, g, d, e], key);
    SortBetween(a, [b, c, d, e, f, g], [c, b], [f, g, d, e], key);
  }

  lemma SortCustomTail<T>(c: T, d: T, e: T, f: T, g: T, key: T -> nat)
    requires key(c) == 0 && key(d) == 4 && key(e) == 4 && key(f) == 3 && key(g) == 3
    ensures Sort([c, d, e, f, g], key) == [c] + [f, g, d, e]
  {
    SortLowGroups(d, e, f, g, key);
    SortPrepend(c, [d, e, f, g], [f, g, d, e], key);
  }
}
