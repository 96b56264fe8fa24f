/** The engine's entry point (`check_a_word`): pick a window of length
    buckets around the query's length, look for an exact match in the
    query's own bucket, otherwise collect every word of the window with its
    distance and hand the list to the ranking step. */
module Checker {
  import opened Outcomes
  import opened Typos
  import opened Levenshtein
  import opened Ranker

  /** One length bucket: word slots, filled from the front; the first empty
      slot ends the bucket. */
  type Bucket = seq<Option<string>>

  /** Bucket `k` holds the words of length `k + 2`. */
  type Dictionary = seq<Bucket>

  /** Either an exact match or a ranked list of similar words (or neither). */
  datatype TypoCheckResult = TypoCheckResult(matchWord: Option<string>, similarWordList: Option<seq<SimilarWord>>) {

    /** The matched word, or a fixed message when there is none. */
    function GetMatchWord(): (s: string)
      ensures matchWord.Some? ==> s == matchWord.value
      ensures matchWord.None? ==> s == NoMatchMessage
    {
      match matchWord
      case Some(w) => w
      case None => NoMatchMessage
    }

    /** The similar words, or an empty list when there are none. */
    function GetSimilarWordList(): (ws: seq<SimilarWord>)
      ensures similarWordList.Some? ==> ws == similarWordList.value
      ensures similarWordList.None? ==> ws == []
    {
      match similarWordList
      case Some(l) => l
      case None => []
    }
  }

  const NoMatchMessage: string := "There is not match word"

  /** The words of a bucket up to its first empty slot. */
  function LiveWords(b: Bucket): (ws: seq<string>)
    ensures |ws| <= |b|
    ensures forall i :: 0 <= i < |ws| ==> b[i] == Some(ws[i])
    ensures |ws| < |b| ==> b[|ws|].None?
  {
    if |b| == 0 then []
    else match b[0]
      case None => []
      case Some(w) => [w] + LiveWords(b[1..])
  }

  /** No word slot follows an empty one. */
  predicate FrontPacked(b: Bucket) {
    forall i, j :: 0 <= i < j < |b| && b[i].None? ==> b[j].None?
  }

  /** In a front-packed bucket the scan sees every word. */
  lemma FrontPackedAllLive(b: Bucket)
    requires FrontPacked(b)
    ensures forall i :: 0 <= i < |b| && b[i].Some? ==> i < |LiveWords(b)|
  {
    var ws := LiveWords(b);
    forall i | 0 <= i < |b| && b[i].Some?
      ensures i < |ws|
    {
    }
  }

  /** Candidates for a list of words, each with its distance to the query. */
  function Candidates(check: string, ws: seq<string>): (r: seq<SimilarWord>)
    ensures |r| == |ws|
    ensures forall i :: 0 <= i < |ws| ==> r[i] == NewSimilarWord(ws[i], Distance(check, ws[i]))
  {
    if |ws| == 0 then []
    else Candidates(check, ws[..|ws| - 1]) + [NewSimilarWord(ws[|ws| - 1], Distance(check, ws[|ws| - 1]))]
  }

  /** Candidates for every live word of a run of buckets, bucket by bucket. */
  function BucketsCandidates(check: string, bs: seq<Bucket>): (r: seq<SimilarWord>)
    ensures forall i :: 0 <= i < |r| ==> r[i] == NewSimilarWord(r[i].spelling, Distance(check, r[i].spelling))
  {
    if |bs| == 0 then []
    else BucketsCandidates(check, bs[..|bs| - 1]) + Candidates(check, LiveWords(bs[|bs| - 1]))
  }

  /** `calculate_word_list_levenshtein_length`: scans each bucket up to its
      first empty slot and appends a candidate per word to `acc`. */
  method CalculateWordListLevenshteinLength(bs: seq<Bucket>, check: string, acc: seq<SimilarWord>)
    returns (r: seq<SimilarWord>)
    ensures r == acc + BucketsCandidates(check, bs)
  {
    r := acc;
    var k := 0;
    while k < |bs|
      invariant k <= |bs|
      invariant r == acc + BucketsCandidates(check, bs[..k])
    {
      var next := ScanBucket(bs[k], check, r);
      Regroup(acc, BucketsCandidates(check, bs[..k]), Candidates(check, LiveWords(bs[k])), r, next);
      BucketsStep(check, bs, k);
      r, k := next, k + 1;
    }
    assert bs[..k] == bs;
  }

  /** Appending to an accumulated run appends to its last part. */
  lemma Regroup<T>(acc: seq<T>, b: seq<T>, c: seq<T>, r: seq<T>, next: seq<T>)
    requires r == acc + b && next == r + c
    ensures next == acc + (b + c)
  {
  }

  /** One more bucket appends that bucket's candidates. */
  lemma BucketsStep(check: string, bs: seq<Bucket>, k: nat)
    requires k < |bs|
    ensures BucketsCandidates(check, bs[..k + 1]) == BucketsCandidates(check, bs[..k]) + Candidates(check, LiveWords(bs[k]))
  {
    assert bs[..k + 1][..k] == bs[..k];
  }

  /** The inner loop: one bucket, stopping at its first empty slot. */
  method ScanBucket(b: Bucket, check: string, start: seq<SimilarWord>) returns (r: seq<SimilarWord>)
    ensures r == start + Candidates(check, LiveWords(b))
  {
    r := start;
    var i := 0;
    while i < |b|
      invariant i <= |LiveWords(b)|
      invariant r == start + Candidates(check, LiveWords(b)[..i])
    {
      match b[i]
      case None =>
        break;
      case Some(word) =>
        var d := Levenshtein.Levenshtein(check, word);
        assert LiveWords(b)[..i + 1][..i] == LiveWords(b)[..i];
        r := r + [NewSimilarWord(word, d)];
        i := i + 1;
    }
    assert LiveWords(b)[..i] == LiveWords(b);
  }

  /** The first word at distance 0 from the query, if any. */
  function FirstExact(check: string, ws: seq<string>): (r: Option<string>)
    ensures r.Some? <==> check in ws
    ensures r.Some? ==> r.value == check
  {
    if |ws| == 0 then None
    else
      DistanceZeroIffEqual(check, ws[0]);
      if Distance(check, ws[0]) == 0 then Some(ws[0])
      else
        assert ws == [ws[0]] + ws[1..];
        FirstExact(check, ws[1..])
  }

  function Max0(x: int): nat {
    if x < 0 then 0 else x
  }

  /** The bucket window `[lower, upper)` for a query of length `len >= 2`. The
      query's own bucket must exist; the longer-word slice starts at
      `len - 1` and aborts when its end falls below that. At length 21 the
      end is pinned to 19, so that slice always aborts. */
  function SearchWindow(len: nat, range: nat, n: nat): (r: Outcome<(nat, nat)>)
    requires len >= 2
    ensures r.Panic? ==> (r.cause == BucketOutOfRange <==> len - 2 >= n)
    ensures r.Panic? ==> r.cause == BucketOutOfRange || r.cause == SliceStartAfterEnd
    ensures r.Value? <==> len - 2 < n && len != 21 && range != 0
    ensures r.Value? ==> r.value.0 == Max0(len - 2 - range) && r.value.1 == Min(len - 2 + range, n)
    ensures r.Value? ==> r.value.0 <= len - 2 < len - 1 <= r.value.1 <= n
  {
    var upper0 := if len == 21 then len - 2 else len - 2 + range;
    var lower := Max0(len - 2 - range);
    var upper := Min(upper0, n);
    if len - 2 >= n then Panic(BucketOutOfRange)
    else if len - 1 > upper then Panic(SliceStartAfterEnd)
    else Value((lower, upper))
  }

  /** Every candidate the window yields, in scan order: the query's bucket,
      then the shorter lengths, then the longer ones. */
  function WindowCandidates(query: string, dict: Dictionary, lower: nat, upper: nat): (r: seq<SimilarWord>)
    requires lower <= |query| - 2 < |query| - 1 <= upper <= |dict|
    ensures forall i :: 0 <= i < |r| ==> r[i] == NewSimilarWord(r[i].spelling, Distance(query, r[i].spelling))
  {
    Candidates(query, LiveWords(dict[|query| - 2]))
      + BucketsCandidates(query, dict[lower..|query| - 2])
      + BucketsCandidates(query, dict[|query| - 1..upper])
  }

  /** `check_a_word`, for a query already in lower case. */
  function CheckAWord(query: string, cutoff: Option<nat>, limit: nat, order: Option<seq<TypoType>>,
                      dict: Dictionary): (r: Outcome<TypoCheckResult>)
    ensures cutoff == Some(1) ==> r == Panic(CutoffIsOne)
    ensures r.Value? && r.value.matchWord.Some? ==> r.value.matchWord.value == query && r.value.similarWordList.None?
  {
    if cutoff == Some(1) then Panic(CutoffIsOne)
    else
      var range := cutoff.GetOr(2);
      var len := |query|;
      if len == 1 then Value(TypoCheckResult(None, None))
      else if len == 0 then Panic(LengthUnderflow)
      else
        var window :- SearchWindow(len, range, |dict|);
        var (lower, upper) := window;
        match FirstExact(query, LiveWords(dict[len - 2]))
        case Some(word) => Value(TypoCheckResult(Some(word), None))
        case None =>
          var top :- GetTopSimilarWords(query, len, WindowCandidates(query, dict, lower, upper), cutoff, limit, order);
          Value(TypoCheckResult(None, Some(top)))
  }

  // ---------------------------------------------------------------------------
  // Properties of the search

  /** The call aborts on a cutoff of one, on an empty query, on a query too
      long for the dictionary, and, once the query's bucket exists, on a
      21-letter query or a cutoff of zero; a one-letter query gives an empty
      result. */
  lemma CheckAWordAborts(query: string, cutoff: Option<nat>, limit: nat, order: Option<seq<TypoType>>, dict: Dictionary)
    requires cutoff != Some(1)
    ensures var r := CheckAWord(query, cutoff, limit, order, dict);
      && (|query| == 1 ==> r == Value(TypoCheckResult(None, None)))
      && (|query| == 0 ==> r == Panic(LengthUnderflow))
      && (|query| >= 2 ==> (r == Panic(BucketOutOfRange) <==> |query| - 2 >= |dict|))
      && (|query| >= 2 ==> (r == Panic(SliceStartAfterEnd) <==> |query| - 2 < |dict| && (|query| == 21 || cutoff == Some(0))))
  {
    if |query| >= 2 {
      if SearchWindow(|query|, cutoff.GetOr(2), |dict|).Panic? {
        WindowAborts(query, cutoff, limit, order, dict);
      } else {
        WindowOpens(query, cutoff, limit, order, dict);
      }
    }
  }

  /** A window that aborts aborts the whole call with the same cause. */
  lemma WindowAborts(query: string, cutoff: Option<nat>, limit: nat, order: Option<seq<TypoType>>, dict: Dictionary)
    requires cutoff != Some(1) && |query| >= 2
    requires SearchWindow(|query|, cutoff.GetOr(2), |dict|).Panic?
    ensures CheckAWord(query, cutoff, limit, order, dict) == Panic(SearchWindow(|query|, cutoff.GetOr(2), |dict|).cause)
  {
  }

  /** Past an open window, the call aborts only inside the ranking step. */
  lemma WindowOpens(query: string, cutoff: Option<nat>, limit: nat, order: Option<seq<TypoType>>, dict: Dictionary)
    requires cutoff != Some(1) && |query| >= 2
    requires SearchWindow(|query|, cutoff.GetOr(2), |dict|).Value?
    ensures var r := CheckAWord(query, cutoff, limit, order, dict);
      r.Panic? ==> r.cause == MissingKeyboardEntry || r.cause == MissingSortKey
  {
  }

  /** A successful call on a query of two or more letters reports exactly one
      of an exact match and a similar-word list. */
  lemma CheckAWordReportsOne(query: string, cutoff: Option<nat>, limit: nat, order: Option<seq<TypoType>>, dict: Dictionary)
    requires |query| >= 2 && CheckAWord(query, cutoff, limit, order, dict).Value?
    ensures var r := CheckAWord(query, cutoff, limit, order, dict).value;
      r.matchWord.Some? != r.similarWordList.Some?
  {
  }

  /** A word of the query's own bucket equal to the query is reported as an
      exact match, with no similar-word list. */
  lemma ExactMatchReported(query: string, cutoff: Option<nat>, limit: nat, order: Option<seq<TypoType>>, dict: Dictionary)
    requires cutoff != Some(1) && 2 <= |query| && SearchWindow(|query|, cutoff.GetOr(2), |dict|).Value?
    ensures var r := CheckAWord(query, cutoff, limit, order, dict);
      (r == Value(TypoCheckResult(Some(query), None))) <==> query in LiveWords(dict[|query| - 2])
  {
  }

  /** `c` is the candidate for a live word of bucket `b`. */
  predicate IsEntry(check: string, b: Bucket, c: SimilarWord) {
    c.spelling in LiveWords(b) && c == NewSimilarWord(c.spelling, Distance(check, c.spelling))
  }

  /** `c` is the candidate for a live word of some bucket in `[lo, hi)`. */
  predicate InRange(check: string, dict: Dictionary, lo: nat, hi: nat, c: SimilarWord)
    requires lo <= hi <= |dict|
  {
    exists k :: lo <= k < hi && IsEntry(check, dict[k], c)
  }

  /** A word is a candidate exactly when it is a live word of some bucket of
      the window, and it carries its distance to the query. */
  lemma WindowCandidatesAre(query: string, dict: Dictionary, lower: nat, upper: nat, c: SimilarWord)
    requires lower <= |query| - 2 < |query| - 1 <= upper <= |dict|
    ensures c in WindowCandidates(query, dict, lower, upper) <==> InRange(query, dict, lower, upper, c)
  {
    var len := |query|;
    SameBucketPart(query, dict, c);
    RangePart(query, dict, lower, len - 2, c);
    RangePart(query, dict, len - 1, upper, c);
    RangeSplit(query, dict, lower, len - 2, upper, c);
    RangeSplit(query, dict, len - 2, len - 1, upper, c);
  }

  lemma SameBucketPart(query: string, dict: Dictionary, c: SimilarWord)
    requires 2 <= |query| < |dict| + 2
    ensures c in Candidates(query, LiveWords(dict[|query| - 2])) <==> InRange(query, dict, |query| - 2, |query| - 1, c)
  {
    var k := |query| - 2;
    BucketEntries(query, dict[k], c);
    SingleRange(query, dict, k, c);
  }

  lemma BucketEntries(check: string, b: Bucket, c: SimilarWord)
    ensures c in Candidates(check, LiveWords(b)) <==> IsEntry(check, b, c)
  {
    CandidatesMembers(check, LiveWords(b), c);
  }

  lemma RangePart(query: string, dict: Dictionary, lo: nat, hi: nat, c: SimilarWord)
    requires lo <= hi <= |dict|
    ensures c in BucketsCandidates(query, dict[lo..hi]) <==> InRange(query, dict, lo, hi, c)
  {
    BucketsMembers(query, dict[lo..hi], c);
    SliceRange(query, dict, lo, hi, c);
  }

  lemma SingleRange(check: string, dict: Dictionary, k: nat, c: SimilarWord)
    requires k < |dict|
    ensures InRange(check, dict, k, k + 1, c) <==> IsEntry(check, dict[k], c)
  {
    if IsEntry(check, dict[k], c) {
      assert k <= k < k + 1;
    }
  }

  lemma SliceRange(check: string, dict: Dictionary, lo: nat, hi: nat, c: SimilarWord)
    requires lo <= hi <= |dict|
    ensures InRange(check, dict[lo..hi], 0, hi - lo, c) <==> InRange(check, dict, lo, hi, c)
  {
    var s := dict[lo..hi];
    if InRange(check, s, 0, hi - lo, c) {
      var k :| 0 <= k < hi - lo && IsEntry(check, s[k], c);
      assert s[k] == dict[lo + k];
    }
    if InRange(check, dict, lo, hi, c) {
      var k :| lo <= k < hi && IsEntry(check, dict[k], c);
      assert s[k - lo] == dict[k];
    }
  }

  lemma RangeSplit(check: string, dict: Dictionary, lo: nat, mid: nat, hi: nat, c: SimilarWord)
    requires lo <= mid <= hi <= |dict|
    ensures InRange(check, dict, lo, hi, c) <==> InRange(check, dict, lo, mid, c) || InRange(check, dict, mid, hi, c)
  {
    if InRange(check, dict, lo, hi, c) {
      var k :| lo <= k < hi && IsEntry(check, dict[k], c);
      if k < mid {
        assert InRange(check, dict, lo, mid, c);
      } else {
        assert InRange(check, dict, mid, hi, c);
      }
    }
  }

  lemma {:induction false} CandidatesMembers(check: string, ws: seq<string>, c: SimilarWord)
    ensures c in Candidates(check, ws) <==> c.spelling in ws && c == NewSimilarWord(c.spelling, Distance(check, c.spelling))
  {
    if |ws| > 0 {
      var init := ws[..|ws| - 1];
      CandidatesMembers(check, init, c);
      assert ws == init + [ws[|ws| - 1]];
    }
  }

  lemma {:induction false} BucketsMembers(check: string, bs: seq<Bucket>, c: SimilarWord)
    ensures c in BucketsCandidates(check, bs) <==> InRange(check, bs, 0, |bs|, c)
  {
    if |bs| > 0 {
      var n := |bs| - 1;
      var init := bs[..n];
      BucketsMembers(check, init, c);
      CandidatesMembers(check, LiveWords(bs[n]), c);
      SliceRange(check, bs, 0, n, c);
      RangeSplit(check, bs, 0, n, n + 1, c);
      SingleRange(check, bs, n, c);
    }
  }

  /** Every reported similar word is a live dictionary word from a bucket of
      the window, reported with its true distance to the query, within the
      cutoff when one is given. */
  lemma ReportedWordsComeFromWindow(query: string, cutoff: Option<nat>, limit: nat, order: Option<seq<TypoType>>,
                                    dict: Dictionary, i: nat)
    requires CheckAWord(query, cutoff, limit, order, dict).Value?
    requires i < |CheckAWord(query, cutoff, limit, order, dict).value.GetSimilarWordList()|
    ensures var w := CheckAWord(query, cutoff, limit, order, dict).value.GetSimilarWordList()[i];
      && 2 <= |query|
      && (exists k :: Max0(|query| - 2 - cutoff.GetOr(2)) <= k < Min(|query| - 2 + cutoff.GetOr(2), |dict|)
                       && w.spelling in LiveWords(dict[k]))
      && w.distance == Distance(query, w.spelling)
      && (cutoff.Some? ==> w.distance <= cutoff.value)
  {
    var len := |query|;
    var window := SearchWindow(len, cutoff.GetOr(2), |dict|).value;
    var (lower, upper) := window;
    var xs := WindowCandidates(query, dict, lower, upper);
    var w := CheckAWord(query, cutoff, limit, order, dict).value.GetSimilarWordList()[i];
    var j := TopEntryOrigin(query, len, xs, cutoff, limit, order, i);
    assert xs[j] in xs;
    WindowCandidatesAre(query, dict, lower, upper, xs[j]);
    var k :| lower <= k < upper && IsEntry(query, dict[k], xs[j]);
    TopWithinCutoff(query, len, xs, cutoff, limit, order);
  }

  /** Past an open window with no exact match, the list holds as many words
      as survive the cutoff, capped at `limit`; when all of them fit, every
      live word of a window bucket within the cutoff is reported with its
      distance to the query. */
  lemma WindowWordsReported(query: string, cutoff: Option<nat>, limit: nat, order: Option<seq<TypoType>>,
                            dict: Dictionary, lower: nat, upper: nat)
    requires cutoff != Some(1) && 2 <= |query|
    requires SearchWindow(|query|, cutoff.GetOr(2), |dict|) == Value((lower, upper))
    requires query !in LiveWords(dict[|query| - 2])
    requires CheckAWord(query, cutoff, limit, order, dict).Value?
    ensures lower <= |query| - 2 < |query| - 1 <= upper <= |dict|
    ensures var r := CheckAWord(query, cutoff, limit, order, dict).value.GetSimilarWordList();
      var n := |Survivors(WindowCandidates(query, dict, lower, upper), cutoff)|;
      |r| == (if n <= limit then n else limit)
    ensures |Survivors(WindowCandidates(query, dict, lower, upper), cutoff)| <= limit ==>
      ReportsWindowWords(query, dict, lower, upper, cutoff,
                         CheckAWord(query, cutoff, limit, order, dict).value.GetSimilarWordList())
  {
    WindowTop(query, cutoff, limit, order, dict, lower, upper);
    WindowRanking(query, cutoff, limit, order, dict, lower, upper,
                  CheckAWord(query, cutoff, limit, order, dict).value.GetSimilarWordList());
  }

  /** `w` is a live word of a bucket in `[lower, upper)` within the cutoff of the query. */
  predicate WindowWordWithin(query: string, dict: Dictionary, lower: nat, upper: nat, cutoff: Option<nat>,
                             k: nat, w: string)
    requires upper <= |dict|
  {
    lower <= k < upper && w in LiveWords(dict[k]) && (cutoff.None? || Distance(query, w) <= cutoff.value)
  }

  /** `w` appears in `r` with its distance to the query. */
  predicate ReportedWith(query: string, r: seq<SimilarWord>, w: string) {
    exists i :: 0 <= i < |r| && r[i].spelling == w && r[i].distance == Distance(query, w)
  }

  /** Every live word of a window bucket within the cutoff appears in `r`
      with its distance to the query. */
  ghost predicate ReportsWindowWords(query: string, dict: Dictionary, lower: nat, upper: nat, cutoff: Option<nat>,
                                     r: seq<SimilarWord>)
    requires upper <= |dict|
  {
    forall k, w :: WindowWordWithin(query, dict, lower, upper, cutoff, k, w) ==> ReportedWith(query, r, w)
  }

  /** The ranking of the window's candidates has as many words as survive,
      capped at `limit`, and holds every surviving window word when they fit. */
  lemma WindowRanking(query: string, cutoff: Option<nat>, limit: nat, order: Option<seq<TypoType>>,
                      dict: Dictionary, lower: nat, upper: nat, r: seq<SimilarWord>)
    requires lower <= |query| - 2 < |query| - 1 <= upper <= |dict|
    requires GetTopSimilarWords(query, |query|, WindowCandidates(query, dict, lower, upper), cutoff, limit, order) == Value(r)
    ensures var n := |Survivors(WindowCandidates(query, dict, lower, upper), cutoff)|;
      |r| == (if n <= limit then n else limit)
    ensures |Survivors(WindowCandidates(query, dict, lower, upper), cutoff)| <= limit ==>
      ReportsWindowWords(query, dict, lower, upper, cutoff, r)
  {
    var xs := WindowCandidates(query, dict, lower, upper);
    TopLength(query, |query|, xs, cutoff, limit, order);
    if |Survivors(xs, cutoff)| <= limit {
      forall k, w | WindowWordWithin(query, dict, lower, upper, cutoff, k, w)
        ensures ReportedWith(query, r, w)
      {
        WindowWordRanked(query, cutoff, limit, order, dict, lower, upper, r, k, w);
      }
    }
  }

  /** Without an exact match the reported list is the ranking of the window's
      candidates. */
  lemma WindowTop(query: string, cutoff: Option<nat>, limit: nat, order: Option<seq<TypoType>>,
                  dict: Dictionary, lower: nat, upper: nat)
    requires cutoff != Some(1) && 2 <= |query|
    requires SearchWindow(|query|, cutoff.GetOr(2), |dict|) == Value((lower, upper))
    requires query !in LiveWords(dict[|query| - 2])
    requires CheckAWord(query, cutoff, limit, order, dict).Value?
    ensures lower <= |query| - 2 < |query| - 1 <= upper <= |dict|
    ensures var top := GetTopSimilarWords(query, |query|, WindowCandidates(query, dict, lower, upper), cutoff, limit, order);
      top.Value? && CheckAWord(query, cutoff, limit, order, dict).value.GetSimilarWordList() == top.value
  {
    assert FirstExact(query, LiveWords(dict[|query| - 2])).None?;
  }

  /** A live word of the window within the cutoff is ranked when every
      survivor fits under the limit. */
  lemma WindowWordRanked(query: string, cutoff: Option<nat>, limit: nat, order: Option<seq<TypoType>>,
                         dict: Dictionary, lower: nat, upper: nat, r: seq<SimilarWord>, k: nat, w: string)
    requires lower <= |query| - 2 < |query| - 1 <= upper <= |dict|
    requires WindowWordWithin(query, dict, lower, upper, cutoff, k, w)
    requires GetTopSimilarWords(query, |query|, WindowCandidates(query, dict, lower, upper), cutoff, limit, order) == Value(r)
    requires |Survivors(WindowCandidates(query, dict, lower, upper), cutoff)| <= limit
    ensures ReportedWith(query, r, w)
  {
    WindowWordSurvives(query, dict, lower, upper, cutoff, k, w);
    TopReportsAll(query, |query|, WindowCandidates(query, dict, lower, upper), cutoff, limit, order);
  }

  /** A live word of the window within the cutoff survives the cutoff filter. */
  lemma WindowWordSurvives(query: string, dict: Dictionary, lower: nat, upper: nat, cutoff: Option<nat>,
                           k: nat, w: string)
    requires lower <= |query| - 2 < |query| - 1 <= upper <= |dict|
    requires WindowWordWithin(query, dict, lower, upper, cutoff, k, w)
    ensures NewSimilarWord(w, Distance(query, w)) in Survivors(WindowCandidates(query, dict, lower, upper), cutoff)
  {
    var xs := WindowCandidates(query, dict, lower, upper);
    var c := NewSimilarWord(w, Distance(query, w));
    assert IsEntry(query, dict[k], c);
    WindowCandidatesAre(query, dict, lower, upper, c);
    FilterMembers(KeptBy(cutoff), xs);
  }

  /** With the default kind order, the search aborts only for the reasons its
      own contract lists, or on a query letter outside the keyboard table. */
  lemma DefaultOrderNoSortAbort(query: string, cutoff: Option<nat>, limit: nat, dict: Dictionary)
    ensures CheckAWord(query, cutoff, limit, None, dict) != Panic(MissingSortKey)
  {
    if cutoff != Some(1) && |query| >= 2 {
      var w := SearchWindow(|query|, cutoff.GetOr(2), |dict|);
      if w.Panic? {
        WindowAborts(query, cutoff, limit, None, dict);
      } else {
        DefaultOrderNeverMissing(query, |query|, WindowCandidates(query, dict, w.value.0, w.value.1), cutoff, limit);
      }
    }
  }
}
