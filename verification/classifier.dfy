/** The typo classifier for candidates at edit distance one.

    `FindMissingOrExtraChars` handles a candidate whose length differs from the
    query's; its four patterns are literal words anchored at one end and
    extended by `(.+)`, which this module reduces to prefix, suffix and
    occurrence tests (words are taken to contain no line breaks, which `.`
    would refuse to match). `FindDifferentAChar` handles equal lengths by
    scanning the zipped character pairs against the two static tables.
 */
module Classifier {
  import opened Outcomes
  import opened Typos
  import opened Tables

  // ---------------------------------------------------------------------------
  // Literal-with-group patterns

  predicate IsPrefix(p: string, s: string) {
    |p| <= |s| && s[..|p|] == p
  }

  predicate IsSuffix(p: string, s: string) {
    |p| <= |s| && s[|s| - |p|..] == p
  }

  predicate OccursAt(p: string, s: string, k: nat) {
    k + |p| <= |s| && s[k..k + |p|] == p
  }

  /** `p` occurs at `k` with at least one character after it. */
  predicate OccursWithTailAt(p: string, s: string, k: nat) {
    OccursAt(p, s, k) && k + |p| < |s|
  }

  /** `^lit(.+)`: the first character of the group, if the pattern matches. */
  function CaptureAfterPrefix(lit: string, s: string): (r: Option<char>)
    ensures r.Some? <==> exists g :: g != [] && s == lit + g
    ensures forall g :: g != [] && s == lit + g ==> r == Some(g[0])
  {
    if IsPrefix(lit, s) && |lit| < |s| then
      assert s == lit + s[|lit|..];
      Some(s[|lit|])
    else None
  }

  /** `(.+)lit$`: the first character of the group, if the pattern matches. */
  function CaptureBeforeSuffix(lit: string, s: string): (r: Option<char>)
    ensures r.Some? <==> exists g :: g != [] && s == g + lit
    ensures forall g :: g != [] && s == g + lit ==> r == Some(g[0])
  {
    if IsSuffix(lit, s) && |lit| < |s| then
      assert s == s[..|s| - |lit|] + lit;
      Some(s[0])
    else None
  }

  /** `^(.+)lit`: the first character of the group, if the pattern matches.
      The pattern matches when `lit` occurs at some offset of at least one,
      and the group always starts at the text's first character. */
  function CaptureBeforeOccurrence(lit: string, s: string): (r: Option<char>)
    ensures r.Some? <==> exists g, rest :: g != [] && s == g + lit + rest
    ensures forall g, rest :: g != [] && s == g + lit + rest ==> r == Some(g[0])
  {
    OccurrenceSplits(lit, s);
    if exists k :: 1 <= k <= |s| && OccursAt(lit, s, k) then Some(s[0]) else None
  }

  /** An occurrence of `lit` at an offset of at least one is a split of the
      text into a non-empty head, `lit`, and a rest. */
  lemma OccurrenceSplits(lit: string, s: string)
    ensures (exists k :: 1 <= k <= |s| && OccursAt(lit, s, k)) <==> exists g, rest :: g != [] && s == g + lit + rest
    ensures forall g, rest :: g != [] && s == g + lit + rest ==> g[0] == s[0]
  {
    if exists k :: 1 <= k <= |s| && OccursAt(lit, s, k) {
      var k :| 1 <= k <= |s| && OccursAt(lit, s, k);
      assert s == s[..k] + lit + s[k + |lit|..];
    }
    forall g, rest | g != [] && s == g + lit + rest
      ensures OccursAt(lit, s, |g|) && g[0] == s[0]
    {
      assert s[|g|..|g| + |lit|] == lit;
    }
  }

  /** The leftmost position at or after `from` where `lit` occurs with at least
      one character after it. */
  function LeftmostWithTail(lit: string, s: string, from: nat): (r: Option<nat>)
    ensures r.Some? ==> from <= r.value && OccursWithTailAt(lit, s, r.value)
    ensures r.Some? ==> forall k :: from <= k < r.value ==> !OccursWithTailAt(lit, s, k)
    ensures r.None? ==> forall k :: from <= k ==> !OccursWithTailAt(lit, s, k)
    decreases |s| - from
  {
    if from + |lit| >= |s| then None
    else if OccursAt(lit, s, from) then Some(from)
    else LeftmostWithTail(lit, s, from + 1)
  }

  /** `lit(.+)$`: the match starts at the leftmost occurrence of `lit` that has
      at least one character after it; the group's first character follows it. */
  function CaptureAfterOccurrence(lit: string, s: string): (r: Option<char>)
    ensures r.Some? <==> exists k :: OccursWithTailAt(lit, s, k)
    ensures forall k: nat :: OccursWithTailAt(lit, s, k) && (forall j :: 0 <= j < k ==> !OccursWithTailAt(lit, s, j))
                        ==> r == Some(s[k + |lit|])
  {
    match LeftmostWithTail(lit, s, 0)
    case Some(k) => Some(s[k + |lit|])
    case None => None
  }

  // ---------------------------------------------------------------------------
  // Different lengths

  /** Relabels a candidate whose spelling is shorter (extra characters in the
      query) or not shorter (missing characters) than the query. A later match
      overwrites an earlier one; with no match the label is left as it was. */
  function FindMissingOrExtraChars(check: string, word: SimilarWord): (r: SimilarWord)
    ensures r.spelling == word.spelling && r.distance == word.distance
  {
    var cand := word.spelling;
    if |cand| < |check| then
      var afterPrefix := match CaptureAfterPrefix(cand, check)
                         case Some(x) => ExtraCharacters(x, Tail)
                         case None => word.typoType;
      var afterSuffix := match CaptureBeforeSuffix(cand, check)
                         case Some(x) => ExtraCharacters(x, Head)
                         case None => afterPrefix;
      word.(typoType := afterSuffix)
    else
      var afterPrefix := match CaptureBeforeOccurrence(check, cand)
                         case Some(x) => MissingCharacters(x, Head)
                         case None => word.typoType;
      var afterSuffix := match CaptureAfterOccurrence(check, cand)
                         case Some(x) => MissingCharacters(x, Tail)
                         case None => afterPrefix;
      word.(typoType := afterSuffix)
  }

  /** The label in terms of where the shorter word sits in the longer one. */
  lemma MissingOrExtraCases(check: string, word: SimilarWord)
    ensures var r := FindMissingOrExtraChars(check, word);
      |word.spelling| < |check| ==>
      r.typoType == (if IsSuffix(word.spelling, check) then ExtraCharacters(check[0], Head)
                     else if IsPrefix(word.spelling, check) then ExtraCharacters(check[|word.spelling|], Tail)
                     else word.typoType)
    ensures var r := FindMissingOrExtraChars(check, word);
      |word.spelling| >= |check| ==>
      r.typoType == (match LeftmostWithTail(check, word.spelling, 0)
                     case Some(k) => MissingCharacters(word.spelling[k + |check|], Tail)
                     case None =>
                       if exists k :: 1 <= k <= |word.spelling| && OccursAt(check, word.spelling, k)
                       then MissingCharacters(word.spelling[0], Head)
                       else word.typoType)
  {
    if |word.spelling| < |check| {
      ExtraCases(check, word);
    } else {
      MissingCases(check, word);
    }
  }

  /** A shorter candidate is labelled by the query's first character when it
      ends the query, else by the character after it when it starts the query. */
  lemma ExtraCases(check: string, word: SimilarWord)
    requires |word.spelling| < |check|
    ensures FindMissingOrExtraChars(check, word).typoType
            == if IsSuffix(word.spelling, check) then ExtraCharacters(check[0], Head)
               else if IsPrefix(word.spelling, check) then ExtraCharacters(check[|word.spelling|], Tail)
               else word.typoType
  {
    var cand := word.spelling;
    if IsSuffix(cand, check) {
      assert check == check[..|check| - |cand|] + cand;
    } else if IsPrefix(cand, check) {
      assert check == cand + check[|cand|..];
    }
  }

  /** A longer candidate is labelled by the character after the leftmost
      occurrence of the query that has one, else by its own first character
      when the query occurs after it. */
  lemma MissingCases(check: string, word: SimilarWord)
    requires |word.spelling| >= |check|
    ensures FindMissingOrExtraChars(check, word).typoType
            == match LeftmostWithTail(check, word.spelling, 0)
               case Some(k) => MissingCharacters(word.spelling[k + |check|], Tail)
               case None =>
                 if exists k :: 1 <= k <= |word.spelling| && OccursAt(check, word.spelling, k)
                 then MissingCharacters(word.spelling[0], Head)
                 else word.typoType
  {
  }

  /** Within the pipeline a distance-one candidate of another length is exactly
      one character shorter or longer. A query one character longer is labelled
      by the character prepended to the candidate, else by the one appended. */
  lemma ExtraOneCharacter(check: string, word: SimilarWord)
    requires |check| == |word.spelling| + 1
    ensures var t := FindMissingOrExtraChars(check, word).typoType;
      && (check == [check[0]] + word.spelling ==> t == ExtraCharacters(check[0], Head))
      && ((check != [check[0]] + word.spelling && check == word.spelling + [check[|check| - 1]])
          ==> t == ExtraCharacters(check[|check| - 1], Tail))
      && ((check != [check[0]] + word.spelling && check != word.spelling + [check[|check| - 1]])
          ==> t == word.typoType)
  {
    MissingOrExtraCases(check, word);
    var cand := word.spelling;
    if IsSuffix(cand, check) {
      assert check == [check[0]] + cand by {
        assert check[1..] == cand;
      }
    }
    if IsPrefix(cand, check) {
      assert check == cand + [check[|check| - 1]] by {
        assert check[..|cand|] == cand;
      }
    }
  }

  /** A query one character shorter than the candidate is labelled by the
      candidate's appended character, else by its prepended one. */
  lemma MissingOneCharacter(check: string, word: SimilarWord)
    requires |word.spelling| == |check| + 1
    ensures var cand := word.spelling;
      var t := FindMissingOrExtraChars(check, word).typoType;
      && (cand == check + [cand[|cand| - 1]] ==> t == MissingCharacters(cand[|cand| - 1], Tail))
      && ((cand != check + [cand[|cand| - 1]] && cand == [cand[0]] + check)
          ==> t == MissingCharacters(cand[0], Head))
      && (cand != check + [cand[|cand| - 1]] && cand != [cand[0]] + check ==> t == word.typoType)
  {
    MissingOrExtraCases(check, word);
    var cand := word.spelling;
    if cand == check + [cand[|cand| - 1]] {
      assert OccursWithTailAt(check, cand, 0) by {
        assert cand[0..|check|] == check;
      }
    } else {
      NoTailOccurrence(check, cand);
      if cand == [cand[0]] + check {
        assert OccursAt(check, cand, 1) by {
          assert cand[1..] == check;
        }
      } else {
        NoLaterOccurrence(check, cand);
      }
    }
  }

  /** In a word one longer, the query can be followed by a character only at
      the start, where it would make the word the query plus one letter. */
  lemma NoTailOccurrence(check: string, cand: string)
    requires |cand| == |check| + 1 && cand != check + [cand[|cand| - 1]]
    ensures forall k :: !OccursWithTailAt(check, cand, k)
  {
    forall k | OccursWithTailAt(check, cand, k)
      ensures false
    {
    }
  }

  /** In a word one longer, the query can occur after the start only at
      position one, where it would make the word one letter plus the query. */
  lemma NoLaterOccurrence(check: string, cand: string)
    requires |cand| == |check| + 1 && cand != [cand[0]] + check
    ensures forall k :: 1 <= k <= |cand| ==> !OccursAt(check, cand, k)
  {
    forall k | 1 <= k <= |cand| && OccursAt(check, cand, k)
      ensures false
    {
    }
  }

  // ---------------------------------------------------------------------------
  // Equal lengths

  function ZipLength(c: string, t: string): nat {
    if |c| <= |t| then |c| else |t|
  }

  /** The classification tables, as `find_different_a_char` builds them on entry. */
  datatype Tableau = Tableau(groups: seq<seq<char>>, keyboard: map<char, seq<char>>)

  const StaticTables := Tableau(ShapeGroups, Keyboard)

  /** At position `k` the letters differ and share a shape group. */
  predicate ShapeHit(tb: Tableau, c: string, t: string, k: nat)
    requires k < ZipLength(c, t)
  {
    c[k] != t[k] && InSomeGroup(tb.groups, c[k], t[k])
  }

  /** At position `k` the letters differ, share no shape group, and the query's
      letter has no neighbour list: the lookup's `unwrap` fails. */
  predicate LookupFails(tb: Tableau, c: string, t: string, k: nat)
    requires k < ZipLength(c, t)
  {
    c[k] != t[k] && !InSomeGroup(tb.groups, c[k], t[k]) && c[k] !in tb.keyboard
  }

  /** At position `k` the letters differ and the candidate's letter is listed
      as a neighbour of the query's. */
  predicate KeyHit(tb: Tableau, c: string, t: string, k: nat)
    requires k < ZipLength(c, t)
  {
    c[k] != t[k] && c[k] in tb.keyboard && t[k] in tb.keyboard[c[k]]
  }

  /** Some position in `[k, n)` makes the lookup fail before any shape hit. */
  predicate FailsFrom(tb: Tableau, c: string, t: string, k: nat) {
    exists j :: k <= j < ZipLength(c, t) && LookupFails(tb, c, t, j)
                && forall m :: k <= m < j ==> !ShapeHit(tb, c, t, m)
  }

  /** Some position in `[k, n)` is a shape hit with no failed lookup before it. */
  predicate ShapeFrom(tb: Tableau, c: string, t: string, k: nat) {
    exists j :: k <= j < ZipLength(c, t) && ShapeHit(tb, c, t, j)
                && forall m :: k <= m < j ==> !LookupFails(tb, c, t, m)
  }

  /** No position in `[k, n)` is a shape hit or a failed lookup. */
  predicate QuietFrom(tb: Tableau, c: string, t: string, k: nat) {
    forall j :: k <= j < ZipLength(c, t) ==> !ShapeHit(tb, c, t, j) && !LookupFails(tb, c, t, j)
  }

  /** Some position in `[k, n)` pairs keyboard neighbours. */
  predicate KeyFrom(tb: Tableau, c: string, t: string, k: nat) {
    exists j :: k <= j < ZipLength(c, t) && KeyHit(tb, c, t, j)
  }

  /** The scan over zipped pairs from position `k` on, with label `current`. */
  function ScanPairs(tb: Tableau, c: string, t: string, k: nat, current: TypoType): (r: Outcome<TypoType>)
    requires k <= ZipLength(c, t)
    ensures r.Panic? ==> r.cause == MissingKeyboardEntry
    ensures r.Value? ==> r.value == current || r.value == SimilarShapes || r.value == CloseKeyboardPlacement
    decreases ZipLength(c, t) - k
  {
    if k == ZipLength(c, t) then Value(current)
    else if c[k] == t[k] then ScanPairs(tb, c, t, k + 1, current)
    else if InSomeGroup(tb.groups, c[k], t[k]) then Value(SimilarShapes)
    else if c[k] !in tb.keyboard then Panic(MissingKeyboardEntry)
    else ScanPairs(tb, c, t, k + 1, if t[k] in tb.keyboard[c[k]] then CloseKeyboardPlacement else current)
  }

  /** The scan aborts exactly when a lookup fails before any shape hit. */
  lemma {:induction false} ScanPanicsIff(tb: Tableau, c: string, t: string, k: nat, current: TypoType)
    requires k <= ZipLength(c, t)
    ensures ScanPairs(tb, c, t, k, current).Panic? <==> FailsFrom(tb, c, t, k)
    decreases ZipLength(c, t) - k
  {
    var n := ZipLength(c, t);
    if k == n {
    } else if c[k] == t[k] || (!InSomeGroup(tb.groups, c[k], t[k]) && c[k] in tb.keyboard) {
      var next := if c[k] == t[k] || t[k] !in tb.keyboard[c[k]] then current else CloseKeyboardPlacement;
      assert ScanPairs(tb, c, t, k, current) == ScanPairs(tb, c, t, k + 1, next);
      ScanPanicsIff(tb, c, t, k + 1, next);
      assert !ShapeHit(tb, c, t, k) && !LookupFails(tb, c, t, k);
      if FailsFrom(tb, c, t, k) {
        var j :| k <= j < n && LookupFails(tb, c, t, j) && forall m :: k <= m < j ==> !ShapeHit(tb, c, t, m);
        assert FailsFrom(tb, c, t, k + 1) by {
          assert j != k;
        }
      }
      if FailsFrom(tb, c, t, k + 1) {
        var j :| k + 1 <= j < n && LookupFails(tb, c, t, j) && forall m :: k + 1 <= m < j ==> !ShapeHit(tb, c, t, m);
        assert forall m :: k <= m < j ==> !ShapeHit(tb, c, t, m);
      }
    } else if InSomeGroup(tb.groups, c[k], t[k]) {
      assert ShapeHit(tb, c, t, k);
    } else {
      assert LookupFails(tb, c, t, k);
    }
  }

  /** A shape hit with no failed lookup before it makes the scan answer `SimilarShapes`. */
  lemma {:induction false} ScanFindsShape(tb: Tableau, c: string, t: string, k: nat, current: TypoType)
    requires k <= ZipLength(c, t)
    requires ShapeFrom(tb, c, t, k)
    ensures ScanPairs(tb, c, t, k, current) == Value(SimilarShapes)
    decreases ZipLength(c, t) - k
  {
    var n := ZipLength(c, t);
    var j :| k <= j < n && ShapeHit(tb, c, t, j) && forall m :: k <= m < j ==> !LookupFails(tb, c, t, m);
    if c[k] == t[k] || !InSomeGroup(tb.groups, c[k], t[k]) {
      assert j != k && !LookupFails(tb, c, t, k);
      var next := if c[k] == t[k] || t[k] !in tb.keyboard[c[k]] then current else CloseKeyboardPlacement;
      assert ShapeFrom(tb, c, t, k + 1);
      ScanFindsShape(tb, c, t, k + 1, next);
    }
  }

  /** With no shape hit and no failed lookup, the scan answers
      `CloseKeyboardPlacement` if some pair are neighbours, else keeps `current`. */
  lemma {:induction false} ScanQuiet(tb: Tableau, c: string, t: string, k: nat, current: TypoType)
    requires k <= ZipLength(c, t)
    requires QuietFrom(tb, c, t, k)
    ensures ScanPairs(tb, c, t, k, current)
            == Value(if KeyFrom(tb, c, t, k) then CloseKeyboardPlacement else current)
    decreases ZipLength(c, t) - k
  {
    var n := ZipLength(c, t);
    if k < n {
      assert !ShapeHit(tb, c, t, k) && !LookupFails(tb, c, t, k);
      var next := if c[k] == t[k] || t[k] !in tb.keyboard[c[k]] then current else CloseKeyboardPlacement;
      assert QuietFrom(tb, c, t, k + 1);
      ScanQuiet(tb, c, t, k + 1, next);
      if KeyFrom(tb, c, t, k + 1) {
        var j :| k + 1 <= j < n && KeyHit(tb, c, t, j);
        assert KeyFrom(tb, c, t, k);
      }
      if KeyHit(tb, c, t, k) {
        assert KeyFrom(tb, c, t, k);
      }
      if KeyFrom(tb, c, t, k) && !KeyHit(tb, c, t, k) {
        var j :| k <= j < n && KeyHit(tb, c, t, j);
        assert KeyFrom(tb, c, t, k + 1);
      }
    }
  }

  /** The three lemmas above, for a scan from the first pair. */
  lemma ScanSummary(tb: Tableau, c: string, t: string, current: TypoType)
    ensures ScanPairs(tb, c, t, 0, current).Panic? <==> FailsFrom(tb, c, t, 0)
    ensures ShapeFrom(tb, c, t, 0) ==> ScanPairs(tb, c, t, 0, current) == Value(SimilarShapes)
    ensures QuietFrom(tb, c, t, 0) ==>
      ScanPairs(tb, c, t, 0, current) == Value(if KeyFrom(tb, c, t, 0) then CloseKeyboardPlacement else current)
  {
    ScanPanicsIff(tb, c, t, 0, current);
    if ShapeFrom(tb, c, t, 0) {
      ScanFindsShape(tb, c, t, 0, current);
    }
    if QuietFrom(tb, c, t, 0) {
      ScanQuiet(tb, c, t, 0, current);
    }
  }

  /** Relabels a candidate of the query's length. The first differing pair
      that shares a shape group decides `SimilarShapes` at once; otherwise any
      differing pair of keyboard neighbours gives `CloseKeyboardPlacement`; a
      differing query letter outside the keyboard table aborts the call. */
  function FindDifferentAChar(check: string, word: SimilarWord): (r: Outcome<SimilarWord>)
    ensures r.Value? ==> r.value.spelling == word.spelling && r.value.distance == word.distance
    ensures r.Panic? ==> r.cause == MissingKeyboardEntry
  {
    match ScanPairs(StaticTables, check, word.spelling, 0, word.typoType)
    case Value(kind) => Value(word.(typoType := kind))
    case Panic(cause) => Panic(cause)
  }

  /** The outcome in terms of the zipped pairs: an abort exactly when a failed
      lookup comes before any shape hit; `SimilarShapes` when a shape hit comes
      first; with neither, `CloseKeyboardPlacement` when some pair are
      neighbours and the old label otherwise. */
  lemma DifferentACharCases(check: string, word: SimilarWord)
    ensures var r := FindDifferentAChar(check, word);
      && (r.Panic? <==> FailsFrom(StaticTables, check, word.spelling, 0))
      && (ShapeFrom(StaticTables, check, word.spelling, 0) ==> r == Value(word.(typoType := SimilarShapes)))
      && (QuietFrom(StaticTables, check, word.spelling, 0) ==>
            r == Value(word.(typoType := if KeyFrom(StaticTables, check, word.spelling, 0)
                                         then CloseKeyboardPlacement else word.typoType)))
  {
    ScanSummary(StaticTables, check, word.spelling, word.typoType);
  }

  /** `p` is the only position at which `c` and `t` differ. */
  predicate OnlyDifferenceAt(c: string, t: string, p: nat) {
    && |c| == |t| && p < |c| && c[p] != t[p]
    && forall j :: 0 <= j < |c| && j != p ==> c[j] == t[j]
  }

  /** When the words differ in one position only, that pair alone decides the
      label: a shared shape group, else a failed lookup, else neighbouring keys,
      else no change. */
  lemma SingleDifference(check: string, word: SimilarWord, p: nat)
    requires OnlyDifferenceAt(check, word.spelling, p)
    ensures var x, y := check[p], word.spelling[p];
      FindDifferentAChar(check, word) ==
        if SimilarShape(x, y) then Value(word.(typoType := SimilarShapes))
        else if x !in Keyboard then Panic(MissingKeyboardEntry)
        else if y in Keyboard[x] then Value(word.(typoType := CloseKeyboardPlacement))
        else Value(word)
  {
    DifferentACharCases(check, word);
    var tb, c, t := StaticTables, check, word.spelling;
    if SimilarShape(c[p], t[p]) {
      assert ShapeHit(tb, c, t, p);
      assert ShapeFrom(tb, c, t, 0);
    } else if c[p] !in Keyboard {
      assert LookupFails(tb, c, t, p);
      assert FailsFrom(tb, c, t, 0);
    } else {
      assert QuietFrom(tb, c, t, 0);
      if t[p] in Keyboard[c[p]] {
        assert KeyHit(tb, c, t, p);
      } else {
        assert !KeyFrom(tb, c, t, 0);
      }
    }
  }
}
