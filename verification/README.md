# typo_checker in Dafny

This project models the core of the `typo_checker` Rust crate (`src/lib.rs`).
Given a query word, the crate looks the word up in a dictionary of English
words grouped into buckets by length. It reports either an exact match or a
ranked list of similar words.

The similar words are found in a few steps:

- **Window.** The crate opens a window of length buckets around the query's
  length.
- **Distances.** It computes the Levenshtein distance from the query to
  every word in the window.
- **Sorting and cutoff.** It sorts the words by distance and drops those
  beyond the cutoff.
- **Relabelling.** It gives each word at distance one a typo kind:
  - extra or missing characters at the head or tail;
  - a look-alike letter;
  - a keyboard neighbour;
  - unclassified.
- **Ranking.** It orders the words by a priority list of kinds and keeps the
  first `limit`.

Each Rust `panic!`, `unwrap` on `None`, out-of-range index, reversed slice or
`usize` underflow becomes an `Outcome.Panic` with a cause. The model follows
the branches of the code as written.

Modules, one per file:

- `Outcomes` holds `Option` and `Outcome` and the panic causes.
- `Typos` holds the typo kinds and the candidate record.
- `Tables` holds the QWERTY neighbour table and the look-alike groups.
- `Levenshtein` holds the edit-distance recurrence, and the crate's
  rolling-row algorithm proved equal to it.
- `Classifier` holds the missing/extra-character classifier and the
  one-different-character classifier.
- `Sequences` holds `retain` as a filter, with its permutation facts.
- `StableSort` holds a stable insertion sort standing for Rust's stable
  `sort_by`/`sort_by_key`.
- `Ranker` holds `get_top_similar_words`.
- `Checker` holds `check_a_word`, the dictionary scan and the result getters.
- `Examples` and `RankingExamples` hold the crate's unit tests, restated as
  lemmas.

The code differs from its own documentation in three places. The model
follows the code:

- **The window's upper bound is exclusive.** The longer words searched have
  lengths `L+1 .. L+range-1`. With the default range of 2, only words one
  letter longer are searched, while the shorter side covers two lengths.
  `SearchWindow` and `ReportedWordsComeFromWindow` state this bound.
- **A 21-letter query always aborts.** The code sets the upper index to
  `L-2`, so the slice `word_dic[L-1..L-2]` starts after its end. This happens
  even when the word is in the dictionary, because the slices are taken
  before the exact-match scan. `CheckAWordAborts` states this.
- **No cutoff means no distance filter.** With the cutoff `None`, the window
  uses a range of 2, but `retain` is skipped. Words at any distance within
  the window are kept.

## Model

| member | source | states |
|---|---|---|
| Typos.NewSimilarWord | src/lib.rs:106-112 | a new candidate keeps the spelling and distance it is given and starts unclassified |
| Typos.TypeNameSpelling | src/lib.rs:79-87 | each of the five names is produced by exactly one variant, whatever its character and position fields |
| Typos.TypeNameIdentifiesVariant | src/lib.rs:79-87 | two kinds get the same name exactly when they are the same variant, whatever character and position the extra/missing variants carry |
| Tables.Neighbours | src/lib.rs:324-360 | every listed neighbour is a lower-case letter other than the key itself, and each key has at least two |
| Tables.InSomeGroup | src/lib.rs:423-428 | the scan over the look-alike groups succeeds exactly when some group contains both letters |
| Tables.SimilarShapeCases | src/lib.rs:381-393 | two letters look alike exactly when they sit together in one of the seven listed groups (a-c-e-o, b-d, f-l, g-q, m-n, p-q, u-v) |
| Tables.KeyboardKeysAreLetters | src/lib.rs:324-360 | the neighbour table has an entry for a character exactly when it is one of the 26 lower-case letters |
| Tables.SimilarShapeSymmetric | src/lib.rs:423-428 | the look-alike test does not depend on which word the letter came from |
| Levenshtein.GenericLevenshtein | src/lib.rs:175-201 | the single cached row computes the edit distance defined by the insert/delete/substitute recurrence; an empty first word gives the second word's length |
| Levenshtein.NextRow | src/lib.rs:187-198 | one pass of the inner loop turns row `i` of the distance table into row `i+1` and leaves its last cell in `result` |
| Levenshtein.Levenshtein | src/lib.rs:219-221 | the distance of two strings is their edit distance, and it is zero exactly when the strings are equal |
| Levenshtein.DistZeroIffEqualPrefixes | src/lib.rs:175-201 | a table cell is zero exactly when it compares two equal prefixes |
| Levenshtein.DistanceZeroIffEqual | src/lib.rs:595-600 | a distance of zero, the exact-match test, means the two words are equal |
| Levenshtein.DistAtLeastLengthGap | src/lib.rs:175-201 | a table cell is at least the difference of the two prefix lengths |
| Levenshtein.DistAtMostLongerLength | src/lib.rs:175-201 | a table cell is at most the longer prefix length |
| Levenshtein.DistanceBounds | src/lib.rs:175-201 | the distance lies between the length difference and the longer length |
| Levenshtein.DistAtMostMismatches | src/lib.rs:175-201 | for equal lengths the distance is at most the number of differing positions |
| Levenshtein.SmallDistIsMismatches | src/lib.rs:175-201 | for equal lengths a distance of at most one equals the number of differing positions |
| Levenshtein.EqualLengthDistanceOne | src/lib.rs:395-396 | two words of equal length are at distance one exactly when they differ in exactly one position, as the classifier's documentation assumes |
| Levenshtein.OneMismatchPosition | src/lib.rs:395-396 | one differing position among equal-length words is a single position `p` outside which the words agree |
| Classifier.CaptureAfterPrefix | src/lib.rs:268-279 | the pattern `^word(.+)` matches exactly when the text is the word followed by a non-empty tail, and it captures the tail's first character |
| Classifier.CaptureBeforeSuffix | src/lib.rs:270-287 | the pattern `(.+)word$` matches exactly when the text is a non-empty head followed by the word, and it captures the head's first character |
| Classifier.CaptureBeforeOccurrence | src/lib.rs:290-299 | the pattern `^(.+)query` matches exactly when the text splits into a non-empty head, the query and a rest, and then it captures the head's first character |
| Classifier.OccurrenceSplits | src/lib.rs:290-299 | an occurrence of the query at an offset of at least one is the same thing as such a split, and every such head starts with the text's first character |
| Classifier.LeftmostWithTail | src/lib.rs:291 | finds the leftmost occurrence of the query that has at least one character after it, or reports that none exists |
| Classifier.CaptureAfterOccurrence | src/lib.rs:291-307 | the pattern `query(.+)$` matches exactly when some occurrence of the query has a tail, and it captures the character after the leftmost such occurrence |
| Classifier.FindMissingOrExtraChars | src/lib.rs:262-310 | relabelling by missing/extra characters keeps the spelling and the distance |
| Classifier.MissingOrExtraCases | src/lib.rs:262-310 | the label is a function of where the shorter word sits in the longer one, with the suffix match overriding the prefix match |
| Classifier.ExtraCases | src/lib.rs:266-287 | a shorter candidate that ends the query gives extra-at-head with the query's first letter; otherwise one that starts the query gives extra-at-tail with the letter after it; otherwise the label stays |
| Classifier.MissingCases | src/lib.rs:288-308 | a longer or equal candidate holding the query with a tail gives missing-at-tail with the letter after the leftmost such occurrence; otherwise one holding the query after its first letter gives missing-at-head with its first letter; otherwise the label stays |
| Classifier.ExtraOneCharacter | src/lib.rs:266-287 | for a query one letter longer: a candidate that is the query minus its first letter gives extra-at-head; otherwise one that is the query minus its last letter gives extra-at-tail; otherwise the label stays |
| Classifier.MissingOneCharacter | src/lib.rs:288-308 | for a candidate one letter longer: the query plus a last letter gives missing-at-tail; otherwise the query plus a first letter gives missing-at-head; otherwise the label stays |
| Classifier.ScanPairs | src/lib.rs:421-437 | scanning the zipped letter pairs ends with the current label, look-alike or keyboard neighbour, or aborts on a missing keyboard entry |
| Classifier.ScanPanicsIff | src/lib.rs:421-437 | the scan aborts exactly when some differing pair has a query letter without a keyboard entry and no earlier pair looked alike |
| Classifier.ScanFindsShape | src/lib.rs:423-428 | a look-alike pair with no failing lookup before it returns the look-alike label at once |
| Classifier.ScanQuiet | src/lib.rs:421-437 | when no pair looks alike or fails a lookup, the label becomes keyboard-neighbour exactly when some pair neighbours, and otherwise stays |
| Classifier.ScanSummary | src/lib.rs:421-437 | the three outcomes of the scan from the first pair: it aborts, it finds a look-alike pair, or it runs quiet |
| Classifier.FindDifferentAChar | src/lib.rs:417-440 | the one-different-character classifier keeps spelling and distance and can only abort on a missing keyboard entry |
| Classifier.DifferentACharCases | src/lib.rs:417-440 | the classifier aborts exactly when the scan's lookup fails; it labels look-alike when a look-alike pair comes first; otherwise it labels keyboard-neighbour exactly when a neighbour pair exists |
| Classifier.SingleDifference | src/lib.rs:417-440 | with a single differing position: look-alike, else an abort for a letter outside the table, else keyboard-neighbour for a neighbour, else unchanged |
| Sequences.Filter | src/lib.rs:466-468 | `retain` keeps only elements passing the test and never lengthens the list |
| Ranker.FilterMembers | src/lib.rs:466-468 | an element survives `retain` exactly when it was in the list and passes the test |
| Sequences.FilterPermutation | src/lib.rs:463-468 | filtering two permutations of one list gives permutations of each other |
| StableSort.Sort | src/lib.rs:124-132 | the stable sort standing for `sort_by_key` and `sort_by`; its own contract gives the length, and the lemmas below give the rest |
| StableSort.SortPermutes | src/lib.rs:463 | sorting rearranges the list without adding or losing elements |
| StableSort.SortIsStable | src/lib.rs:463 | the sort output is ordered by key, and for every key value it keeps the input order of the elements with that key |
| StableSort.SortWithin | src/lib.rs:463-502 | sorting a distance-ordered list by kind leaves each kind's group in distance order |
| StableSort.SortKeepsGroup | src/lib.rs:463 | elements that all share one key come out of the sort in their input order |
| StableSort.SortOfSorted | src/lib.rs:463 | sorting a list already ordered by the key leaves it unchanged |
| Ranker.OrderMap | src/lib.rs:118-122 | the priority table has exactly the kind names the order lists, each mapped to the last position where it is listed, because later inserts overwrite earlier ones |
| Ranker.SortByTypoType | src/lib.rs:114-133 | the kind sort aborts exactly when there are two or more candidates and one has a kind absent from the order; otherwise it is a permutation, ordered by priority and stable within each priority |
| Ranker.DefaultRanks | src/lib.rs:487-499 | the default order ranks extra 0, missing 1, look-alike 2, keyboard 3 and unclassified 4 |
| Ranker.Reclassify | src/lib.rs:472-483 | relabelling keeps spelling and distance, leaves candidates at distances other than one unchanged, and aborts only on equal-length candidates at distance one |
| Ranker.ReclassifyAll | src/lib.rs:471-484 | the relabelling loop aborts exactly when one candidate's relabelling aborts; otherwise it relabels each candidate in place |
| Ranker.Truncate | src/lib.rs:505-513 | the result is the first `limit` candidates, or all of them when fewer |
| Ranker.Kept | src/lib.rs:466-468 | the `retain` test: no cutoff keeps everything, otherwise a candidate is kept when its distance is at most the cutoff |
| Ranker.KeptBy | src/lib.rs:466-468 | the same test as a function value handed to the filter |
| Ranker.RankSurvivors | src/lib.rs:471-513 | the steps after the cutoff abort only from the keyboard lookup or the sort-key lookup |
| Ranker.GetTopSimilarWords | src/lib.rs:454-514 | ranking aborts only from the keyboard lookup or the sort-key lookup |
| Ranker.KeptAfterSort | src/lib.rs:463-468 | sorting by distance first does not change which candidates survive the cutoff |
| Ranker.TopLength | src/lib.rs:454-514 | the result has as many entries as the cutoff keeps, capped at `limit` |
| Ranker.TopWithinCutoff | src/lib.rs:466-468 | with a cutoff, every reported candidate is within it |
| Ranker.TopEntryOrigin | src/lib.rs:454-514 | every reported candidate is the relabelling of an input candidate that survives the cutoff |
| Ranker.TopKeepsOthers | src/lib.rs:471-484 | reported candidates at distances other than one are input candidates unchanged |
| Ranker.TopPairs | src/lib.rs:454-514 | the reported (spelling, distance) pairs are a sub-multiset of the surviving inputs' pairs |
| Ranker.TopOrdered | src/lib.rs:463-513 | the result is ordered by kind priority and, within one priority, by distance |
| Ranker.TopKeepsInputOrder | src/lib.rs:463-513 | among reported candidates with one kind priority and one distance, the order is the input order: they are a prefix of the relabelled survivors of that group, taken in input order |
| Ranker.RankedGroupPrefix | src/lib.rs:471-513 | after relabelling, the kind sort and the truncation leave the candidates of one kind priority and one distance as a prefix of that group in the relabelled list |
| Ranker.SurvivorGroupsAgree | src/lib.rs:463-484 | for one distance, the relabelled survivors taken after the distance sort and those taken in input order hold that distance's group in the same order |
| Ranker.TopReportsSurvivor | src/lib.rs:454-514 | when every survivor fits under the limit, every survivor is reported, relabelled |
| Ranker.RankedKeepsAll | src/lib.rs:471-513 | when the limit cuts nothing, the relabelling of every kept candidate appears in the ranked list |
| Ranker.TopReportsAll | src/lib.rs:454-514 | when every survivor fits under the limit, each survivor's spelling is reported with its distance |
| Ranker.KeptByDistance | src/lib.rs:463-468 | the surviving list is in distance order |
| Ranker.RelabelKeepsDistanceOrder | src/lib.rs:471-484 | relabelling keeps the distance order |
| Ranker.TopPanics | src/lib.rs:454-514 | ranking aborts on the keyboard lookup exactly when some survivor's relabelling does; otherwise it aborts on the sort key exactly when two or more survive and some relabelled kind is unlisted |
| Ranker.RankSurvivorsPanics | src/lib.rs:471-502 | the same two abort conditions, stated for the steps after the cutoff |
| Ranker.DefaultOrderNeverMissing | src/lib.rs:487-502 | with the default order the sort-key lookup never fails |
| Ranker.DefaultOrderSucceedsIff | src/lib.rs:454-514 | with the default order, ranking succeeds exactly when no survivor's relabelling aborts |
| Ranker.PrefixOrdered | src/lib.rs:505-513 | truncating keeps both orderings |
| Checker.TypoCheckResult.GetMatchWord | src/lib.rs:155-161 | the matched word, or the fixed message when there is none |
| Checker.TypoCheckResult.GetSimilarWordList | src/lib.rs:163-169 | the similar words, or the empty list when there are none |
| Checker.LiveWords | src/lib.rs:226-236 | a bucket's words are its leading filled slots, up to the first empty slot |
| Checker.FrontPackedAllLive | src/lib.rs:226-236 | in a bucket filled from the front, every filled slot is reached before the scan stops |
| Checker.CalculateWordListLevenshteinLength | src/lib.rs:223-240 | the scan appends, for every bucket in order and every word up to the bucket's first empty slot, the word with its distance |
| Checker.ScanBucket | src/lib.rs:227-236 | the inner loop appends one bucket's words with their distances |
| Checker.Candidates | src/lib.rs:229-233 | one candidate per word, in order, each unclassified and carrying its distance to the query |
| Checker.BucketsCandidates | src/lib.rs:223-240 | every candidate of a run of buckets carries its distance to the query and is unclassified |
| Checker.FirstExact | src/lib.rs:592-607 | the exact-match scan finds a word exactly when the query is among the bucket's words, and the word found is the query |
| Checker.SearchWindow | src/lib.rs:569-589 | the window opens exactly when the query's bucket exists, the query is not 21 letters long and the range is not zero; it then spans `max(0, L-2-range) .. min(L-2+range, buckets)`; otherwise the call aborts with the index or slice failure |
| Checker.WindowCandidates | src/lib.rs:586-621 | every candidate gathered from the window carries its distance to the query and is unclassified |
| Checker.CheckAWord | src/lib.rs:540-633 | a cutoff of one aborts; an exact match is the query itself and comes with no list |
| Checker.CheckAWordAborts | src/lib.rs:548-589 | a one-letter query gives an empty result; an empty query underflows; an overlong query is out of range; otherwise a 21-letter query or a cutoff of zero reverses a slice |
| Checker.WindowAborts | src/lib.rs:586-589 | a window that fails makes the whole call fail with the same cause |
| Checker.WindowOpens | src/lib.rs:591-633 | once the window opens, the call can only abort inside the ranking step |
| Checker.CheckAWordReportsOne | src/lib.rs:592-632 | a successful call on a query of two or more letters reports either a match or a list, never both and never neither |
| Checker.ExactMatchReported | src/lib.rs:592-607 | once the window opens, the call reports an exact match exactly when the query is among its own bucket's words |
| Checker.WindowCandidatesAre | src/lib.rs:586-621 | the candidates are exactly the words of the window's buckets, each with its distance to the query |
| Checker.BucketsMembers | src/lib.rs:223-240 | the scan's output holds exactly the live words of the scanned buckets with their distances |
| Checker.CandidatesMembers | src/lib.rs:229-233 | a bucket's candidates are exactly its words paired with their distances |
| Checker.ReportedWordsComeFromWindow | src/lib.rs:540-633 | every reported word comes from a bucket inside the window, carries its true distance, and is within the cutoff when one is given |
| Checker.WindowWordsReported | src/lib.rs:609-630 | past an open window with no exact match, the list has as many words as survive the cutoff, capped at `limit`; when they all fit, every live word of a window bucket within the cutoff is reported with its distance |
| Checker.WindowTop | src/lib.rs:591-630 | when the exact-match scan finds nothing, the reported list is the ranking of the window's candidates |
| Checker.WindowRanking | src/lib.rs:609-630 | the ranking of the window's candidates has as many words as survive the cutoff, capped at `limit`, and when they all fit it holds every live window word within the cutoff with its distance |
| Checker.DefaultOrderNoSortAbort | src/lib.rs:501-502 | without a custom order the whole call never aborts on the sort-key lookup |
| Examples.MissingHead | src/lib.rs:640-653 | "ello" against "hello" is missing 'h' at the head |
| Examples.MissingTail | src/lib.rs:656-669 | "hell" against "hello" is missing 'o' at the tail |
| Examples.ExtraHead | src/lib.rs:672-685 | "ahello" against "hello" has an extra 'a' at the head |
| Examples.ExtraTail | src/lib.rs:688-701 | "helloo" against "hello" has an extra 'o' at the tail |
| Examples.SameWordUnchanged | src/lib.rs:704-711 | "hello" against itself stays unclassified |
| Examples.TwoMissingUnchanged | src/lib.rs:714-721 | "hlo" against "hello" stays unclassified |
| Examples.TwoExtraUnchanged | src/lib.rs:724-731 | "heelllo" against "hello" stays unclassified |
| Examples.ShapesCotCat | src/lib.rs:734-747 | "cot" against "cat" is a look-alike typo |
| Examples.KeyboardTryTrt | src/lib.rs:750-763 | "try" against "trt" is a keyboard-neighbour typo |
| Examples.NothingHoxeHome | src/lib.rs:766-779 | "hoxe" against "home" stays unclassified |
| Examples.DigitAborts | src/lib.rs:432 | a differing query character with no keyboard entry, such as '4' in "c4t" against "cat", aborts the classifier |
| Examples.KittenSitting | src/lib.rs:213-217 | the documented example: "kitten" and "sitting" are three edits apart |
| RankingExamples.DefaultTypoTypeSorting | src/lib.rs:782-868 | with the default order the seven "tets" candidates come out as extra, extra, missing, missing, look-alike, keyboard, unclassified |
| RankingExamples.BasicSorting | src/lib.rs:871-892 | for "test", "tost" (look-alike) comes before "best" (unclassified), and the limit of two drops "toast" |
| RankingExamples.WithCutoff | src/lib.rs:895-915 | a cutoff of two keeps two of the three candidates, all within distance two |
| RankingExamples.CustomTypoTypeSorting | src/lib.rs:918-1017 | with the custom order the seven candidates come out as look-alike, keyboard, unclassified, extra, extra, missing, missing |
| RankingExamples.LimitResults | src/lib.rs:1020-1039 | a limit of one keeps one candidate |

## Left out

- The dictionary itself is left out. `get_dictionary` and the generating
  script `create_dict.py` are not part of this model. The dictionary is a
  parameter: a sequence of buckets, where bucket `k` holds words of length
  `k+2`. The fixed capacity of 5416 slots per bucket is not modelled either.
- `to_lowercase` is left out. The query is taken as already lower-case,
  because Unicode case mapping is outside the model.
- The `regex` crate is left out. Each of the four patterns is modelled by
  what it matches and captures. This assumes that words contain no line
  breaks, which `.` would not match.
- Character counting uses `|s|` on `seq<char>`. `chars().count()` and the
  byte length `len()` that the tests use agree on the ASCII words involved.
- Fixed-width integers are left out. Distances, indices and the cutoff are
  unbounded naturals. Of the width effects, only the underflow of
  `check_word_length - 2` on an empty query is modelled, as an abort. The
  model therefore differs from the code for cutoffs of 2^63 and above:
  - `select_word_range as isize` at src/lib.rs:576 and src/lib.rs:579 wraps
    to a negative number. This raises the lower index above `L-2`, and the
    slice at src/lib.rs:588 then panics. For `Some(usize::MAX)` the lower
    index is `L-1`.
  - `(check_word_length - 2) + select_word_range` at src/lib.rs:572 and
    src/lib.rs:578 overflows `usize` near `usize::MAX`. This panics in a
    debug build and wraps in a release build.
  - For these cutoffs the model opens the window `[0, n)` instead.
- `StringWrapper`, the generic iterator plumbing of `generic_levenshtein`,
  the `Debug`/`Clone`/`Hash` derives and the `HashMap` internals are left
  out. They are replaced by `seq`, `map` and value semantics.
- Rust's `sort_by` and `sort_by_key` are replaced by a stable insertion
  sort. A stable sort's output is determined by its input, so the algorithm
  does not matter. The sort-key `unwrap` is modelled as aborting exactly
  when the list has two or more entries and one of them has an unlisted
  kind. This is the case in which any comparison sort asks for that entry's
  key.
- Ranker.GetTopSimilarWords: its own contract states only the abort causes.
  The length, cutoff, origin, ordering and abort conditions are stated by
  the `Top…` lemmas.
- Classifier.FindMissingOrExtraChars: its own contract states only what is
  kept. Its label is stated by `MissingOrExtraCases` and its parts.
- Checker.CheckAWord: its own contract states only the cutoff-of-one abort
  and the exact match. The list is described by `ReportedWordsComeFromWindow`
  and `WindowWordsReported`. When more words survive than `limit`, which of
  them are kept follows from the ranking order (`TopOrdered`,
  `TopKeepsInputOrder`), not from a lemma about `CheckAWord` itself.
- StableSort.Sort: its own contract states only the length. The permutation
  and stability facts are in `SortPermutes` and `SortIsStable`.
- Levenshtein symmetry is not proved. The crate always passes the query
  first, so symmetry is never needed.
- The keyboard table's symmetry is not stated. The classifier only ever
  looks up the query's letter.
