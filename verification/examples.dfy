/** The engine's unit tests and documented examples, restated as lemmas
    about the model (src/lib.rs:217 and src/lib.rs:639-779). */
module Examples {
  import opened Outcomes
  import opened Typos
  import opened Tables
  import opened Levenshtein
  import opened Classifier

  // ---------------------------------------------------------------------------
  // Missing and extra characters

  lemma MissingHead()
    ensures FindMissingOrExtraChars("ello", NewSimilarWord("hello", 1)).typoType
            == MissingCharacters('h', Head)
  {
    MissingOrExtraCases("ello", NewSimilarWord("hello", 1));
    assert !OccursAt("ello", "hello", 0) by { assert "hello"[1] != "ello"[1]; }
    assert LeftmostWithTail("ello", "hello", 0).None?;
    assert OccursAt("ello", "hello", 1);
  }

  lemma MissingTail()
    ensures FindMissingOrExtraChars("hell", NewSimilarWord("hello", 1)).typoType
            == MissingCharacters('o', Tail)
  {
    MissingOrExtraCases("hell", NewSimilarWord("hello", 1));
    assert OccursAt("hell", "hello", 0);
  }

  lemma ExtraHead()
    ensures FindMissingOrExtraChars("ahello", NewSimilarWord("hello", 1)).typoType
            == ExtraCharacters('a', Head)
  {
    MissingOrExtraCases("ahello", NewSimilarWord("hello", 1));
    assert IsSuffix("hello", "ahello");
  }

  lemma ExtraTail()
    ensures FindMissingOrExtraChars("helloo", NewSimilarWord("hello", 1)).typoType
            == ExtraCharacters('o', Tail)
  {
    MissingOrExtraCases("helloo", NewSimilarWord("hello", 1));
    assert !IsSuffix("hello", "helloo") by {
      assert "helloo"[1] != "hello"[0];
    }
    assert IsPrefix("hello", "helloo");
  }

  lemma SameWordUnchanged()
    ensures FindMissingOrExtraChars("hello", NewSimilarWord("hello", 1)).typoType == UndefinedType
  {
    MissingOrExtraCases("hello", NewSimilarWord("hello", 1));
  }

  lemma TwoMissingUnchanged()
    ensures FindMissingOrExtraChars("hlo", NewSimilarWord("hello", 1)).typoType == UndefinedType
  {
    MissingOrExtraCases("hlo", NewSimilarWord("hello", 1));
    assert !OccursAt("hlo", "hello", 0) by { assert "hello"[1] != "hlo"[1]; }
    assert !OccursAt("hlo", "hello", 1) by { assert "hello"[1] != "hlo"[0]; }
    assert !OccursAt("hlo", "hello", 2) by { assert "hello"[2] != "hlo"[0]; }
  }

  lemma TwoExtraUnchanged()
    ensures FindMissingOrExtraChars("heelllo", NewSimilarWord("hello", 1)).typoType == UndefinedType
  {
    MissingOrExtraCases("heelllo", NewSimilarWord("hello", 1));
    assert !IsSuffix("hello", "heelllo") by { assert "heelllo"[2] != "hello"[0]; }
    assert !IsPrefix("hello", "heelllo") by { assert "heelllo"[2] != "hello"[2]; }
  }

  // ---------------------------------------------------------------------------
  // One different character

  lemma ShapesCotCat()
    ensures FindDifferentAChar("cot", NewSimilarWord("cat", 1)) == Value(SimilarWord("cat", 1, SimilarShapes))
  {
    ShapesCotCatCase("cot", NewSimilarWord("cat", 1));
  }

  lemma ShapesCotCatCase(check: string, word: SimilarWord)
    requires check == "cot" && word == NewSimilarWord("cat", 1)
    ensures FindDifferentAChar(check, word) == Value(SimilarWord("cat", 1, SimilarShapes))
  {
    ShapesCotCatPair();
    ShapesCotCatDiffer(check, word.spelling);
    SingleDifference(check, word, 1);
  }

  lemma ShapesCotCatDiffer(check: string, cand: string)
    requires check == "cot" && cand == "cat"
    ensures OnlyDifferenceAt(check, cand, 1) && check[1] == 'o' && cand[1] == 'a'
  {
  }

  lemma ShapesCotCatPair()
    ensures SimilarShape('o', 'a')
  {
    SimilarShapeCases('o', 'a');
  }

  lemma KeyboardTryTrt()
    ensures FindDifferentAChar("try", NewSimilarWord("trt", 1)) == Value(SimilarWord("trt", 1, CloseKeyboardPlacement))
  {
    KeyboardTryTrtCase("try", NewSimilarWord("trt", 1));
  }

  lemma KeyboardTryTrtCase(check: string, word: SimilarWord)
    requires check == "try" && word == NewSimilarWord("trt", 1)
    ensures FindDifferentAChar(check, word) == Value(SimilarWord("trt", 1, CloseKeyboardPlacement))
  {
    KeyboardTryTrtPair();
    KeyboardTryTrtDiffer(check, word.spelling);
    SingleDifference(check, word, 2);
  }

  lemma KeyboardTryTrtDiffer(check: string, cand: string)
    requires check == "try" && cand == "trt"
    ensures OnlyDifferenceAt(check, cand, 2) && check[2] == 'y' && cand[2] == 't'
  {
  }

  lemma KeyboardTryTrtPair()
    ensures !SimilarShape('y', 't') && 'y' in Keyboard && 't' in Keyboard['y']
  {
    KeyboardTryTrtShape();
    KeyboardTryTrtKeys();
  }

  lemma KeyboardTryTrtShape()
    ensures !SimilarShape('y', 't')
  {
    SimilarShapeCases('y', 't');
  }

  lemma KeyboardTryTrtKeys()
    ensures 'y' in Keyboard && 't' in Keyboard['y']
  {
    assert Keyboard['y'] == Neighbours('y');
  }

  lemma NothingHoxeHome()
    ensures FindDifferentAChar("hoxe", NewSimilarWord("home", 0)) == Value(NewSimilarWord("home", 0))
  {
    NothingHoxeHomeCase("hoxe", NewSimilarWord("home", 0));
  }

  lemma NothingHoxeHomeCase(check: string, word: SimilarWord)
    requires check == "hoxe" && word == NewSimilarWord("home", 0)
    ensures FindDifferentAChar(check, word) == Value(NewSimilarWord("home", 0))
  {
    NothingHoxeHomePair();
    NothingHoxeHomeDiffer(check, word.spelling);
    SingleDifference(check, word, 2);
  }

  lemma NothingHoxeHomeDiffer(check: string, cand: string)
    requires check == "hoxe" && cand == "home"
    ensures OnlyDifferenceAt(check, cand, 2) && check[2] == 'x' && cand[2] == 'm'
  {
  }

  lemma NothingHoxeHomePair()
    ensures !SimilarShape('x', 'm') && 'x' in Keyboard && 'm' !in Keyboard['x']
  {
    NothingHoxeHomeShape();
    NothingHoxeHomeKeys();
  }

  lemma NothingHoxeHomeShape()
    ensures !SimilarShape('x', 'm')
  {
    SimilarShapeCases('x', 'm');
  }

  lemma NothingHoxeHomeKeys()
    ensures 'x' in Keyboard && 'm' !in Keyboard['x']
  {
    assert Keyboard['x'] == Neighbours('x');
  }

  /** A differing query character outside the keyboard table aborts the call. */
  lemma DigitAborts()
    ensures FindDifferentAChar("c4t", NewSimilarWord("cat", 1)) == Panic(MissingKeyboardEntry)
  {
    DigitAbortsCase("c4t", NewSimilarWord("cat", 1));
  }

  lemma DigitAbortsCase(check: string, word: SimilarWord)
    requires check == "c4t" && word == NewSimilarWord("cat", 1)
    ensures FindDifferentAChar(check, word) == Panic(MissingKeyboardEntry)
  {
    DigitAbortsPair();
    DigitAbortsDiffer(check, word.spelling);
    SingleDifference(check, word, 1);
  }

  lemma DigitAbortsDiffer(check: string, cand: string)
    requires check == "c4t" && cand == "cat"
    ensures OnlyDifferenceAt(check, cand, 1) && check[1] == '4' && cand[1] == 'a'
  {
  }

  lemma DigitAbortsPair()
    ensures !SimilarShape('4', 'a') && '4' !in Keyboard
  {
    KeyboardKeysAreLetters('4');
    DigitAbortsShape();
  }

  lemma DigitAbortsShape()
    ensures !SimilarShape('4', 'a')
  {
    SimilarShapeCases('4', 'a');
  }

  // ---------------------------------------------------------------------------
  // Edit distance

  /** The documented example: three edits turn "kitten" into "sitting",
      shown by filling the table one row at a time. */
  lemma KittenSitting()
    ensures Distance("kitten", "sitting") == 3
  {
    KittenSittingTable("kitten", "sitting");
  }

  /** The rows of the example's table, top to bottom. */
  const KittenRows: seq<seq<nat>> := [
    [0, 1, 2, 3, 4, 5, 6, 7],
    [1, 1, 2, 3, 4, 5, 6, 7],
    [2, 2, 1, 2, 3, 4, 5, 6],
    [3, 3, 2, 1, 2, 3, 4, 5],
    [4, 4, 3, 2, 1, 2, 3, 4],
    [5, 5, 4, 3, 2, 2, 3, 4],
    [6, 6, 5, 4, 3, 3, 2, 3]
  ]

  lemma KittenSittingTable(a: string, b: string)
    requires a == "kitten" && b == "sitting"
    ensures Distance(a, b) == 3
  {
    FirstRow(a, b, KittenRows[0]);
    KittenRowFollows1();
    RowFollows(a, b, 0, KittenRows[0], KittenRows[1]);
    KittenRowFollows2();
    RowFollows(a, b, 1, KittenRows[1], KittenRows[2]);
    KittenRowFollows3();
    RowFollows(a, b, 2, KittenRows[2], KittenRows[3]);
    KittenRowFollows4();
    RowFollows(a, b, 3, KittenRows[3], KittenRows[4]);
    KittenRowFollows5();
    RowFollows(a, b, 4, KittenRows[4], KittenRows[5]);
    KittenRowFollows6();
    RowFollows(a, b, 5, KittenRows[5], KittenRows[6]);
  }

  lemma KittenRowFollows1()
    ensures Follows('k', "sitting", KittenRows[0], KittenRows[1])
  {
    assert CellFollows('k', "sitting", KittenRows[0], KittenRows[1], 0);
    assert CellFollows('k', "sitting", KittenRows[0], KittenRows[1], 1);
    assert CellFollows('k', "sitting", KittenRows[0], KittenRows[1], 2);
    assert CellFollows('k', "sitting", KittenRows[0], KittenRows[1], 3);
    assert CellFollows('k', "sitting", KittenRows[0], KittenRows[1], 4);
    assert CellFollows('k', "sitting", KittenRows[0], KittenRows[1], 5);
    assert CellFollows('k', "sitting", KittenRows[0], KittenRows[1], 6);
  }

  lemma KittenRowFollows2()
    ensures Follows('i', "sitting", KittenRows[1], KittenRows[2])
  {
    assert CellFollows('i', "sitting", KittenRows[1], KittenRows[2], 0);
    assert CellFollows('i', "sitting", KittenRows[1], KittenRows[2], 1);
    assert CellFollows('i', "sitting", KittenRows[1], KittenRows[2], 2);
    assert CellFollows('i', "sitting", KittenRows[1], KittenRows[2], 3);
    assert CellFollows('i', "sitting", KittenRows[1], KittenRows[2], 4);
    assert CellFollows('i', "sitting", KittenRows[1], KittenRows[2], 5);
    assert CellFollows('i', "sitting", KittenRows[1], KittenRows[2], 6);
  }

  lemma KittenRowFollows3()
    ensures Follows('t', "sitting", KittenRows[2], KittenRows[3])
  {
    assert CellFollows('t', "sitting", KittenRows[2], KittenRows[3], 0);
    assert CellFollows('t', "sitting", KittenRows[2], KittenRows[3], 1);
    assert CellFollows('t', "sitting", KittenRows[2], KittenRows[3], 2);
    assert CellFollows('t', "sitting", KittenRows[2], KittenRows[3], 3);
    assert CellFollows('t', "sitting", KittenRows[2], KittenRows[3], 4);
    assert CellFollows('t', "sitting", KittenRows[2], KittenRows[3], 5);
    assert CellFollows('t', "sitting", KittenRows[2], KittenRows[3], 6);
  }

  lemma KittenRowFollows4()
    ensures Follows('t', "sitting", KittenRows[3], KittenRows[4])
  {
    assert CellFollows('t', "sitting", KittenRows[3], KittenRows[4], 0);
    assert CellFollows('t', "sitting", KittenRows[3], KittenRows[4], 1);
    assert CellFollows('t', "sitting", KittenRows[3], KittenRows[4], 2);
    assert CellFollows('t', "sitting", KittenRows[3], KittenRows[4], 3);
    assert CellFollows('t', "sitting", KittenRows[3], KittenRows[4], 4);
    assert CellFollows('t', "sitting", KittenRows[3], KittenRows[4], 5);
    assert CellFollows('t', "sitting", KittenRows[3], KittenRows[4], 6);
  }

  lemma KittenRowFollows5()
    ensures Follows('e', "sitting", KittenRows[4], KittenRows[5])
  {
    assert CellFollows('e', "sitting", KittenRows[4], KittenRows[5], 0);
    assert CellFollows('e', "sitting", KittenRows[4], KittenRows[5], 1);
    assert CellFollows('e', "sitting", KittenRows[4], KittenRows[5], 2);
    assert CellFollows('e', "sitting", KittenRows[4], KittenRows[5], 3);
    assert CellFollows('e', "sitting", KittenRows[4], KittenRows[5], 4);
    assert CellFollows('e', "sitting", KittenRows[4], KittenRows[5], 5);
    assert CellFollows('e', "sitting", KittenRows[4], KittenRows[5], 6);
  }

  lemma KittenRowFollows6()
    ensures Follows('n', "sitting", KittenRows[5], KittenRows[6])
  {
    assert CellFollows('n', "sitting", KittenRows[5], KittenRows[6], 0);
    assert CellFollows('n', "sitting", KittenRows[5], KittenRows[6], 1);
    assert CellFollows('n', "sitting", KittenRows[5], KittenRows[6], 2);
    assert CellFollows('n', "sitting", KittenRows[5], KittenRows[6], 3);
    assert CellFollows('n', "sitting", KittenRows[5], KittenRows[6], 4);
    assert CellFollows('n', "sitting", KittenRows[5], KittenRows[6], 5);
    assert CellFollows('n', "sitting", KittenRows[5], KittenRows[6], 6);
  }
}
