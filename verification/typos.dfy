/** The classification vocabulary: typo kinds, and the candidate record the
    search produces and the classifier relabels. */
module Typos {

  /** Which end of the word has the extra or missing character. */
  datatype CharacterPosition = Head | Tail

  datatype TypoType =
    | ExtraCharacters(character: char, position: CharacterPosition)    // the query has a character too many
    | MissingCharacters(character: char, position: CharacterPosition)  // the query lacks a character
    | CloseKeyboardPlacement                                           // one letter swapped for a QWERTY neighbour
    | SimilarShapes                                                    // one letter swapped for a look-alike
    | UndefinedType                                                    // not (or not yet) classified

  /** A dictionary word with its edit distance to the query and its typo kind. */
  datatype SimilarWord = SimilarWord(spelling: string, distance: nat, typoType: TypoType)

  /** A freshly found candidate is unclassified (`SimilarWord::new`). */
  function NewSimilarWord(spelling: string, distance: nat): (w: SimilarWord)
    ensures w.spelling == spelling && w.distance == distance
    ensures w.typoType.UndefinedType?
  {
    SimilarWord(spelling, distance, UndefinedType)
  }

  /** True when two kinds are the same variant, whatever their fields. */
  predicate SameVariant(t: TypoType, u: TypoType) {
    || (t.ExtraCharacters? && u.ExtraCharacters?)
    || (t.MissingCharacters? && u.MissingCharacters?)
    || (t.CloseKeyboardPlacement? && u.CloseKeyboardPlacement?)
    || (t.SimilarShapes? && u.SimilarShapes?)
    || (t.UndefinedType? && u.UndefinedType?)
  }

  /** The variant's name; the fields of the two character-carrying variants are dropped. */
  function TypeName(t: TypoType): string {
    match t
    case ExtraCharacters(_, _) => "ExtraCharacters"
    case MissingCharacters(_, _) => "MissingCharacters"
    case CloseKeyboardPlacement => "CloseKeyboardPlacement"
    case SimilarShapes => "SimilarShapes"
    case UndefinedType => "UndefinedType"
  }

  /** Each of the five names belongs to exactly one variant. */
  lemma TypeNameSpelling(t: TypoType)
    ensures TypeName(t) == "ExtraCharacters" <==> t.ExtraCharacters?
    ensures TypeName(t) == "MissingCharacters" <==> t.MissingCharacters?
    ensures TypeName(t) == "CloseKeyboardPlacement" <==> t.CloseKeyboardPlacement?
    ensures TypeName(t) == "SimilarShapes" <==> t.SimilarShapes?
    ensures TypeName(t) == "UndefinedType" <==> t.UndefinedType?
  {
  }

  /** Two kinds share a name exactly when they are the same variant, so the
      ranker's name-keyed order ignores the character and position fields. */
  lemma TypeNameIdentifiesVariant(t: TypoType, u: TypoType)
    ensures TypeName(t) == TypeName(u) <==> SameVariant(t, u)
  {
    match t
    case ExtraCharacters(_, _) =>
      assert TypeName(t)[0] == 'E';
      assert TypeName(u) == TypeName(t) ==> u.ExtraCharacters? by {
        if TypeName(u) == TypeName(t) { assert TypeName(u)[0] == 'E'; }
      }
    case MissingCharacters(_, _) =>
      assert TypeName(t)[0] == 'M';
      assert TypeName(u) == TypeName(t) ==> u.MissingCharacters? by {
        if TypeName(u) == TypeName(t) { assert TypeName(u)[0] == 'M'; }
      }
    case CloseKeyboardPlacement =>
      assert TypeName(u) == TypeName(t) ==> u.CloseKeyboardPlacement? by {
        if TypeName(u) == TypeName(t) { assert TypeName(u)[0] == 'C'; }
      }
    case SimilarShapes =>
      assert TypeName(u) == TypeName(t) ==> u.SimilarShapes? by {
        if TypeName(u) == TypeName(t) { assert TypeName(u)[0] == 'S'; }
      }
    case UndefinedType =>
      assert TypeName(u) == TypeName(t) ==> u.UndefinedType? by {
        if TypeName(u) == TypeName(t) { assert TypeName(u)[0] == 'U'; }
      }
  }
}
