/** The two static tables the classifier consults: QWERTY neighbours and
    groups of look-alike letters. */
module Tables {

  /** Letters adjacent to `c` on a QWERTY keyboard, row by row. */
  function Neighbours(c: char): (r: seq<char>)
    requires IsLowerLetter(c)
    ensures 2 <= |r| && c !in r
    ensures forall x :: x in r ==> IsLowerLetter(x)
  {
    match c
    // first row
    case 'q' => ['w', 's', 'a']
    case 'w' => ['q', 'e', 'a', 's', 'd']
    case 'e' => ['w', 'r', 's', 'd', 'f']
    case 'r' => ['e', 't', 'd', 'f', 'g']
    case 't' => ['r', 'y', 'f', 'g', 'h']
    case 'y' => ['t', 'u', 'g', 'h', 'j']
    case 'u' => ['y', 'i', 'h', 'j', 'k']
    case 'i' => ['u', 'o', 'j', 'k', 'l']
    case 'o' => ['i', 'p', 'k', 'l']
    case 'p' => ['o', 'l']
    // second row
    case 'a' => ['q', 'w', 's', 'x', 'z']
    case 's' => ['q', 'w', 'e', 'd', 'c', 'x', 'z', 'a']
    case 'd' => ['w', 'e', 'r', 'f', 'v', 'c', 'x', 's']
    case 'f' => ['e', 'r', 't', 'g', 'b', 'v', 'c', 'd']
    case 'g' => ['r', 't', 'y', 'h', 'n', 'b', 'v', 'f']
    case 'h' => ['t', 'y', 'u', 'j', 'm', 'n', 'b', 'g']
    case 'j' => ['y', 'u', 'i', 'k', 'm', 'n', 'h']
    case 'k' => ['u', 'i', 'o', 'l', 'm', 'j']
    case 'l' => ['i', 'o', 'p', 'k']
    // third row
    case 'z' => ['a', 's', 'x']
    case 'x' => ['a', 's', 'd', 'c', 'z']
    case 'c' => ['s', 'd', 'f', 'v', 'x']
    case 'v' => ['d', 'f', 'g', 'b', 'c']
    case 'b' => ['f', 'g', 'h', 'n', 'v']
    case 'n' => ['g', 'h', 'j', 'm', 'b']
    case 'm' => ['h', 'j', 'k', 'n']
    case _ => assert false; []
  }

  /** The neighbour table: exactly the 26 lower-case letters are keys. */
  const Keyboard: map<char, seq<char>> := map c: char | IsLowerLetter(c) :: Neighbours(c)

  /** Groups of letters considered similar in shape. */
  const ShapeGroups: seq<seq<char>> := [
    ['a', 'c', 'e', 'o'],
    ['b', 'd'],
    ['f', 'l'],
    ['g', 'q'],
    ['m', 'n'],
    ['p', 'q'],
    ['u', 'v']
  ]

  predicate IsLowerLetter(c: char) {
    'a' <= c <= 'z'
  }

  /** True when some group among `groups` holds both letters (the source's
      scan over the groups, which stops at the first such group). */
  function InSomeGroup(groups: seq<seq<char>>, c: char, t: char): (r: bool)
    ensures r <==> exists g :: g in groups && c in g && t in g
  {
    if |groups| == 0 then false
    else if c in groups[0] && t in groups[0] then true
    else
      assert forall g :: g in groups ==> g == groups[0] || g in groups[1..];
      InSomeGroup(groups[1..], c, t)
  }

  predicate SimilarShape(c: char, t: char) {
    InSomeGroup(ShapeGroups, c, t)
  }

  /** The shape test spelled out group by group. */
  predicate InShapeTable(c: char, t: char) {
    || (c in "aceo" && t in "aceo")
    || (c in "bd" && t in "bd")
    || (c in "fl" && t in "fl")
    || (c in "gq" && t in "gq")
    || (c in "mn" && t in "mn")
    || (c in "pq" && t in "pq")
    || (c in "uv" && t in "uv")
  }

  lemma SimilarShapeCases(c: char, t: char)
    ensures SimilarShape(c, t) <==> InShapeTable(c, t)
  {
    if SimilarShape(c, t) {
      SimilarShapeOnlyIf(c, t);
    } else if InShapeTable(c, t) {
      SimilarShapeIf(c, t);
    }
  }

  lemma SimilarShapeOnlyIf(c: char, t: char)
    requires SimilarShape(c, t)
    ensures InShapeTable(c, t)
  {
    var gs := ShapeGroups;
    assert gs[1..][1..][1..][1..][1..][1..][1..] == [];
  }

  lemma SimilarShapeIf(c: char, t: char)
    requires InShapeTable(c, t)
    ensures SimilarShape(c, t)
  {
    var gs := ShapeGroups;
    if c in "aceo" && t in "aceo" {
      assert gs[0] == "aceo";
    } else if c in "bd" && t in "bd" {
      assert gs[1] == "bd";
    } else if c in "fl" && t in "fl" {
      assert gs[2] == "fl";
    } else if c in "gq" && t in "gq" {
      assert gs[3] == "gq";
    } else if c in "mn" && t in "mn" {
      assert gs[4] == "mn";
    } else if c in "pq" && t in "pq" {
      assert gs[5] == "pq";
    } else {
      assert gs[6] == "uv";
    }
  }

  /** Exactly the lower-case letters have a neighbour list, so any other
      query character makes the keyboard lookup fail. */
  lemma KeyboardKeysAreLetters(c: char)
    ensures c in Keyboard <==> IsLowerLetter(c)
  {
  }

  /** Shape similarity is a symmetric relation that ignores argument order. */
  lemma SimilarShapeSymmetric(c: char, t: char)
    ensures SimilarShape(c, t) <==> SimilarShape(t, c)
  {
  }
}
