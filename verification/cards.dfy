/** Playing cards: rank, suit and orientation, the two orderings, the two
    stacking predicates and the two-character text notation ("AS", "tc"). */
module Cards {

  /** Rank 1..13 (1 = ace, 11 = jack, 12 = queen, 13 = king) and suit 1..4
      (1 = clubs, 2 = diamonds, 3 = hearts, 4 = spades). Both are plain
      integers: nothing stops a caller from building an out-of-range card, and
      decoding unknown text yields -1, so the fields are `int`. */
  datatype Card = Card(rank: int, suit: int, faceUp: bool)

  /** Character tables of the text notation; index 0 is a blank in both. */
  const Ranks: string := " A23456789TJQK"
  const Suits: string := " CDHS"

  predicate ValidRank(r: int) { 1 <= r <= 13 }
  predicate ValidSuit(s: int) { 1 <= s <= 4 }
  predicate ValidCard(c: Card) { ValidRank(c.rank) && ValidSuit(c.suit) }

  /** Colours as a reference definition: clubs and spades are black,
      diamonds and hearts are red. */
  predicate IsRed(suit: int) { suit == 2 || suit == 3 }
  predicate IsBlack(suit: int) { suit == 1 || suit == 4 }

  /** The integer constructor: a face-down card of the given rank and suit. */
  function NewCard(rank: int, suit: int): (c: Card)
    ensures c.rank == rank && c.suit == suit
    ensures !c.faceUp
  {
    Card(rank, suit, false)
  }

  /** Turns the card over and changes nothing else. */
  function Flip(c: Card): (r: Card)
    ensures r.faceUp != c.faceUp
    ensures r.rank == c.rank && r.suit == c.suit
  {
    c.(faceUp := !c.faceUp)
  }

  /** The card turned face up (a no-op when it already is). */
  function FaceUp(c: Card): (r: Card)
    ensures r.faceUp && r.rank == c.rank && r.suit == c.suit
  {
    if c.faceUp then c else Flip(c)
  }

  /** The card turned face down (a no-op when it already is). */
  function FaceDown(c: Card): (r: Card)
    ensures !r.faceUp && r.rank == c.rank && r.suit == c.suit
  {
    if c.faceUp then Flip(c) else c
  }

  /** Card equality ignores orientation: rank and suit only. */
  predicate SameCard(a: Card, b: Card) {
    a.rank == b.rank && a.suit == b.suit
  }

  predicate IsAce(c: Card) { c.rank == 1 }

  /** `a` may be stacked on `b` in a cascade: one rank lower, and (for valid
      suits) of the opposite colour. The source encodes "opposite colour" as
      "different suit and suits not summing to 5". */
  predicate CanPlaceOnCascade(a: Card, b: Card) {
    a.rank + 1 == b.rank && a.suit != b.suit && a.suit + b.suit != 5
  }

  /** `a` may be stacked on `b` in a foundation: same suit, one rank higher. */
  predicate CanPlaceOnFoundation(a: Card, b: Card) {
    a.suit == b.suit && a.rank == b.rank + 1
  }

  /** Lexicographic "rank, then suit" order as a reference relation. */
  predicate RankSuitLess(a: Card, b: Card) {
    a.rank < b.rank || (a.rank == b.rank && a.suit < b.suit)
  }

  /** Lexicographic "suit, then rank" order as a reference relation. */
  predicate SuitRankLess(a: Card, b: Card) {
    a.suit < b.suit || (a.suit == b.suit && a.rank < b.rank)
  }

  /** The natural ordering: by rank, ties broken by suit. */
  function CompareTo(a: Card, b: Card): (r: int)
    ensures r == 0 <==> SameCard(a, b)
    ensures r < 0 <==> RankSuitLess(a, b)
    ensures r > 0 <==> RankSuitLess(b, a)
  {
    if a.rank != b.rank then a.rank - b.rank
    else if a.suit != b.suit then a.suit - b.suit
    else 0
  }

  /** The secondary ordering: by suit, ties broken by rank. */
  function SuitOrderCompare(a: Card, b: Card): (r: int)
    ensures r == 0 <==> SameCard(a, b)
    ensures r < 0 <==> SuitRankLess(a, b)
    ensures r > 0 <==> SuitRankLess(b, a)
  {
    if a.suit != b.suit then a.suit - b.suit
    else if a.rank != b.rank then a.rank - b.rank
    else 0
  }

  // ---------------------------------------------------------------------
  // Properties of the predicates and orderings

  /** Flipping twice restores the card. */
  lemma FlipTwice(c: Card)
    ensures Flip(Flip(c)) == c
  {
  }

  /** For valid suits the source's arithmetic encoding is exactly "opposite
      colour". */
  lemma CascadeRuleIsOppositeColour(a: Card, b: Card)
    requires ValidSuit(a.suit) && ValidSuit(b.suit)
    ensures CanPlaceOnCascade(a, b) <==> a.rank + 1 == b.rank && IsRed(a.suit) != IsRed(b.suit)
  {
  }

  /** Both orderings are antisymmetric in sign. */
  lemma CompareAntisymmetric(a: Card, b: Card)
    ensures CompareTo(a, b) < 0 <==> CompareTo(b, a) > 0
    ensures SuitOrderCompare(a, b) < 0 <==> SuitOrderCompare(b, a) > 0
  {
  }

  // ---------------------------------------------------------------------
  // Text notation

  /** ASCII case mapping; every other character is its own image. */
  function Upper(ch: char): (r: char)
    ensures 'a' <= ch <= 'z' ==> 'A' <= r <= 'Z' && r as int == ch as int - 32
    ensures !('a' <= ch <= 'z') ==> r == ch
  {
    if 'a' <= ch <= 'z' then (ch as int - 32) as char else ch
  }

  function Lower(ch: char): (r: char)
    ensures 'A' <= ch <= 'Z' ==> 'a' <= r <= 'z' && r as int == ch as int + 32
    ensures !('A' <= ch <= 'Z') ==> r == ch
  {
    if 'A' <= ch <= 'Z' then (ch as int + 32) as char else ch
  }

  predicate IsUpperCase(ch: char) { 'A' <= ch <= 'Z' }

  /** Position of the first occurrence of `ch` in `s`, or -1. */
  function IndexOf(s: string, ch: char): (r: int)
    ensures -1 <= r < |s|
    ensures r == -1 <==> ch !in s
    ensures r >= 0 ==> s[r] == ch && ch !in s[..r]
  {
    if |s| == 0 then -1
    else if s[0] == ch then 0
    else
      var k := IndexOf(s[1..], ch);
      assert s[1..][..if k < 0 then 0 else k] == s[1..if k < 0 then 1 else k + 1];
      if k < 0 then -1 else k + 1
  }

  /** Text form: rank character then suit character, upper case when the
      card is face up and lower case when it is face down. */
  function Encode(c: Card): (s: string)
    requires 0 <= c.rank < |Ranks| && 0 <= c.suit < |Suits|
    ensures |s| == 2
    ensures Upper(s[0]) == Ranks[c.rank] && Upper(s[1]) == Suits[c.suit]
    ensures c.faceUp ==> s[0] == Ranks[c.rank] && s[1] == Suits[c.suit]
    ensures !c.faceUp ==> s[0] == Lower(Ranks[c.rank]) && s[1] == Lower(Suits[c.suit])
  {
    if c.faceUp then [Ranks[c.rank], Suits[c.suit]]
    else [Lower(Ranks[c.rank]), Lower(Suits[c.suit])]
  }

  /** Reads the first two characters of the text (the rest is ignored). The
      rank character is read case-insensitively; the case of the suit
      character alone decides the orientation. Unknown characters give -1;
      a blank gives 0, since the tables start with a blank. */
  function Decode(s: string): (c: Card)
    requires |s| >= 2
    ensures c.rank == IndexOf(Ranks, Upper(s[0]))
    ensures c.suit == IndexOf(Suits, Upper(s[1]))
    ensures c.faceUp <==> IsUpperCase(s[1])
    ensures -1 <= c.rank < |Ranks| && -1 <= c.suit < |Suits|
  {
    Card(IndexOf(Ranks, Upper(s[0])), IndexOf(Suits, Upper(s[1])), IsUpperCase(s[1]))
  }

  predicate Distinct(s: string) {
    forall a, b :: 0 <= a < b < |s| ==> s[a] != s[b]
  }

  /** In a string of distinct characters every character is found at its own
      position. */
  lemma IndexOfDistinct(s: string, i: int)
    requires Distinct(s) && 0 <= i < |s|
    ensures IndexOf(s, s[i]) == i
  {
    assert s[i] in s;
  }

  /** The rank and suit tables hold distinct characters, so a table entry is
      found at its own position. */
  lemma IndexOfRanks(i: int)
    requires 0 <= i < |Ranks|
    ensures IndexOf(Ranks, Ranks[i]) == i
  {
    IndexOfDistinct(Ranks, i);
  }

  lemma IndexOfSuits(i: int)
    requires 0 <= i < |Suits|
    ensures IndexOf(Suits, Suits[i]) == i
  {
    IndexOfDistinct(Suits, i);
  }

  /** Decoding the text of a valid card gives the card back, orientation
      included. */
  lemma {:induction false} DecodeEncode(c: Card)
    requires ValidCard(c)
    ensures Decode(Encode(c)) == c
  {
    var s := Encode(c);
    IndexOfRanks(c.rank);
    IndexOfSuits(c.suit);
    assert Upper(s[0]) == Ranks[c.rank];
    assert Upper(s[1]) == Suits[c.suit];
    assert IsUpperCase(s[1]) <==> c.faceUp;
  }

  /** Text that decodes to a valid card and whose rank character has the same
      case as its suit character (digits count as either case). */
  predicate WellFormedText(s: string) {
    |s| == 2
    && Upper(s[0]) in Ranks[1..]
    && Upper(s[1]) in Suits[1..]
    && s[0] == (if IsUpperCase(s[1]) then Upper(s[0]) else Lower(s[0]))
  }

  /** A character that is not an upper-case letter comes back unchanged
      from upper-casing then lower-casing. */
  lemma LowerUpper(ch: char)
    requires !('A' <= ch <= 'Z')
    ensures Lower(Upper(ch)) == ch
  {
    if 'a' <= ch <= 'z' {
      var u := Upper(ch);
      assert 'A' <= u <= 'Z';
      assert Lower(u) as int == ch as int;
    }
  }

  /** Encoding a decoded well-formed text gives the text back. */
  lemma {:induction false} EncodeDecode(s: string)
    requires WellFormedText(s)
    ensures ValidCard(Decode(s))
    ensures Encode(Decode(s)) == s
  {
    var c := Decode(s);
    RankCharFound(s[0]);
    SuitCharFound(s[1]);
    var t := Encode(c);
    if c.faceUp {
      assert t[0] == s[0] && t[1] == s[1];
    } else {
      LowerUpper(s[0]);
      LowerUpper(s[1]);
      assert t[0] == s[0] && t[1] == s[1];
    }
    SameTwo(t, s);
  }

  /** Two texts of two characters that agree at both positions are equal. */
  lemma SameTwo(t: string, s: string)
    requires |t| == 2 && |s| == 2 && t[0] == s[0] && t[1] == s[1]
    ensures t == s
  {
    assert forall i :: 0 <= i < 2 ==> t[i] == s[i];
  }

  /** A character whose upper case is a rank character reads as that
      rank. */
  lemma RankCharFound(ch: char)
    requires Upper(ch) in Ranks[1..]
    ensures var r := IndexOf(Ranks, Upper(ch)); 1 <= r < |Ranks| && Ranks[r] == Upper(ch)
  {
    var i :| 0 <= i < |Ranks[1..]| && Ranks[1..][i] == Upper(ch);
    assert Ranks[i + 1] == Upper(ch);
    IndexOfRanks(i + 1);
  }

  /** A character whose upper case is a suit character reads as that
      suit. */
  lemma SuitCharFound(ch: char)
    requires Upper(ch) in Suits[1..]
    ensures var r := IndexOf(Suits, Upper(ch)); 1 <= r < |Suits| && Suits[r] == Upper(ch)
  {
    var i :| 0 <= i < |Suits[1..]| && Suits[1..][i] == Upper(ch);
    assert Suits[i + 1] == Upper(ch);
    IndexOfSuits(i + 1);
  }
}
