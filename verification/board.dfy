/** The sixteen containers of a FreeCell table and the two global counters.

    Hands are numbered as the game panel lists them: 0..7 are the cascades,
    8..11 the free cells and 12..15 the foundations. The number of open
    (empty) cascades and the number of empty free cells are static counters
    in the source, kept up to date by the container overrides of `addCard`,
    `removeCard` and `clear`; here they are explicit fields of the board, and
    `CountersAccurate` states that each equals a recount. */
module Board {
  import opened Cards
  import Hands

  const NumCascades: nat := 8
  const NumFreeCells: nat := 4
  const FirstFreeCell: nat := 8
  const FirstFoundation: nat := 12
  const NumHands: nat := 16

  /** Cards in a complete foundation. */
  const FullFoundation: nat := 13

  datatype Kind = CascadeKind | FreeCellKind | FoundationKind

  function KindOf(h: nat): Kind {
    if h < FirstFreeCell then CascadeKind
    else if h < FirstFoundation then FreeCellKind
    else FoundationKind
  }

  predicate IsCascade(h: nat) { h < FirstFreeCell }
  predicate IsFreeCell(h: nat) { FirstFreeCell <= h < FirstFoundation }
  predicate IsFoundation(h: nat) { FirstFoundation <= h < NumHands }

  datatype Board = Board(hands: seq<seq<Card>>, openCascades: int, emptyFreeCells: int)

  /** Number of empty hands among `hands[lo..hi]`. */
  function CountEmpty(hands: seq<seq<Card>>, lo: nat, hi: nat): (n: nat)
    requires lo <= hi <= |hands|
    ensures n <= hi - lo
    ensures n == hi - lo <==> forall h :: lo <= h < hi ==> |hands[h]| == 0
    ensures n == 0 <==> forall h :: lo <= h < hi ==> |hands[h]| > 0
    decreases hi - lo
  {
    if lo == hi then 0
    else (if |hands[lo]| == 0 then 1 else 0) + CountEmpty(hands, lo + 1, hi)
  }

  /** Both counters equal a recount of the empty containers of their kind. */
  predicate CountersAccurate(b: Board)
    requires |b.hands| == NumHands
  {
    && b.openCascades == CountEmpty(b.hands, 0, FirstFreeCell)
    && b.emptyFreeCells == CountEmpty(b.hands, FirstFreeCell, FirstFoundation)
  }

  predicate ValidCards(s: seq<Card>) {
    forall i :: 0 <= i < |s| ==> ValidCard(s[i])
  }

  /** A foundation built by legal placements: ace first, then each card one
      rank higher, all of the suit of the ace. */
  predicate FoundationBuilt(s: seq<Card>) {
    forall i :: 0 <= i < |s| ==> s[i].rank == i + 1 && s[i].suit == s[0].suit
  }

  /** The table invariant: sixteen hands of valid cards, at most one card per
      free cell, foundations built in order, and accurate counters. */
  predicate Inv(b: Board) {
    && |b.hands| == NumHands
    && (forall h :: 0 <= h < NumHands ==> ValidCards(b.hands[h]))
    && (forall h :: FirstFreeCell <= h < FirstFoundation ==> |b.hands[h]| <= 1)
    && (forall h :: FirstFoundation <= h < NumHands ==> FoundationBuilt(b.hands[h]))
    && CountersAccurate(b)
  }

  // ---------------------------------------------------------------------
  // Single-card operations with the per-kind counter bookkeeping

  /** `addCard`: appends the card. A cascade that was empty is no longer
      open; a free cell always counts one fewer empty cell (its override does
      not look at the cell); a foundation touches no counter. */
  function AddCard(b: Board, h: nat, c: Card): (r: Board)
    requires h < |b.hands|
    ensures |r.hands| == |b.hands|
    ensures r.hands[h] == Hands.AddCard(b.hands[h], c)
    ensures forall g :: 0 <= g < |b.hands| && g != h ==> r.hands[g] == b.hands[g]
  {
    var hands := b.hands[h := Hands.AddCard(b.hands[h], c)];
    match KindOf(h)
    case CascadeKind =>
      Board(hands, b.openCascades - (if |b.hands[h]| == 0 then 1 else 0), b.emptyFreeCells)
    case FreeCellKind =>
      Board(hands, b.openCascades, b.emptyFreeCells - 1)
    case FoundationKind =>
      b.(hands := hands)
  }

  /** `removeCard(int)`: removes the card at index `i`. A cascade left empty
      becomes open; a free cell always counts one more empty cell. */
  function RemoveAt(b: Board, h: nat, i: nat): (r: (Card, Board))
    requires h < |b.hands| && i < |b.hands[h]|
    ensures r.0 == b.hands[h][i]
    ensures |r.1.hands| == |b.hands|
    ensures r.1.hands[h] == Hands.RemoveAt(b.hands[h], i).1
    ensures forall g :: 0 <= g < |b.hands| && g != h ==> r.1.hands[g] == b.hands[g]
  {
    var (c, rest) := Hands.RemoveAt(b.hands[h], i);
    var hands := b.hands[h := rest];
    match KindOf(h)
    case CascadeKind =>
      (c, Board(hands, b.openCascades + (if |rest| == 0 then 1 else 0), b.emptyFreeCells))
    case FreeCellKind =>
      (c, Board(hands, b.openCascades, b.emptyFreeCells + 1))
    case FoundationKind =>
      (c, b.(hands := hands))
  }

  /** `removeTopCard`: removes the top card through the same override. */
  function RemoveTop(b: Board, h: nat): (r: (Card, Board))
    requires h < |b.hands| && |b.hands[h]| > 0
    ensures r.0 == Hands.TopCard(b.hands[h])
    ensures |r.1.hands| == |b.hands|
    ensures r.1.hands[h] == b.hands[h][..|b.hands[h]| - 1]
    ensures forall g :: 0 <= g < |b.hands| && g != h ==> r.1.hands[g] == b.hands[g]
  {
    RemoveAt(b, h, |b.hands[h]| - 1)
  }

  /** `clear`: empties the hand. Clearing a cascade sets the open-cascade
      counter to 8 and clearing a free cell sets the empty-cell counter to 4
      (the source only clears when a new game starts). */
  function Clear(b: Board, h: nat): (r: Board)
    requires h < |b.hands|
    ensures |r.hands| == |b.hands| && r.hands[h] == []
    ensures forall g :: 0 <= g < |b.hands| && g != h ==> r.hands[g] == b.hands[g]
  {
    var hands := b.hands[h := []];
    match KindOf(h)
    case CascadeKind => Board(hands, NumCascades, b.emptyFreeCells)
    case FreeCellKind => Board(hands, b.openCascades, NumFreeCells)
    case FoundationKind => b.(hands := hands)
  }

  /** Clears hands `from`, `from + 1`, ... in order, as a new game does for
      every hand. */
  function ClearAll(b: Board, from: nat): (r: Board)
    requires from <= |b.hands|
    decreases |b.hands| - from
  {
    if from == |b.hands| then b else ClearAll(Clear(b, from), from + 1)
  }

  /** Adding a card and then removing the top card gives back the card and
      the board, counters included. */
  lemma AddCardThenRemoveTop(b: Board, h: nat, c: Card)
    requires h < |b.hands|
    ensures RemoveTop(AddCard(b, h, c), h) == (c, b)
  {
    var r := RemoveTop(AddCard(b, h, c), h).1;
    assert r.hands[h] == b.hands[h];
    assert r.hands == b.hands;
  }

  /** Removing the top card and adding it back gives back the board,
      counters included. */
  lemma RemoveTopThenAddCard(b: Board, h: nat)
    requires h < |b.hands| && |b.hands[h]| > 0
    ensures AddCard(RemoveTop(b, h).1, h, RemoveTop(b, h).0) == b
  {
    var (c, b1) := RemoveTop(b, h);
    var r := AddCard(b1, h, c);
    assert r.hands[h] == b.hands[h];
    assert r.hands == b.hands;
  }

  // ---------------------------------------------------------------------
  // Multi-card operations, one card at a time as in the source

  /** Appends `cs` one card at a time through `AddCard` (placing a run). */
  function AddAll(b: Board, h: nat, cs: seq<Card>): (r: Board)
    requires h < |b.hands|
    ensures |r.hands| == |b.hands|
    decreases |cs|
  {
    if |cs| == 0 then b else AddAll(AddCard(b, h, cs[0]), h, cs[1..])
  }

  /** Removes the top card `k` times (undoing a run move). */
  function RemoveTopN(b: Board, h: nat, k: nat): (r: Board)
    requires h < |b.hands| && k <= |b.hands[h]|
    ensures |r.hands| == |b.hands|
    decreases k
  {
    if k == 0 then b else RemoveTopN(RemoveTop(b, h).1, h, k - 1)
  }

  /** Removes the card at index `at` until only `at` cards remain (picking
      up a run: every removal takes the card now at `at`). */
  function RemoveFrom(b: Board, h: nat, at: nat): (r: Board)
    requires h < |b.hands| && at <= |b.hands[h]|
    ensures |r.hands| == |b.hands|
    decreases |b.hands[h]| - at
  {
    if |b.hands[h]| == at then b else RemoveFrom(RemoveAt(b, h, at).1, h, at)
  }

  // ---------------------------------------------------------------------
  // Closed forms of the multi-card operations

  /** The net effect of a one-by-one append: the cards in order on top, a
      cascade stops being open only if it was empty and something was added,
      a free cell loses one empty count per card. */
  lemma {:induction false} AddAllEffect(b: Board, h: nat, cs: seq<Card>)
    requires h < |b.hands|
    ensures AddAll(b, h, cs).hands == b.hands[h := b.hands[h] + cs]
    ensures AddAll(b, h, cs).openCascades ==
              b.openCascades - (if IsCascade(h) && |b.hands[h]| == 0 && |cs| > 0 then 1 else 0)
    ensures AddAll(b, h, cs).emptyFreeCells ==
              b.emptyFreeCells - (if IsFreeCell(h) then |cs| else 0)
    decreases |cs|
  {
    if |cs| > 0 {
      var b1 := AddCard(b, h, cs[0]);
      AddAllEffect(b1, h, cs[1..]);
      assert b1.hands[h] + cs[1..] == b.hands[h] + cs;
      assert b1.hands[h := b1.hands[h] + cs[1..]] == b.hands[h := b.hands[h] + cs];
    } else {
      assert b.hands[h] + cs == b.hands[h];
      assert b.hands[h := b.hands[h] + cs] == b.hands;
    }
  }

  /** The net effect of removing the top card `k` times. */
  lemma {:induction false} RemoveTopNEffect(b: Board, h: nat, k: nat)
    requires h < |b.hands| && k <= |b.hands[h]|
    ensures RemoveTopN(b, h, k).hands == b.hands[h := b.hands[h][..|b.hands[h]| - k]]
    ensures RemoveTopN(b, h, k).openCascades ==
              b.openCascades + (if IsCascade(h) && k > 0 && k == |b.hands[h]| then 1 else 0)
    ensures RemoveTopN(b, h, k).emptyFreeCells ==
              b.emptyFreeCells + (if IsFreeCell(h) then k else 0)
    decreases k
  {
    if k > 0 {
      var b1 := RemoveTop(b, h).1;
      RemoveTopNEffect(b1, h, k - 1);
      assert b1.hands[h][..|b1.hands[h]| - (k - 1)] == b.hands[h][..|b.hands[h]| - k];
      assert b1.hands[h := b1.hands[h][..|b1.hands[h]| - (k - 1)]]
          == b.hands[h := b.hands[h][..|b.hands[h]| - k]];
    } else {
      assert b.hands[h][..|b.hands[h]| - k] == b.hands[h];
      assert b.hands[h := b.hands[h][..|b.hands[h]| - k]] == b.hands;
    }
  }

  /** The net effect of the pick-up loop: exactly the prefix below `at`
      remains; the cascade becomes open only when `at` is 0. */
  lemma {:induction false} RemoveFromEffect(b: Board, h: nat, at: nat)
    requires h < |b.hands| && at <= |b.hands[h]|
    ensures RemoveFrom(b, h, at).hands == b.hands[h := b.hands[h][..at]]
    ensures RemoveFrom(b, h, at).openCascades ==
              b.openCascades + (if IsCascade(h) && at == 0 && |b.hands[h]| > 0 then 1 else 0)
    ensures RemoveFrom(b, h, at).emptyFreeCells ==
              b.emptyFreeCells + (if IsFreeCell(h) then |b.hands[h]| - at else 0)
    decreases |b.hands[h]| - at
  {
    if |b.hands[h]| > at {
      var b1 := RemoveAt(b, h, at).1;
      RemoveFromEffect(b1, h, at);
      assert b1.hands[h][..at] == b.hands[h][..at];
      assert b1.hands[h := b1.hands[h][..at]] == b.hands[h := b.hands[h][..at]];
    } else {
      assert b.hands[h][..at] == b.hands[h];
      assert b.hands[h := b.hands[h][..at]] == b.hands;
    }
  }

  // ---------------------------------------------------------------------
  // Counting

  /** Replacing one hand changes the count of empty hands in a range by the
      change in that hand's emptiness, and not at all outside the range. */
  lemma {:induction false} CountEmptyUpdate(hands: seq<seq<Card>>, lo: nat, hi: nat, h: nat, s: seq<Card>)
    requires lo <= hi <= |hands| && h < |hands|
    ensures CountEmpty(hands[h := s], lo, hi) ==
              CountEmpty(hands, lo, hi)
              - (if lo <= h < hi && |hands[h]| == 0 then 1 else 0)
              + (if lo <= h < hi && |s| == 0 then 1 else 0)
    decreases hi - lo
  {
    if lo < hi {
      CountEmptyUpdate(hands, lo + 1, hi, h, s);
    }
  }

  /** Counts over a range depend only on the hands in the range. */
  lemma {:induction false} CountEmptyFrame(hands: seq<seq<Card>>, hands': seq<seq<Card>>, lo: nat, hi: nat)
    requires lo <= hi <= |hands| && hi <= |hands'|
    requires forall g :: lo <= g < hi ==> hands[g] == hands'[g]
    ensures CountEmpty(hands, lo, hi) == CountEmpty(hands', lo, hi)
    decreases hi - lo
  {
    if lo < hi {
      CountEmptyFrame(hands, hands', lo + 1, hi);
    }
  }

  /** Adding a card keeps the counters accurate, provided a free cell
      receives a card only while it is empty. */
  lemma AddCardKeepsCounters(b: Board, h: nat, c: Card)
    requires |b.hands| == NumHands && h < NumHands && CountersAccurate(b)
    requires IsFreeCell(h) ==> |b.hands[h]| == 0
    ensures CountersAccurate(AddCard(b, h, c))
  {
    var r := AddCard(b, h, c);
    assert r.hands == b.hands[h := b.hands[h] + [c]];
    assert r.openCascades == b.openCascades - (if IsCascade(h) && |b.hands[h]| == 0 then 1 else 0);
    assert r.emptyFreeCells == b.emptyFreeCells - (if IsFreeCell(h) then 1 else 0);
    CountEmptyUpdate(b.hands, 0, FirstFreeCell, h, b.hands[h] + [c]);
    CountEmptyUpdate(b.hands, FirstFreeCell, FirstFoundation, h, b.hands[h] + [c]);
  }

  /** Removing a card keeps the counters accurate, provided a free cell gives
      up a card only when it holds exactly one. */
  lemma RemoveAtKeepsCounters(b: Board, h: nat, i: nat)
    requires |b.hands| == NumHands && h < NumHands && i < |b.hands[h]| && CountersAccurate(b)
    requires IsFreeCell(h) ==> |b.hands[h]| == 1
    ensures CountersAccurate(RemoveAt(b, h, i).1)
  {
    var rest := Hands.RemoveAt(b.hands[h], i).1;
    var r := RemoveAt(b, h, i).1;
    assert r.hands == b.hands[h := rest];
    assert r.openCascades == b.openCascades + (if IsCascade(h) && |rest| == 0 then 1 else 0);
    assert r.emptyFreeCells == b.emptyFreeCells + (if IsFreeCell(h) then 1 else 0);
    CountEmptyUpdate(b.hands, 0, FirstFreeCell, h, rest);
    CountEmptyUpdate(b.hands, FirstFreeCell, FirstFoundation, h, rest);
  }

  /** Clearing hands `from` onwards empties them, keeps the others, and
      resets each counter whose kind of hand was among them. */
  lemma {:induction false} ClearAllEffect(b: Board, from: nat)
    requires from <= |b.hands| == NumHands
    ensures |ClearAll(b, from).hands| == NumHands
    ensures forall g :: from <= g < NumHands ==> ClearAll(b, from).hands[g] == []
    ensures forall g :: 0 <= g < from ==> ClearAll(b, from).hands[g] == b.hands[g]
    ensures ClearAll(b, from).openCascades ==
              (if from < FirstFreeCell then NumCascades else b.openCascades)
    ensures ClearAll(b, from).emptyFreeCells ==
              (if from < FirstFoundation then NumFreeCells else b.emptyFreeCells)
    decreases NumHands - from
  {
    if from < NumHands {
      ClearAllEffect(Clear(b, from), from + 1);
    }
  }

  /** After clearing every hand the table invariant holds. */
  lemma ClearAllInv(b: Board)
    requires |b.hands| == NumHands
    ensures Inv(ClearAll(b, 0))
    ensures forall g :: 0 <= g < NumHands ==> ClearAll(b, 0).hands[g] == []
  {
    ClearAllEffect(b, 0);
    var r := ClearAll(b, 0);
    assert CountEmpty(r.hands, 0, FirstFreeCell) == NumCascades;
    assert CountEmpty(r.hands, FirstFreeCell, FirstFoundation) == NumFreeCells;
  }

  /** Under the invariant the counters lie in their natural ranges, and every
      foundation is one suit, ace upwards, with at most 13 cards. */
  lemma InvBounds(b: Board)
    requires Inv(b)
    ensures 0 <= b.openCascades <= NumCascades
    ensures 0 <= b.emptyFreeCells <= NumFreeCells
    ensures forall h :: FirstFoundation <= h < NumHands ==> |b.hands[h]| <= FullFoundation
  {
    forall h | FirstFoundation <= h < NumHands
      ensures |b.hands[h]| <= FullFoundation
    {
      FoundationLength(b.hands[h]);
    }
  }

  /** A foundation of valid cards built ace upwards holds at most 13 cards:
      its top card's rank is its length. */
  lemma FoundationLength(s: seq<Card>)
    requires ValidCards(s) && FoundationBuilt(s)
    ensures |s| <= FullFoundation
  {
    if |s| > 0 {
      assert s[|s| - 1].rank == |s|;
    }
  }
}
