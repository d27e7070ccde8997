/** The hint button: first a card in a free cell that fits a hand, then a
    move between cascades chosen at random, then moving the top card of the
    shortest cascade to an empty free cell, and otherwise a "no more
    moves" notice. */
module Hints {
  import opened Cards
  import opened Options
  import opened Board
  import opened Movables
  import opened Moves

  // ---------------------------------------------------------------------
  // Moves between cascades

  /** A movable of cascade `from` that cascade `to` (another cascade)
      accepts. */
  predicate IsCascadeMove(b: Board, mv: Move)
    requires |b.hands| == NumHands
  {
    && IsCascade(mv.from) && IsCascade(mv.to) && mv.from != mv.to
    && mv.moved in GetAllMovables(b.hands[mv.from], mv.from)
    && WellFormed(mv.moved)
    && CanPlaceOn(b, mv.moved, mv.to)
  }

  /** Moves of movable `m` from cascade `from` to cascades `to`, ..., 7. */
  function TargetsFrom(b: Board, from: nat, m: Movable, to: nat): (r: seq<Move>)
    requires |b.hands| == NumHands && IsCascade(from) && WellFormed(m) && to <= NumCascades
    ensures forall mv :: mv in r <==>
              && mv.from == from && mv.moved == m && to <= mv.to < NumCascades
              && mv.to != from && CanPlaceOn(b, m, mv.to)
    decreases NumCascades - to
  {
    if to == NumCascades then []
    else
      var rest := TargetsFrom(b, from, m, to + 1);
      if from != to && CanPlaceOn(b, m, to) then [Move(from, to, m)] + rest else rest
  }

  /** Moves of the movables `ms[i..]` from cascade `from`. */
  function MovesOfMovables(b: Board, from: nat, ms: seq<Movable>, i: nat): (r: seq<Move>)
    requires |b.hands| == NumHands && IsCascade(from) && i <= |ms|
    requires forall k :: 0 <= k < |ms| ==> WellFormed(ms[k])
    ensures forall mv :: mv in r <==>
              && mv.from == from && mv.moved in ms[i..] && IsCascade(mv.to)
              && mv.to != from && CanPlaceOn(b, mv.moved, mv.to)
    decreases |ms| - i
  {
    if i == |ms| then []
    else
      assert forall m :: m in ms[i..] <==> m == ms[i] || m in ms[i + 1..];
      TargetsFrom(b, from, ms[i], 0) + MovesOfMovables(b, from, ms, i + 1)
  }

  /** Moves out of cascades `from`, ..., 7. */
  function MovesFromCascades(b: Board, from: nat): (r: seq<Move>)
    requires |b.hands| == NumHands && from <= NumCascades
    ensures forall mv :: mv in r <==> from <= mv.from && IsCascadeMove(b, mv)
    decreases NumCascades - from
  {
    if from == NumCascades then []
    else
      var ms := GetAllMovables(b.hands[from], from);
      MovablesWellFormed(b.hands[from], from);
      MovesOfMovables(b, from, ms, 0) + MovesFromCascades(b, from + 1)
  }

  /** `allCascadeMoves`: every move between two cascades, source cascade
      by source cascade. */
  function AllCascadeMoves(b: Board): (r: seq<Move>)
    requires |b.hands| == NumHands
    ensures forall mv :: mv in r <==> IsCascadeMove(b, mv)
  {
    MovesFromCascades(b, 0)
  }

  /** With a cascade empty and another not, the top card of the other can
      always move onto the empty one, so there is a move between cascades. */
  lemma EmptyCascadeGivesMove(b: Board, empty: nat, other: nat)
    requires |b.hands| == NumHands && IsCascade(empty) && IsCascade(other)
    requires |b.hands[empty]| == 0 && |b.hands[other]| > 0
    ensures |AllCascadeMoves(b)| > 0
  {
    var top := b.hands[other][|b.hands[other]| - 1];
    var mv := Move(other, empty, Single(top));
    assert GetAllMovables(b.hands[other], other)[0] == Single(top);
    assert IsCascadeMove(b, mv);
  }

  /** With no move between cascades, one empty cascade means all are. */
  lemma NoMoveAllEmpty(b: Board, empty: nat)
    requires |b.hands| == NumHands && IsCascade(empty) && |b.hands[empty]| == 0
    requires |AllCascadeMoves(b)| == 0
    ensures forall j :: 0 <= j < NumCascades ==> |b.hands[j]| == 0
  {
    forall j | 0 <= j < NumCascades
      ensures |b.hands[j]| == 0
    {
      if |b.hands[j]| > 0 {
        EmptyCascadeGivesMove(b, empty, j);
      }
    }
  }

  // ---------------------------------------------------------------------
  // Free-cell hints

  /** Which hands the free-cell hint considers as destinations: the source
      scans the free cells and foundations; the evident intent, stated in
      its comment, is the cascades and foundations. */
  datatype Targets = FreeCellsAndFoundations | CascadesAndFoundations

  predicate IsTarget(which: Targets, t: nat) {
    match which
    case FreeCellsAndFoundations => FirstFreeCell <= t < NumHands
    case CascadesAndFoundations => t < NumCascades || FirstFoundation <= t < NumHands
  }

  /** The card in free cell `cell` fits the non-empty target hand `t`. */
  predicate FreeCellFits(b: Board, which: Targets, cell: nat, t: nat)
    requires |b.hands| == NumHands
  {
    && IsFreeCell(cell) && IsTarget(which, t)
    && |b.hands[cell]| > 0 && |b.hands[t]| > 0
    && CanPlaceCard(b, b.hands[cell][|b.hands[cell]| - 1], t)
  }

  /** The scan from free cell `cell` and target `t` on: free cells in
      order, and for each the targets in order. */
  predicate AtOrAfter(cell: nat, t: nat, cell': nat, t': nat) {
    cell < cell' || (cell == cell' && t <= t')
  }

  function ScanFreeCells(b: Board, which: Targets, cell: nat, t: nat): (r: Option<(nat, nat)>)
    requires |b.hands| == NumHands && FirstFreeCell <= cell <= FirstFoundation && t <= NumHands
    ensures r.Some? ==> && AtOrAfter(cell, t, r.value.0, r.value.1)
                        && FreeCellFits(b, which, r.value.0, r.value.1)
                        && forall c', t' :: AtOrAfter(cell, t, c', t') && !AtOrAfter(r.value.0, r.value.1, c', t')
                                            ==> !FreeCellFits(b, which, c', t')
    ensures r.None? ==> forall c', t' :: AtOrAfter(cell, t, c', t') ==> !FreeCellFits(b, which, c', t')
    decreases FirstFoundation - cell, NumHands - t
  {
    if cell == FirstFoundation then None
    else if t == NumHands then ScanFreeCells(b, which, cell + 1, 0)
    else if FreeCellFits(b, which, cell, t) then Some((cell, t))
    else ScanFreeCells(b, which, cell, t + 1)
  }

  /** The free-cell hint exactly as the source scans it: destinations are
      the free cells and foundations. */
  function HintStep1AsWritten(b: Board): (r: Option<(nat, nat)>)
    requires |b.hands| == NumHands
    ensures r.Some? <==> exists c, t :: FreeCellFits(b, FreeCellsAndFoundations, c, t)
    ensures r.Some? ==> FreeCellFits(b, FreeCellsAndFoundations, r.value.0, r.value.1)
    ensures r.Some? ==> forall c', t' :: !AtOrAfter(r.value.0, r.value.1, c', t') ==> !FreeCellFits(b, FreeCellsAndFoundations, c', t')
  {
    var r := ScanFreeCells(b, FreeCellsAndFoundations, FirstFreeCell, 0);
    assert forall c, t :: FreeCellFits(b, FreeCellsAndFoundations, c, t) ==> AtOrAfter(FirstFreeCell, 0, c, t);
    r
  }

  /** The free-cell hint with the destinations the source intends: the
      cascades and foundations. */
  function HintStep1(b: Board): (r: Option<(nat, nat)>)
    requires |b.hands| == NumHands
    ensures r.Some? <==> exists c, t :: FreeCellFits(b, CascadesAndFoundations, c, t)
    ensures r.Some? ==> FreeCellFits(b, CascadesAndFoundations, r.value.0, r.value.1)
    ensures r.Some? ==> forall c', t' :: !AtOrAfter(r.value.0, r.value.1, c', t') ==> !FreeCellFits(b, CascadesAndFoundations, c', t')
  {
    var r := ScanFreeCells(b, CascadesAndFoundations, FirstFreeCell, 0);
    assert forall c, t :: FreeCellFits(b, CascadesAndFoundations, c, t) ==> AtOrAfter(FirstFreeCell, 0, c, t);
    r
  }

  /** As written, the free-cell hint can only ever suggest a foundation: a
      non-empty free cell accepts nothing. */
  lemma AsWrittenOnlyFoundations(b: Board)
    requires |b.hands| == NumHands
    ensures forall c, t :: FreeCellFits(b, FreeCellsAndFoundations, c, t) ==> IsFoundation(t)
  {
  }

  /** The table that shows it: a black six on the first cascade and the
      red five in a free cell, with no other move anywhere. */
  function ShowsMissedHint(): (b: Board)
    ensures Inv(b)
  {
    var cascades := [[Card(6, 4, true)], [Card(13, 3, true)], [Card(13, 2, true)], [Card(12, 3, true)],
                     [Card(12, 2, true)], [Card(11, 3, true)], [Card(11, 2, true)], [Card(9, 3, true)]];
    var cells := [[Card(5, 3, true)], [Card(2, 1, true)], [Card(2, 2, true)], [Card(2, 4, true)]];
    var hands := cascades + cells + [[], [], [], []];
    assert forall h :: 0 <= h < FirstFoundation ==> |hands[h]| == 1 && ValidCard(hands[h][0]);
    assert forall h :: FirstFoundation <= h < NumHands ==> hands[h] == [];
    Board(hands, 0, 0)
  }

  /** On that table the red five fits the black six, yet the scan as
      written finds nothing. */
  lemma MissedHint()
    ensures HintStep1AsWritten(ShowsMissedHint()).None?
    ensures FreeCellFits(ShowsMissedHint(), CascadesAndFoundations, FirstFreeCell, 0)
    ensures HintStep1(ShowsMissedHint()) == Some((FirstFreeCell, 0))
  {
    var b := ShowsMissedHint();
    assert b.hands[FirstFreeCell] == [Card(5, 3, true)];
    assert b.hands[0] == [Card(6, 4, true)];
    assert forall t :: FirstFoundation <= t < NumHands ==> b.hands[t] == [];
  }

  /** Nor is there any move between cascades on that table, and no free
      cell is empty: with the scan as written, the hint reports that no
      moves remain although the five can go on the six. */
  lemma MissedHintNoOtherMove()
    ensures |AllCascadeMoves(ShowsMissedHint())| == 0
    ensures LastResort(ShowsMissedHint()) == NoMoreMoves
  {
    var b := ShowsMissedHint();
    assert forall h :: 0 <= h < NumCascades ==> |b.hands[h]| == 1;
    SingleCardsNoMove(b);
  }

  /** A one-card hand has exactly one movable: that card. */
  lemma OneCardMovables(cards: seq<Card>, source: nat)
    requires |cards| == 1
    ensures GetAllMovables(cards, source) == [Single(cards[0])]
  {
  }

  /** When every cascade holds one card and no such card stacks on
      another, no move between cascades exists. */
  lemma SingleCardsNoMove(b: Board)
    requires |b.hands| == NumHands
    requires forall h :: 0 <= h < NumCascades ==> |b.hands[h]| == 1
    requires forall g, h :: 0 <= g < NumCascades && 0 <= h < NumCascades ==>
               !CanPlaceOnCascade(b.hands[g][0], b.hands[h][0])
    ensures |AllCascadeMoves(b)| == 0
  {
    var ms := AllCascadeMoves(b);
    forall mv: Move
      ensures mv !in ms
    {
      NotCascadeMove(b, mv);
    }
    NothingInEmpty(ms);
  }

  /** On such a table no single move is a cascade move. */
  lemma NotCascadeMove(b: Board, mv: Move)
    requires |b.hands| == NumHands
    requires forall h :: 0 <= h < NumCascades ==> |b.hands[h]| == 1
    requires forall g, h :: 0 <= g < NumCascades && 0 <= h < NumCascades ==>
               !CanPlaceOnCascade(b.hands[g][0], b.hands[h][0])
    ensures !IsCascadeMove(b, mv)
  {
    if IsCascade(mv.from) && IsCascade(mv.to) {
      var c := b.hands[mv.from][0];
      OneCardMovables(b.hands[mv.from], mv.from);
      if mv.moved == Single(c) {
        assert !CanPlaceCard(b, c, mv.to) by {
          assert b.hands[mv.to][|b.hands[mv.to]| - 1] == b.hands[mv.to][0];
        }
      }
    }
  }

  lemma NothingInEmpty(ms: seq<Move>)
    requires forall mv :: mv !in ms
    ensures |ms| == 0
  {
    if |ms| > 0 {
      FirstIsMember(ms);
    }
  }

  lemma FirstIsMember(ms: seq<Move>)
    requires |ms| > 0
    ensures ms[0] in ms
  {
  }

  // ---------------------------------------------------------------------
  // The last resort: a free cell for the shortest cascade

  /** The first cascade with the fewest cards. */
  function LeastCascade(b: Board, i: nat): (r: nat)
    requires |b.hands| == NumHands && i < NumCascades
    ensures r <= i
    ensures forall j :: 0 <= j <= i ==> |b.hands[r]| <= |b.hands[j]|
    ensures forall j :: 0 <= j < r ==> |b.hands[r]| < |b.hands[j]|
  {
    if i == 0 then 0
    else
      var r := LeastCascade(b, i - 1);
      if |b.hands[i]| < |b.hands[r]| then i else r
  }

  /** The first empty free cell. */
  function FirstEmptyFreeCell(b: Board, i: nat): (r: Option<nat>)
    requires |b.hands| == NumHands && FirstFreeCell <= i <= FirstFoundation
    ensures r.Some? ==> i <= r.value < FirstFoundation && |b.hands[r.value]| == 0
                        && forall j :: i <= j < r.value ==> |b.hands[j]| > 0
    ensures r.None? ==> forall j :: i <= j < FirstFoundation ==> |b.hands[j]| > 0
    decreases FirstFoundation - i
  {
    if i == FirstFoundation then None
    else if |b.hands[i]| == 0 then Some(i)
    else FirstEmptyFreeCell(b, i + 1)
  }

  // ---------------------------------------------------------------------
  // The hint

  datatype Hint =
    | FreeCellHint(cell: nat, target: nat)
    | CascadeHint(move: Move)
    | ToFreeCell(cascade: nat, cell: nat)
    | EmptyCascadeFault  // the source asks an empty cascade for its top card
    | NoMoreMoves
    | NoHint             // an empty-free-cell count with no empty free cell

  /** The last resort, reached when no free-cell card fits and no move
      between cascades exists: with an empty free cell counted, point the
      top card of the shortest cascade at the first empty free cell;
      otherwise report that no moves remain. */
  function LastResort(b: Board): (r: Hint)
    requires |b.hands| == NumHands
    ensures r.ToFreeCell? ==> && IsCascade(r.cascade) && IsFreeCell(r.cell)
                              && |b.hands[r.cascade]| > 0 && |b.hands[r.cell]| == 0
                              && forall j :: 0 <= j < NumCascades ==> |b.hands[r.cascade]| <= |b.hands[j]|
    ensures r.ToFreeCell? ==> && (forall j :: 0 <= j < r.cascade ==> |b.hands[r.cascade]| < |b.hands[j]|)
                              && (forall j :: FirstFreeCell <= j < r.cell ==> |b.hands[j]| > 0)
    ensures r == NoMoreMoves <==> b.emptyFreeCells <= 0
    ensures r.EmptyCascadeFault? ==> exists j :: 0 <= j < NumCascades && |b.hands[j]| == 0
    ensures r.FreeCellHint? == r.CascadeHint? == false
    ensures Inv(b) ==> r != NoHint
  {
    if b.emptyFreeCells > 0 then
      var least := LeastCascade(b, NumCascades - 1);
      var cell := FirstEmptyFreeCell(b, FirstFreeCell);
      if cell.None? then NoHint
      else if |b.hands[least]| == 0 then EmptyCascadeFault
      else ToFreeCell(least, cell.value)
    else NoMoreMoves
  }

  /** The free-cell hint with either choice of destinations: as the source
      scans them, or as it intends. */
  function HintStep(b: Board, which: Targets): (r: Option<(nat, nat)>)
    requires |b.hands| == NumHands
    ensures r.Some? <==> exists c, t :: FreeCellFits(b, which, c, t)
    ensures r.Some? ==> FreeCellFits(b, which, r.value.0, r.value.1)
    ensures r.Some? ==> forall c', t' :: !AtOrAfter(r.value.0, r.value.1, c', t') ==> !FreeCellFits(b, which, c', t')
  {
    match which
    case FreeCellsAndFoundations => HintStep1AsWritten(b)
    case CascadesAndFoundations => HintStep1(b)
  }

  /** `showHint`. With `FreeCellsAndFoundations` the free-cell step is the
      one the source runs; with `CascadesAndFoundations` it is the one its
      comment describes. The random pick among the cascade moves may be any
      of them. */
  method ShowHint(b: Board, which: Targets) returns (r: Hint)
    requires |b.hands| == NumHands
    ensures r.FreeCellHint? <==> HintStep(b, which).Some?
    ensures r.FreeCellHint? ==> FreeCellFits(b, which, r.cell, r.target)
    ensures r.FreeCellHint? ==> HintStep(b, which) == Some((r.cell, r.target))
    ensures r.CascadeHint? ==> HintStep(b, which).None? && IsCascadeMove(b, r.move)
    ensures HintStep(b, which).None? && |AllCascadeMoves(b)| > 0 ==> r.CascadeHint?
    ensures HintStep(b, which).None? && |AllCascadeMoves(b)| == 0 ==> r == LastResort(b)
    ensures r == EmptyCascadeFault ==> forall j :: 0 <= j < NumCascades ==> |b.hands[j]| == 0
    ensures Inv(b) ==> r != NoHint
  {
    var step1 := HintStep(b, which);
    if step1.Some? {
      return FreeCellHint(step1.value.0, step1.value.1);
    }
    var moves := AllCascadeMoves(b);
    if |moves| > 0 {
      var pick :| 0 <= pick < |moves|;
      return CascadeHint(moves[pick]);
    }
    r := LastResort(b);
    if r == EmptyCascadeFault {
      var j :| 0 <= j < NumCascades && |b.hands[j]| == 0;
      NoMoveAllEmpty(b, j);
    }
  }

  /** The whole hint on the table of `ShowsMissedHint`: as written it
      announces that no moves remain; as intended it suggests the five of
      hearts onto the six of spades. */
  method MissedHintShown() returns (asWritten: Hint, intended: Hint)
    ensures asWritten == NoMoreMoves
    ensures intended == FreeCellHint(FirstFreeCell, 0)
  {
    var b := ShowsMissedHint();
    MissedHint();
    MissedHintNoOtherMove();
    assert HintStep(b, FreeCellsAndFoundations).None?;
    assert HintStep(b, CascadesAndFoundations) == Some((FirstFreeCell, 0));
    asWritten := ShowHint(b, FreeCellsAndFoundations);
    intended := ShowHint(b, CascadesAndFoundations);
  }
}
