/** The rule-level state of the game panel: the table, the move log, the
    item being carried (if any), the autocomplete switch, the deck and the
    win/loss record; and the transitions the player drives: a new game,
    pressing and releasing the mouse, undo, and ending a game. Painting,
    animation, hit-testing geometry and file I/O are not modelled: the hand
    and card under the cursor, and the hands a dropped item touches, are
    parameters. */
module Panel {
  import opened Cards
  import opened Options
  import opened Board
  import opened Movables
  import opened Moves
  import AutoComplete
  import Decks
  import Stats

  /** The carried item and the hand it was lifted from. */
  datatype Selection = Selection(item: Movable, source: nat)

  datatype Game = Game(
    board: Board,
    log: seq<Move>,
    selection: Option<Selection>,
    autoComplete: bool,
    deck: Decks.Deck,
    stats: Stats.Statistics)

  /** The state the transitions keep. With nothing carried the table is
      valid and the log undoes back through valid tables; while an item is
      carried the table without it is valid, and putting it back where it
      came from gives such a table. */
  predicate GameInv(g: Game) {
    && |g.board.hands| == NumHands
    && Stats.Valid(g.stats)
    && Decks.Valid(g.deck) && Decks.AllValid(g.deck.cards)
    && match g.selection
       case None => Replayable(g.board, g.log)
       case Some(s) =>
         && Inv(g.board) && s.source < NumHands
         && WellFormed(s.item) && ValidCards(CardsOf(s.item))
         && (s.item.Run? ==> s.item.source == s.source && IsCascade(s.source))
         && Replayable(PlaceOn(g.board, s.item, s.source), g.log)
  }

  // ---------------------------------------------------------------------
  // Queries

  /** Foundations `f`, ..., 15 hold at least a full suit each. */
  function FoundationsFull(hands: seq<seq<Card>>, f: nat): (r: bool)
    requires f <= NumHands == |hands|
    ensures r <==> forall g :: f <= g < NumHands ==> |hands[g]| >= FullFoundation
    decreases NumHands - f
  {
    f == NumHands || (|hands[f]| >= FullFoundation && FoundationsFull(hands, f + 1))
  }

  /** `checkForWinner`: every foundation holds at least 13 cards. */
  function CheckForWinner(b: Board): (r: bool)
    requires |b.hands| == NumHands
    ensures r <==> forall f :: FirstFoundation <= f < NumHands ==> |b.hands[f]| >= FullFoundation
  {
    FoundationsFull(b.hands, FirstFoundation)
  }

  /** On a valid table a win means each foundation is a complete suit, ace
      to king. */
  lemma WinnerComplete(b: Board)
    requires Inv(b) && CheckForWinner(b)
    ensures forall f :: FirstFoundation <= f < NumHands ==> |b.hands[f]| == FullFoundation
    ensures forall f, k :: FirstFoundation <= f < NumHands && 0 <= k < FullFoundation ==>
              b.hands[f][k].rank == k + 1 && b.hands[f][k].suit == b.hands[f][0].suit
  {
    InvBounds(b);
  }

  /** Some hand `h`, ..., 15 holds a card. */
  function AnyCards(hands: seq<seq<Card>>, h: nat): (r: bool)
    requires h <= NumHands == |hands|
    ensures r <==> exists g :: h <= g < NumHands && |hands[g]| > 0
    decreases NumHands - h
  {
    h < NumHands && (|hands[h]| > 0 || AnyCards(hands, h + 1))
  }

  /** `canShowHint`: the game is not won and some card is on the table. */
  function CanShowHint(b: Board): (r: bool)
    requires |b.hands| == NumHands
    ensures r <==> !CheckForWinner(b) && exists g :: 0 <= g < NumHands && |b.hands[g]| > 0
  {
    !CheckForWinner(b) && AnyCards(b.hands, 0)
  }

  /** `canUndo`: the game is not won and the log is not empty. */
  function CanUndo(g: Game): (r: bool)
    requires |g.board.hands| == NumHands
    ensures r <==> |g.log| > 0 && exists f :: FirstFoundation <= f < NumHands && |g.board.hands[f]| < FullFoundation
    ensures CheckForWinner(g.board) ==> !r
  {
    !CheckForWinner(g.board) && |g.log| > 0
  }

  // ---------------------------------------------------------------------
  // Ending a game and undo

  /** `endGame`: with any card on the table, records a win (with the length
      of the log) if the game is won and a loss otherwise; with an empty
      table, records nothing. */
  function EndGame(g: Game): (r: Game)
    requires |g.board.hands| == NumHands
    ensures r == g.(stats := r.stats)
    ensures Stats.Valid(g.stats) ==> Stats.Valid(r.stats)
    ensures AnyCards(g.board.hands, 0) ==> r.stats.games == g.stats.games + 1
    ensures AnyCards(g.board.hands, 0) ==>
              (r.stats.wins == g.stats.wins + 1 <==> CheckForWinner(g.board))
    ensures AnyCards(g.board.hands, 0) && CheckForWinner(g.board) ==> r.stats.leastMoves <= |g.log|
    ensures AnyCards(g.board.hands, 0) && !CheckForWinner(g.board) ==> r.stats.currentStreak == 0
    ensures AnyCards(g.board.hands, 0) && CheckForWinner(g.board) ==> r.stats == Stats.Win(g.stats, |g.log|)
    ensures AnyCards(g.board.hands, 0) && !CheckForWinner(g.board) ==> r.stats == Stats.Lose(g.stats)
    ensures !AnyCards(g.board.hands, 0) ==> r == g
  {
    if AnyCards(g.board.hands, 0) then
      g.(stats := if CheckForWinner(g.board) then Stats.Win(g.stats, |g.log|) else Stats.Lose(g.stats))
    else g
  }

  /** The game with the carried item, if any, put back on the hand it was
      lifted from and nothing carried: what a release that no hand accepts
      leaves behind. */
  function PutBack(g: Game): (r: Game)
    requires GameInv(g)
    ensures GameInv(r) && r.selection.None?
    ensures r.log == g.log && r.stats == g.stats && r.deck == g.deck && r.autoComplete == g.autoComplete
    ensures g.selection.None? ==> r == g
    ensures g.selection.Some? ==> r.board == PlaceOn(g.board, g.selection.value.item, g.selection.value.source)
  {
    match g.selection
    case None => g
    case Some(s) => g.(board := PlaceOn(g.board, s.item, s.source), selection := None)
  }

  /** Putting back what a press lifted gives back the game before the
      press. */
  lemma PressThenPutBack(g: Game, spot: Option<Spot>)
    requires GameInv(g) && g.selection.None? && SpotOk(g.board, spot)
    ensures PutBack(MousePressed(g, spot)) == g
  {
  }

  /** `undo`, with a carried item first put back where it came from: when
      undo is then allowed, the last move is taken off the log and undone
      on the table. Without the put-back, as the source does it, see
      `UndoAsWritten`. */
  function Undo(g: Game): (r: Game)
    requires GameInv(g)
    ensures GameInv(r) && r.selection.None?
    ensures r.stats == g.stats && r.deck == g.deck && r.autoComplete == g.autoComplete
    ensures var t := PutBack(g);
            && (!CanUndo(t) ==> r == t)
            && (CanUndo(t) ==> && r.log == g.log[..|g.log| - 1]
                               && UndoDefined(t.board, g.log[|g.log| - 1])
                               && r.board == Moves.Undo(t.board, g.log[|g.log| - 1]))
  {
    var t := PutBack(g);
    if CanUndo(t) then
      var last := t.log[|t.log| - 1];
      t.(board := Moves.Undo(t.board, last), log := t.log[..|t.log| - 1])
    else t
  }

  /** `undo` as the source writes it. The menu item has the Ctrl+Z
      shortcut, so it also runs while an item is carried: the last move is
      then undone on the table as it stands, without the carried cards,
      and the item stays carried. None stands for the exception the source
      throws when the hand the move went to holds too few cards. */
  function UndoAsWritten(g: Game): (r: Option<Game>)
    requires |g.board.hands| == NumHands
    ensures !CanUndo(g) ==> r == Some(g)
    ensures CanUndo(g) ==> (r.Some? <==> UndoDefined(g.board, g.log[|g.log| - 1]))
    ensures r.Some? ==> && r.value.selection == g.selection && r.value.stats == g.stats
                        && r.value.deck == g.deck && r.value.autoComplete == g.autoComplete
    ensures r.Some? && CanUndo(g) ==> && r.value.log == g.log[..|g.log| - 1]
                                      && r.value.board == Moves.Undo(g.board, g.log[|g.log| - 1])
  {
    if !CanUndo(g) then Some(g)
    else
      var last := g.log[|g.log| - 1];
      if UndoDefined(g.board, last) then
        Some(g.(board := Moves.Undo(g.board, last), log := g.log[..|g.log| - 1]))
      else None
  }

  /** Between mouse gestures the source's undo and `Undo` agree. */
  lemma UndoAsWrittenAgrees(g: Game)
    requires GameInv(g) && g.selection.None?
    ensures UndoAsWritten(g) == Some(Undo(g))
  {
  }

  /** While an item is carried, `Undo` is the same as releasing it over no
      hand that accepts it and then undoing. */
  lemma UndoWhileCarrying(g: Game)
    requires GameInv(g) && g.selection.Some?
    ensures Undo(g) == Undo(MouseReleased(g, {}))
  {
    var s := g.selection.value;
    assert FirstAccepting(g.board, s.item, {}, 0).None?;
    ReleaseCases(g, {});
    var m := MouseReleased(g, {});
    assert m == PutBack(g);
    assert PutBack(m) == m;
  }

  /** Sixteen hands, all empty except the first and the fourth cascade. */
  function TwoCascades(first: seq<Card>, fourth: seq<Card>): (hs: seq<seq<Card>>)
    ensures |hs| == NumHands && hs[0] == first && hs[3] == fourth
    ensures forall h :: 0 <= h < NumHands && h != 0 && h != 3 ==> hs[h] == []
  {
    [first, [], [], fourth, [], [], [], [], [], [], [], [], [], [], [], []]
  }

  /** The seven of spades and the eight of hearts, face up. */
  const SevenOfSpades := Card(7, 4, true)
  const EightOfHearts := Card(8, 3, true)

  /** The seven of spades has been moved from the first cascade onto the
      eight of hearts, alone on the fourth, and the player has pressed on
      it again and holds it. The deck has been dealt out. */
  function CarryingAfterMove(): (g: Game)
    ensures g.selection == Some(Selection(Single(SevenOfSpades), 3))
    ensures g.board == Board(TwoCascades([], [EightOfHearts]), 7, NumFreeCells)
    ensures g.log == [Move(0, 3, Single(SevenOfSpades))]
  {
    Game(Board(TwoCascades([], [EightOfHearts]), 7, NumFreeCells), [Move(0, 3, Single(SevenOfSpades))],
         Some(Selection(Single(SevenOfSpades), 3)), false, Decks.Deck([], -1), Stats.Fresh())
  }

  /** That game is one the transitions keep valid. */
  lemma CarryingAfterMoveValid()
    ensures GameInv(CarryingAfterMove())
  {
    var before := Board(TwoCascades([SevenOfSpades], [EightOfHearts]), 6, NumFreeCells);
    var after := Board(TwoCascades([], [EightOfHearts, SevenOfSpades]), 7, NumFreeCells);
    var carried := Board(TwoCascades([], [EightOfHearts]), 7, NumFreeCells);
    CarryingTables(before, after, carried, Move(0, 3, Single(SevenOfSpades)));
  }

  /** The three tables of that game are valid, placing the seven back on the
      fourth cascade gives the table after the move, and undoing the move
      there gives the table before it. */
  lemma CarryingTables(before: Board, after: Board, carried: Board, mv: Move)
    requires before == Board(TwoCascades([SevenOfSpades], [EightOfHearts]), 6, NumFreeCells)
    requires after == Board(TwoCascades([], [EightOfHearts, SevenOfSpades]), 7, NumFreeCells)
    requires carried == Board(TwoCascades([], [EightOfHearts]), 7, NumFreeCells)
    requires mv == Move(0, 3, Single(SevenOfSpades))
    ensures Inv(before) && Inv(after) && Inv(carried)
    ensures PlaceOn(carried, Single(SevenOfSpades), 3) == after
    ensures UndoDefined(after, mv) && Moves.Undo(after, mv) == before
    ensures Replayable(after, [mv])
  {
    TwoCascadesInv([SevenOfSpades], [EightOfHearts], before);
    TwoCascadesInv([], [EightOfHearts, SevenOfSpades], after);
    TwoCascadesInv([], [EightOfHearts], carried);
    CarryingPlaced(carried, after);
    CarryingUndone(before, after, carried, mv);
    ReplayableOne(after, mv, before);
  }

  /** A one-entry log is undoable from a valid table when undoing its move
      there is defined and gives a valid table. */
  lemma ReplayableOne(b: Board, mv: Move, b0: Board)
    requires Inv(b) && Inv(b0) && UndoDefined(b, mv) && Moves.Undo(b, mv) == b0
    ensures Replayable(b, [mv])
  {
    assert [mv][..0] == [];
  }

  lemma CarryingPlaced(carried: Board, after: Board)
    requires after == Board(TwoCascades([], [EightOfHearts, SevenOfSpades]), 7, NumFreeCells)
    requires carried == Board(TwoCascades([], [EightOfHearts]), 7, NumFreeCells)
    ensures PlaceOn(carried, Single(SevenOfSpades), 3) == after
  {
    TwoCascadesUpdate([], [EightOfHearts], [], [EightOfHearts, SevenOfSpades]);
    assert [EightOfHearts] + [SevenOfSpades] == [EightOfHearts, SevenOfSpades];
  }

  lemma CarryingUndone(before: Board, after: Board, carried: Board, mv: Move)
    requires before == Board(TwoCascades([SevenOfSpades], [EightOfHearts]), 6, NumFreeCells)
    requires after == Board(TwoCascades([], [EightOfHearts, SevenOfSpades]), 7, NumFreeCells)
    requires carried == Board(TwoCascades([], [EightOfHearts]), 7, NumFreeCells)
    requires mv == Move(0, 3, Single(SevenOfSpades))
    ensures UndoDefined(after, mv) && Moves.Undo(after, mv) == before
  {
    var b1 := RemoveTop(after, 3).1;
    TwoCascadesUpdate([], [EightOfHearts, SevenOfSpades], [], [EightOfHearts]);
    assert [EightOfHearts, SevenOfSpades][..1] == [EightOfHearts];
    assert b1 == carried;
    TwoCascadesUpdate([], [EightOfHearts], [SevenOfSpades], [EightOfHearts]);
    assert [] + [SevenOfSpades] == [SevenOfSpades];
    assert AddCard(carried, 0, SevenOfSpades) == before;
  }

  /** Replacing the first or the fourth cascade of such a table. */
  lemma TwoCascadesUpdate(first: seq<Card>, fourth: seq<Card>, first': seq<Card>, fourth': seq<Card>)
    ensures TwoCascades(first, fourth)[0 := first'] == TwoCascades(first', fourth)
    ensures TwoCascades(first, fourth)[3 := fourth'] == TwoCascades(first, fourth')
  {
  }

  /** A table with cards on the first and fourth cascades only, with the
      counters that count its empty hands, is valid. */
  lemma TwoCascadesInv(first: seq<Card>, fourth: seq<Card>, b: Board)
    requires ValidCards(first) && ValidCards(fourth)
    requires b == Board(TwoCascades(first, fourth),
                        6 + (if |first| == 0 then 1 else 0) + (if |fourth| == 0 then 1 else 0), NumFreeCells)
    ensures Inv(b)
  {
    var hs := b.hands;
    assert CountEmpty(hs, 4, FirstFreeCell) == 4;
    assert CountEmpty(hs, 3, FirstFreeCell) == 4 + (if |fourth| == 0 then 1 else 0);
    assert CountEmpty(hs, 1, FirstFreeCell) == 6 + (if |fourth| == 0 then 1 else 0);
    assert CountEmpty(hs, FirstFreeCell, FirstFoundation) == NumFreeCells;
  }

  /** Undo during the drag, as written: the move of the seven is undone on
      the table without it, so the eight of hearts comes off the fourth
      cascade and a seven goes back on the first while the carried seven
      stays in hand. Releasing it over no accepting hand puts it back on
      the fourth cascade: two sevens of spades on the table and the eight of
      hearts gone. */
  lemma UndoDuringDragLosesCard()
    ensures var g := CarryingAfterMove();
            var u := UndoAsWritten(g);
            && u.Some? && u.value.selection == g.selection && u.value.log == []
            && u.value.board.hands == TwoCascades([SevenOfSpades], [])
            && PlaceOn(u.value.board, Single(SevenOfSpades), 3).hands == TwoCascades([SevenOfSpades], [SevenOfSpades])
  {
    var g := CarryingAfterMove();
    assert |g.board.hands[FirstFoundation]| < FullFoundation;
    assert CanUndo(g) && g.log[..0] == [];
    UndoneWithoutCarried(g.board, g.log[0]);
  }

  /** On the same game `Undo` gives back the table before the move. */
  lemma UndoDuringDragCorrected()
    ensures GameInv(CarryingAfterMove())
    ensures Undo(CarryingAfterMove()).board.hands == TwoCascades([SevenOfSpades], [EightOfHearts])
  {
    CarryingAfterMoveValid();
    var g := CarryingAfterMove();
    var before := Board(TwoCascades([SevenOfSpades], [EightOfHearts]), 6, NumFreeCells);
    var after := Board(TwoCascades([], [EightOfHearts, SevenOfSpades]), 7, NumFreeCells);
    CarryingPlaced(g.board, after);
    CarryingUndone(before, after, g.board, g.log[0]);
    assert |after.hands[FirstFoundation]| < FullFoundation;
    UndoFromTable(g, after, before);
  }

  /** When putting back the carried item gives the table `t`, and undo is
      allowed there, undo gives the table that undoing the last move on `t`
      gives. */
  lemma UndoFromTable(g: Game, t: Board, b0: Board)
    requires GameInv(g) && g.selection.Some? && |g.log| > 0
    requires PlaceOn(g.board, g.selection.value.item, g.selection.value.source) == t
    requires |t.hands[FirstFoundation]| < FullFoundation
    requires UndoDefined(t, g.log[|g.log| - 1]) && Moves.Undo(t, g.log[|g.log| - 1]) == b0
    ensures Undo(g).board == b0
  {
    assert CanUndo(PutBack(g));
  }

  /** Undoing the move of the seven on the table that lacks it takes the
      eight off the fourth cascade. */
  lemma UndoneWithoutCarried(carried: Board, mv: Move)
    requires carried == Board(TwoCascades([], [EightOfHearts]), 7, NumFreeCells)
    requires mv == Move(0, 3, Single(SevenOfSpades))
    ensures UndoDefined(carried, mv)
    ensures Moves.Undo(carried, mv).hands == TwoCascades([SevenOfSpades], [])
    ensures PlaceOn(Moves.Undo(carried, mv), Single(SevenOfSpades), 3).hands
         == TwoCascades([SevenOfSpades], [SevenOfSpades])
  {
    TwoCascadesUpdate([], [EightOfHearts], [], []);
    assert [EightOfHearts][..0] == [];
    TwoCascadesUpdate([], [], [SevenOfSpades], []);
    assert [] + [SevenOfSpades] == [SevenOfSpades];
    TwoCascadesUpdate([SevenOfSpades], [], [SevenOfSpades], [SevenOfSpades]);
  }


  // ---------------------------------------------------------------------
  // Pressing the mouse

  /** What lies under the cursor: a hand and the index of the card hit
      (the topmost card whose area holds the point). */
  datatype Spot = Spot(hand: nat, index: nat)

  predicate SpotOk(b: Board, spot: Option<Spot>)
    requires |b.hands| == NumHands
  {
    spot.Some? ==> spot.value.hand < NumHands && PointOk(b, spot.value.hand, spot.value.index)
  }

  /** `mousePressed`: ignored while an item is carried; otherwise the hand
      under the cursor, if it lets its cards be lifted there, gives up the
      item. An empty cascade gives nothing. */
  function MousePressed(g: Game, spot: Option<Spot>): (r: Game)
    requires GameInv(g) && SpotOk(g.board, spot)
    ensures GameInv(r)
    ensures r.log == g.log && r.stats == g.stats && r.deck == g.deck && r.autoComplete == g.autoComplete
    ensures g.selection.Some? || spot.None? ==> r == g
    ensures r.selection.None? ==> r.board == g.board
    ensures r.selection.Some? && g.selection.None? ==>
              && spot.Some? && r.selection.value.source == spot.value.hand
              && CanPickUp(g.board, spot.value.hand, spot.value.index)
              && r.board.hands[spot.value.hand] + CardsOf(r.selection.value.item) == g.board.hands[spot.value.hand]
              && PlaceOn(r.board, r.selection.value.item, r.selection.value.source) == g.board
    ensures g.selection.None? && spot.Some? && |g.board.hands[spot.value.hand]| > 0
            && CanPickUp(g.board, spot.value.hand, spot.value.index) ==>
              && r.selection.Some? && r.selection.value.source == spot.value.hand
              && PickUp(g.board, spot.value.hand, spot.value.index) == (Some(r.selection.value.item), r.board)
    ensures g.selection.None? && spot.Some? && !CanPickUp(g.board, spot.value.hand, spot.value.index) ==> r == g
  {
    if g.selection.Some? || spot.None? then g
    else if !CanPickUp(g.board, spot.value.hand, spot.value.index) then g
    else Lift(g, spot.value.hand, spot.value.index)
  }

  /** The item hand `h` gives up from index `at`, lifted: carried, with the
      table left without it. An empty hand gives nothing. */
  function Lift(g: Game, h: nat, at: nat): (r: Game)
    requires GameInv(g) && g.selection.None? && h < NumHands && PointOk(g.board, h, at)
    requires CanPickUp(g.board, h, at)
    ensures GameInv(r)
    ensures r.log == g.log && r.stats == g.stats && r.deck == g.deck && r.autoComplete == g.autoComplete
    ensures r.selection.None? <==> |g.board.hands[h]| == 0
    ensures r.selection.None? ==> r == g
    ensures r.selection.Some? ==>
              && r.selection.value.source == h
              && r.board.hands[h] + CardsOf(r.selection.value.item) == g.board.hands[h]
              && PlaceOn(r.board, r.selection.value.item, h) == g.board
              && PickUp(g.board, h, at) == (Some(r.selection.value.item), r.board)
  {
    PickUpKeepsInv(g.board, h, at);
    var (item, b) := PickUp(g.board, h, at);
    if item.None? then g
    else
      PickUpRollback(g.board, h, at);
      g.(board := b, selection := Some(Selection(item.value, h)))
  }

  // ---------------------------------------------------------------------
  // Releasing the mouse

  /** The first hand, from `h` on, that the dropped item touches and that
      accepts it. */
  function FirstAccepting(b: Board, m: Movable, touched: set<nat>, h: nat): (r: Option<nat>)
    requires |b.hands| == NumHands && WellFormed(m) && h <= NumHands
    ensures r.Some? ==> h <= r.value < NumHands && r.value in touched && CanPlaceOn(b, m, r.value)
    ensures r.Some? ==> forall d :: h <= d < r.value && d in touched ==> !CanPlaceOn(b, m, d)
    ensures r.None? ==> forall d :: h <= d < NumHands && d in touched ==> !CanPlaceOn(b, m, d)
    decreases NumHands - h
  {
    if h == NumHands then None
    else if h in touched && CanPlaceOn(b, m, h) then Some(h)
    else FirstAccepting(b, m, touched, h + 1)
  }

  /** Placing the carried item on `dest`: the new table, and the log with
      the move added unless `dest` is the source. */
  function Placed(g: Game, dest: nat): (r: (Board, seq<Move>))
    requires |g.board.hands| == NumHands && g.selection.Some? && dest < NumHands
    requires WellFormed(g.selection.value.item)
    ensures |r.0.hands| == NumHands
  {
    var s := g.selection.value;
    (PlaceOn(g.board, s.item, dest),
     if dest != s.source then g.log + [Move(s.source, dest, s.item)] else g.log)
  }

  /** The game after a drop settles on the table and log `done`, with a win
      recorded if it is won. */
  function Settle(g: Game, done: (Board, seq<Move>)): (r: Game)
    requires |done.0.hands| == NumHands
    ensures r.board == done.0 && r.log == done.1 && r.selection.None?
    ensures r.deck == g.deck && r.autoComplete == g.autoComplete
  {
    var g2 := Game(done.0, done.1, None, g.autoComplete, g.deck, g.stats);
    if CheckForWinner(g2.board) then EndGame(g2) else g2
  }

  /** The drop onto an accepting hand: place the item, log the move unless
      the hand is the source, autocomplete, and record a win if the game is
      now won. */
  function Drop(g: Game, dest: nat): (r: Game)
    requires |g.board.hands| == NumHands && g.selection.Some? && dest < NumHands
    requires WellFormed(g.selection.value.item)
    ensures |r.board.hands| == NumHands && r.selection.None?
    ensures r.deck == g.deck && r.autoComplete == g.autoComplete
  {
    var placed := Placed(g, dest);
    Settle(g, AutoComplete.AutoComplete(g.autoComplete, placed.0, placed.1))
  }

  /** `mouseReleased`: with an item carried, it goes to the first touched
      hand that accepts it; if none does, it goes back where it came
      from. */
  function MouseReleased(g: Game, touched: set<nat>): (r: Game)
    requires GameInv(g)
    ensures |r.board.hands| == NumHands && r.selection.None?
    ensures r.deck == g.deck && r.autoComplete == g.autoComplete
    ensures g.selection.None? ==> r == g
  {
    match g.selection
    case None => g
    case Some(s) =>
      match FirstAccepting(g.board, s.item, touched, 0)
      case None => PutBack(g)
      case Some(dest) => Drop(g, dest)
  }

  /** An item that no touched hand accepts goes back to its source: the
      table is exactly the one before it was lifted, and nothing is
      logged or recorded. */
  lemma ReleaseRollsBack(g: Game, touched: set<nat>)
    requires GameInv(g) && g.selection.Some?
    requires FirstAccepting(g.board, g.selection.value.item, touched, 0).None?
    ensures var r := MouseReleased(g, touched);
            && r.board == PlaceOn(g.board, g.selection.value.item, g.selection.value.source)
            && Replayable(r.board, r.log)
            && r.log == g.log && r.stats == g.stats
  {
  }

  /** Settling records a win, with the final log length, exactly when the
      table is won, and changes the record in no other case. */
  lemma SettleRecords(g: Game, done: (Board, seq<Move>))
    requires |done.0.hands| == NumHands
    ensures var r := Settle(g, done);
            && r.board == done.0 && r.log == done.1 && r.selection.None?
            && r.deck == g.deck && r.autoComplete == g.autoComplete
            && (CheckForWinner(done.0) ==> r.stats == Stats.Win(g.stats, |done.1|))
            && (!CheckForWinner(done.0) ==> r.stats == g.stats)
  {
    if CheckForWinner(done.0) {
      assert |done.0.hands[FirstFoundation]| > 0;
    }
  }

  /** An accepted drop logs exactly one move when the item lands on another
      hand and none when it lands back on its source; every further entry
      is an autocompletion; a win is recorded with the final log length. */
  lemma DropLogs(g: Game, dest: nat)
    requires |g.board.hands| == NumHands && g.selection.Some? && dest < NumHands
    requires WellFormed(g.selection.value.item)
    ensures var s := g.selection.value;
            var r := Drop(g, dest);
            var n := |g.log| + (if dest != s.source then 1 else 0);
            && n <= |r.log| && r.log[..|g.log|] == g.log
            && (dest != s.source ==> r.log[|g.log|] == Move(s.source, dest, s.item))
            && (forall k :: n <= k < |r.log| ==> AutoComplete.IsPromotion(r.log[k]))
            && (CheckForWinner(r.board) ==> r.stats == Stats.Win(g.stats, |r.log|))
            && (!CheckForWinner(r.board) ==> r.stats == g.stats)
    ensures var s := g.selection.value;
            var r := Drop(g, dest);
            var placed := PlaceOn(g.board, s.item, dest);
            var n := |g.log| + (if dest != s.source then 1 else 0);
            && (!g.autoComplete ==> r.board == placed)
            && (g.autoComplete ==> AutoComplete.Settled(r.board))
            && |r.log| - n == AutoComplete.CardsInPlay(placed) - AutoComplete.CardsInPlay(r.board)
  {
    var placed := Placed(g, dest);
    var done := AutoComplete.AutoComplete(g.autoComplete, placed.0, placed.1);
    AutoComplete.AutoCompleteLog(g.autoComplete, placed.0, placed.1);
    if g.autoComplete {
      AutoComplete.AutoCompleteStops(placed.0, placed.1);
    }
    AutoComplete.AutoCompletePromotions(g.autoComplete, placed.0, placed.1);
    SettleRecords(g, done);
    LogPrefix(g.log, placed.1, done.1);
  }

  /** A log extending `mid`, which itself extends `log` by at most one
      entry, extends `log` by the same entries. */
  lemma LogPrefix(log: seq<Move>, mid: seq<Move>, full: seq<Move>)
    requires |log| <= |mid| <= |full| && mid[..|log|] == log && full[..|mid|] == mid
    ensures full[..|log|] == log
    ensures |mid| > |log| ==> full[|log|] == mid[|log|]
  {
    assert full[..|log|] == mid[..|log|];
  }

  /** The release in terms of the first accepting hand. */
  lemma ReleaseCases(g: Game, touched: set<nat>)
    requires GameInv(g) && g.selection.Some?
    ensures var s := g.selection.value;
            var acc := FirstAccepting(g.board, s.item, touched, 0);
            && (acc.None? ==> MouseReleased(g, touched) == g.(board := PlaceOn(g.board, s.item, s.source), selection := None))
            && (acc.Some? ==> MouseReleased(g, touched) == Drop(g, acc.value))
  {
  }

  /** A placement the destination accepts, logged when it changes hands,
      leaves the log replayable from the new table. */
  lemma PlacedReplayable(b: Board, log: seq<Move>, m: Movable, src: nat, dest: nat)
    requires Inv(b) && src < NumHands && dest < NumHands && WellFormed(m) && ValidCards(CardsOf(m))
    requires CanPlaceOn(b, m, dest) && Replayable(PlaceOn(b, m, src), log)
    ensures Replayable(PlaceOn(b, m, dest), if dest != src then log + [Move(src, dest, m)] else log)
  {
    PlaceOnKeepsInv(b, m, dest);
    if dest != src {
      UndoOfPlace(b, m, src, dest);
      ReplayableExtend(PlaceOn(b, m, src), log, PlaceOn(b, m, dest), Move(src, dest, m));
    }
  }

  /** Settling on a replayable table and log gives a valid game. */
  lemma SettleKeepsInv(g: Game, done: (Board, seq<Move>))
    requires |done.0.hands| == NumHands && Replayable(done.0, done.1)
    requires Stats.Valid(g.stats) && Decks.Valid(g.deck) && Decks.AllValid(g.deck.cards)
    ensures GameInv(Settle(g, done))
  {
  }

  /** An accepted drop keeps the game state valid: whatever was placed,
      logged or promoted, the log still undoes back through valid
      tables. */
  lemma DropKeepsInv(g: Game, dest: nat)
    requires GameInv(g) && g.selection.Some? && dest < NumHands
    requires CanPlaceOn(g.board, g.selection.value.item, dest)
    ensures GameInv(Drop(g, dest))
  {
    var s := g.selection.value;
    var placed := Placed(g, dest);
    PlacedReplayable(g.board, g.log, s.item, s.source, dest);
    AutoComplete.AutoCompleteKeepsReplayable(g.autoComplete, placed.0, placed.1);
    SettleKeepsInv(g, AutoComplete.AutoComplete(g.autoComplete, placed.0, placed.1));
  }

  /** Releasing keeps the game state valid. */
  lemma ReleaseKeepsInv(g: Game, touched: set<nat>)
    requires GameInv(g)
    ensures GameInv(MouseReleased(g, touched))
  {
    if g.selection.Some? {
      ReleaseCases(g, touched);
      var acc := FirstAccepting(g.board, g.selection.value.item, touched, 0);
      if acc.Some? {
        DropKeepsInv(g, acc.value);
      }
    }
  }

  /** Picking up an item and dropping it on another hand, with
      autocompletion off and the game not won, is undone by one undo: the
      table and the log are back to what they were. */
  lemma DropThenUndo(g: Game, spot: Option<Spot>, touched: set<nat>)
    requires GameInv(g) && g.selection.None? && SpotOk(g.board, spot) && !g.autoComplete
    requires MousePressed(g, spot).selection.Some?
    requires var p := MousePressed(g, spot);
             var dest := FirstAccepting(p.board, p.selection.value.item, touched, 0);
             dest.Some? && dest.value != p.selection.value.source
    requires !CheckForWinner(MouseReleased(MousePressed(g, spot), touched).board)
    ensures var r := MouseReleased(MousePressed(g, spot), touched);
            GameInv(r) && Undo(r).board == g.board && Undo(r).log == g.log
  {
    var p := MousePressed(g, spot);
    var s := p.selection.value;
    var dest := FirstAccepting(p.board, s.item, touched, 0).value;
    ReleaseKeepsInv(p, touched);
    ReleaseCases(p, touched);
    var placed := Placed(p, dest);
    SettleRecords(p, AutoComplete.AutoComplete(false, placed.0, placed.1));
    var r := MouseReleased(p, touched);
    assert r.board == PlaceOn(p.board, s.item, dest) && r.log == g.log + [Move(s.source, dest, s.item)];
    UndoLastPlace(r, p.board, g.log, s.item, s.source, dest);
  }

  /** Undoing a logged placement puts the item back on its source. */
  lemma UndoLastPlace(r: Game, b: Board, log: seq<Move>, m: Movable, src: nat, dest: nat)
    requires GameInv(r) && r.selection.None? && !CheckForWinner(r.board)
    requires src < NumHands && dest < NumHands && src != dest && WellFormed(m) && |b.hands| == NumHands
    requires r.board == PlaceOn(b, m, dest) && r.log == log + [Move(src, dest, m)]
    ensures Undo(r).board == PlaceOn(b, m, src) && Undo(r).log == log
  {
    UndoOfPlace(b, m, src, dest);
    assert r.log[..|r.log| - 1] == log;
  }

  // ---------------------------------------------------------------------
  // A new game

  /** The panel as constructed, before the first deal: sixteen empty hands
      with the open-cascade counter at its static default of 0 and the
      empty-cell counter at 4, a fresh single deck and an empty log. The
      counters only become accurate when the first new game clears every
      hand. */
  function InitialGame(autoComplete: bool, stats: Stats.Statistics): (g: Game)
    ensures |g.board.hands| == NumHands && g.selection.None? && g.log == []
    ensures forall h :: 0 <= h < NumHands ==> g.board.hands[h] == []
    ensures g.board.openCascades == 0 && CountEmpty(g.board.hands, 0, FirstFreeCell) == NumCascades
    ensures g.board.emptyFreeCells == NumFreeCells
    ensures Decks.Valid(g.deck) && Decks.AllValid(g.deck.cards) && |g.deck.cards| == 52
    ensures g.deck == Decks.NewDeck()
  {
    Decks.StandardCardsLayout();
    Game(Board(seq(NumHands, _ => []), 0, NumFreeCells), [], None, autoComplete, Decks.NewDeck(), stats)
  }

  /** `newGame`: clears every hand, shuffles the deck, deals it round-robin
      onto the cascades from the first, each card turned face up, and
      empties the log. `dealt` is the shuffled deck; its top card went
      first. */
  method NewGame(g: Game) returns (r: Game, dealt: seq<Card>)
    requires g.selection.None? && |g.board.hands| == NumHands
    requires Decks.Valid(g.deck) && Decks.AllValid(g.deck.cards) && Stats.Valid(g.stats)
    ensures GameInv(r) && r.log == [] && r.selection.None?
    ensures r.stats == g.stats && r.autoComplete == g.autoComplete
    ensures multiset(dealt) == multiset(Decks.AllFaceDown(g.deck.cards))
    ensures r.deck == Decks.Deck(dealt, -1)
    ensures DealtLayout(r.board, dealt, |dealt|)
    ensures forall j :: 0 <= j < NumCascades ==> |r.board.hands[j]| == DealtTo(|dealt|, j)
  {
    ClearAllInv(g.board);
    var d := Decks.Shuffle(g.deck);
    dealt := d.cards;
    DealStart(ClearAll(g.board, 0), d);
    DealFromDeals(ClearAll(g.board, 0), d, dealt, 0, 0);
    var (b, d') := DealFrom(ClearAll(g.board, 0), d, 0);
    LayoutSizes(b, dealt, |dealt|);
    r := Game(b, [], None, g.autoComplete, d', g.stats);
  }

  /** The first `count` cards of `cards`, taken from the top down, lie
      round-robin on the cascades: the card dealt `i`-th is at height
      `i / 8` of cascade `i % 8`, face up, and nothing else is on the
      table. Stated without division: cascade `j` holds the cards dealt
      `j`-th, `(8 + j)`-th, ..., and no later card. */
  predicate DealtLayout(b: Board, cards: seq<Card>, count: nat)
    requires |b.hands| == NumHands
  {
    && count <= |cards|
    && (forall j :: NumCascades <= j < NumHands ==> b.hands[j] == [])
    && (forall j :: 0 <= j < NumCascades ==> 8 * |b.hands[j]| + j - 8 < count <= 8 * |b.hands[j]| + j)
    && (forall j, k :: 0 <= j < NumCascades && 0 <= k < |b.hands[j]| ==>
          b.hands[j][k] == FaceUp(cards[|cards| - 1 - (8 * k + j)]))
  }

  /** The state of the deal after `count` cards: the deck is the same
      array with `count` fewer cards left, cascade `idx` is the one whose
      turn it is, and the table is valid and holds exactly those cards in
      round-robin layout. */
  predicate Dealing(b: Board, d: Decks.Deck, cards: seq<Card>, count: nat, idx: nat) {
    && Decks.Valid(d) && d.cards == cards && count == |cards| - 1 - d.top
    && |b.hands| == NumHands && idx < NumCascades
    && Inv(b) && DealtLayout(b, cards, count) && count == 8 * |b.hands[idx]| + idx
  }

  /** The deal loop of `newGame`, from cascade `idx` on: while the deck
      has cards, the next one goes face up onto the next cascade in turn,
      wrapping after the eighth. */
  function DealFrom(b: Board, d: Decks.Deck, idx: nat): (r: (Board, Decks.Deck))
    requires |b.hands| == NumHands && Decks.Valid(d) && idx < NumCascades
    ensures |r.0.hands| == NumHands
    decreases d.top + 1
  {
    if Decks.CardsLeft(d) > 0 then
      var (c, d1) := Decks.DealCard(d);
      DealFrom(AddCard(b, idx, FaceUp(c.value)), d1, NextCascade(idx))
    else (b, d)
  }

  /** The cascade after `idx` in dealing order, wrapping after the
      eighth. */
  function NextCascade(idx: nat): nat {
    if idx + 1 == NumCascades then 0 else idx + 1
  }

  /** Dealing from a consistent state deals the whole deck: the table is
      valid and holds every card in round-robin layout, and the deck is
      empty. */
  lemma {:induction false} DealFromDeals(b: Board, d: Decks.Deck, cards: seq<Card>, count: nat, idx: nat)
    requires Dealing(b, d, cards, count, idx) && Decks.AllValid(cards)
    ensures var r := DealFrom(b, d, idx);
            Inv(r.0) && DealtLayout(r.0, cards, |cards|) && r.1 == Decks.Deck(cards, -1)
    decreases d.top + 1
  {
    if Decks.CardsLeft(d) > 0 {
      DealOne(b, d, cards, count, idx);
      var card := FaceUp(Decks.DealCard(d).0.value);
      DealFromDeals(AddCard(b, idx, card), Decks.DealCard(d).1, cards, count + 1, NextCascade(idx));
    }
  }

  /** Before the first card, the layout is the empty table. */
  lemma DealStart(b: Board, d: Decks.Deck)
    requires Inv(b) && forall j :: 0 <= j < NumHands ==> b.hands[j] == []
    requires Decks.Valid(d) && d.top == |d.cards| - 1
    ensures Dealing(b, d, d.cards, 0, 0)
  {
  }

  /** Dealing the top card face up onto the cascade whose turn it is keeps
      the deal state. */
  lemma DealOne(b: Board, d: Decks.Deck, cards: seq<Card>, count: nat, idx: nat)
    requires Dealing(b, d, cards, count, idx) && Decks.CardsLeft(d) > 0 && Decks.AllValid(cards)
    ensures var card := FaceUp(Decks.DealCard(d).0.value);
            Dealing(AddCard(b, idx, card), Decks.DealCard(d).1, cards, count + 1, NextCascade(idx))
  {
    var card := FaceUp(d.cards[d.top]);
    DealKeepsInv(b, idx, card);
    DealStep(b, cards, count, idx, card);
  }

  /** Dealing the next card onto the cascade whose turn it is extends the
      layout by one card, and passes the turn to the next cascade. */
  lemma DealStep(b: Board, cards: seq<Card>, count: nat, idx: nat, card: Card)
    requires |b.hands| == NumHands && DealtLayout(b, cards, count) && count < |cards|
    requires idx < NumCascades && count == 8 * |b.hands[idx]| + idx
    requires card == FaceUp(cards[|cards| - 1 - count])
    ensures var r := AddCard(b, idx, card);
            DealtLayout(r, cards, count + 1) && count + 1 == 8 * |r.hands[NextCascade(idx)]| + NextCascade(idx)
  {
    var r := AddCard(b, idx, card);
    forall j | 0 <= j < NumCascades
      ensures 8 * |r.hands[j]| + j - 8 < count + 1 <= 8 * |r.hands[j]| + j
    {
      if j != idx {
        assert count != 8 * |b.hands[j]| + j;
      }
    }
    forall j, k | 0 <= j < NumCascades && 0 <= k < |r.hands[j]|
      ensures r.hands[j][k] == FaceUp(cards[|cards| - 1 - (8 * k + j)])
    {
      if j == idx && k == |b.hands[j]| {
        assert 8 * k + j == count;
      }
    }
  }

  /** Dealing a valid card onto a cascade keeps the table valid. */
  lemma DealKeepsInv(b: Board, h: nat, c: Card)
    requires Inv(b) && IsCascade(h) && ValidCard(c)
    ensures Inv(AddCard(b, h, c))
  {
    InvUpdate(b, h, b.hands[h] + [c], AddCard(b, h, c));
  }

  /** How many of `n` cards dealt round-robin onto eight cascades land on
      cascade `j`. */
  function DealtTo(n: nat, j: nat): nat {
    n / 8 + (if j < n % 8 then 1 else 0)
  }

  /** In the round-robin layout of `n` cards, cascade `j` holds
      `DealtTo(n, j)` cards: `n / 8`, and one more for the first `n % 8`
      cascades. */
  lemma LayoutSizes(b: Board, cards: seq<Card>, n: nat)
    requires |b.hands| == NumHands && DealtLayout(b, cards, n)
    ensures forall j :: 0 <= j < NumCascades ==> |b.hands[j]| == DealtTo(n, j)
  {
    forall j | 0 <= j < NumCascades
      ensures |b.hands[j]| == DealtTo(n, j)
    {
      var q, m := n / 8, n % 8;
      assert n == 8 * q + m && 0 <= m < 8;
    }
  }

  /** With a standard 52-card deck, cascades 0-3 get seven cards and
      cascades 4-7 get six. */
  lemma FiftyTwoCardDeal()
    ensures forall j :: 0 <= j < 4 ==> DealtTo(52, j) == 7
    ensures forall j :: 4 <= j < NumCascades ==> DealtTo(52, j) == 6
  {
  }
}
