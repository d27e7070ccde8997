/** A recorded move and its compensating undo, and the invariant of the
    move log: undoing the recorded moves from the last one backwards is
    always possible and passes through valid tables only. */
module Moves {
  import opened Cards
  import opened Board
  import opened Movables

  /** `moved` went from hand `from` to hand `to`. */
  datatype Move = Move(from: nat, to: nat, moved: Movable)

  /** What undoing needs: both hands exist and `to` holds enough cards to
      take the moved cards back off it (the source would fail on an empty
      hand otherwise). */
  predicate UndoDefined(b: Board, mv: Move) {
    && |b.hands| == NumHands && mv.from < NumHands && mv.to < NumHands && WellFormed(mv.moved)
    && match mv.moved
       case Single(_) => |b.hands[mv.to]| > 0
       case Run(cs, _) => |cs| <= |b.hands[mv.to]| + (if mv.from == mv.to then |cs| else 0)
  }

  /** Undo: a single card comes off the top of `to` and the recorded card
      goes back on `from`; a run is put back on `from` card by card and then
      as many cards are taken off the top of `to`. */
  function Undo(b: Board, mv: Move): (r: Board)
    requires UndoDefined(b, mv)
    ensures |r.hands| == NumHands
    ensures mv.from != mv.to ==>
              && r.hands[mv.from] == b.hands[mv.from] + CardsOf(mv.moved)
              && r.hands[mv.to] == b.hands[mv.to][..|b.hands[mv.to]| - |CardsOf(mv.moved)|]
              && |r.hands[mv.from]| + |r.hands[mv.to]| == |b.hands[mv.from]| + |b.hands[mv.to]|
    ensures forall g :: 0 <= g < NumHands && g != mv.from && g != mv.to ==> r.hands[g] == b.hands[g]
  {
    match mv.moved
    case Single(c) => AddCard(RemoveTop(b, mv.to).1, mv.from, c)
    case Run(cs, _) =>
      AddAllEffect(b, mv.from, cs);
      var b1 := AddAll(b, mv.from, cs);
      RemoveTopNEffect(b1, mv.to, |cs|);
      RemoveTopN(b1, mv.to, |cs|)
  }

  /** Undoing the move of `m` from `src` onto `dest` right after placing it
      on `dest` gives exactly the board that putting `m` back on `src` would
      have given: hands and both counters. */
  lemma UndoOfPlace(b: Board, m: Movable, src: nat, dest: nat)
    requires |b.hands| == NumHands && src < NumHands && dest < NumHands && src != dest && WellFormed(m)
    ensures UndoDefined(PlaceOn(b, m, dest), Move(src, dest, m))
    ensures Undo(PlaceOn(b, m, dest), Move(src, dest, m)) == PlaceOn(b, m, src)
  {
    if m.Single? {
      AddCardThenRemoveTop(b, dest, m.card);
    } else {
      UndoOfPlaceRun(b, m.cards, m.source, src, dest);
    }
  }

  lemma UndoOfPlaceRun(b: Board, cs: seq<Card>, from: nat, src: nat, dest: nat)
    requires |b.hands| == NumHands && src < NumHands && dest < NumHands && src != dest
    requires WellFormed(Run(cs, from))
    ensures UndoDefined(PlaceOn(b, Run(cs, from), dest), Move(src, dest, Run(cs, from)))
    ensures Undo(PlaceOn(b, Run(cs, from), dest), Move(src, dest, Run(cs, from))) == PlaceOn(b, Run(cs, from), src)
  {
    AddAllEffect(b, dest, cs);
    RunUndoEffect(b, cs, src, dest);
  }

  /** Adding a run on `dest`, the same cards on `src`, then taking them off
      `dest` again, amounts to adding them on `src` alone. */
  lemma RunUndoEffect(b: Board, cs: seq<Card>, src: nat, dest: nat)
    requires |b.hands| == NumHands && src < NumHands && dest < NumHands && src != dest && |cs| > 0
    ensures |cs| <= |AddAll(AddAll(b, dest, cs), src, cs).hands[dest]|
    ensures RemoveTopN(AddAll(AddAll(b, dest, cs), src, cs), dest, |cs|) == AddAll(b, src, cs)
  {
    var b2 := AddAll(b, dest, cs);
    var b3 := AddAll(b2, src, cs);
    var w := AddAll(b, src, cs);
    AddAllEffect(b, dest, cs);
    AddAllEffect(b2, src, cs);
    AddAllEffect(b, src, cs);
    RunUndoHands(b.hands, cs, src, dest, b3.hands);
    RemoveTopNEffect(b3, dest, |cs|);
    RunUndoCounters(b, cs, src, dest, b2, b3, w, RemoveTopN(b3, dest, |cs|));
  }

  /** The counter arithmetic of undoing a run: the two additions and the
      removal leave the counters as the single addition on `src` does. */
  lemma RunUndoCounters(b: Board, cs: seq<Card>, src: nat, dest: nat, b2: Board, b3: Board, w: Board, r: Board)
    requires src < |b.hands| && dest < |b.hands| && src != dest && |cs| > 0
    requires b2.hands == b.hands[dest := b.hands[dest] + cs]
    requires b2.openCascades == b.openCascades - (if IsCascade(dest) && |b.hands[dest]| == 0 then 1 else 0)
    requires b2.emptyFreeCells == b.emptyFreeCells - (if IsFreeCell(dest) then |cs| else 0)
    requires b3.openCascades == b2.openCascades - (if IsCascade(src) && |b2.hands[src]| == 0 then 1 else 0)
    requires b3.emptyFreeCells == b2.emptyFreeCells - (if IsFreeCell(src) then |cs| else 0)
    requires w.hands == b.hands[src := b.hands[src] + cs] && r.hands == w.hands
    requires w.openCascades == b.openCascades - (if IsCascade(src) && |b.hands[src]| == 0 then 1 else 0)
    requires w.emptyFreeCells == b.emptyFreeCells - (if IsFreeCell(src) then |cs| else 0)
    requires |b3.hands| == |b.hands| && b3.hands[dest] == b.hands[dest] + cs
    requires r.openCascades == b3.openCascades + (if IsCascade(dest) && |b3.hands[dest]| == |cs| then 1 else 0)
    requires r.emptyFreeCells == b3.emptyFreeCells + (if IsFreeCell(dest) then |cs| else 0)
    ensures r == w
  {
    assert b2.hands[src] == b.hands[src];
  }

  lemma RunUndoHands(hs: seq<seq<Card>>, cs: seq<Card>, src: nat, dest: nat, h3: seq<seq<Card>>)
    requires src < |hs| && dest < |hs| && src != dest
    requires h3 == hs[dest := hs[dest] + cs][src := hs[src] + cs]
    ensures |cs| <= |h3[dest]|
    ensures h3[dest := h3[dest][..|h3[dest]| - |cs|]] == hs[src := hs[src] + cs]
  {
    var d := hs[dest];
    assert h3[dest] == d + cs;
    assert (d + cs)[..|d|] == d;
    UpdateBack(hs, dest, src, d + cs, hs[src] + cs);
  }

  /** Updating a hand and then restoring it leaves only the other update. */
  lemma UpdateBack(hs: seq<seq<Card>>, x: nat, y: nat, sx: seq<Card>, sy: seq<Card>)
    requires x < |hs| && y < |hs| && x != y
    ensures hs[x := sx][y := sy][x := hs[x]] == hs[y := sy]
  {
  }

  /** The pick-up/drop protocol followed by undo: lifting `m` off `src` and
      dropping it on another hand `dest`, then undoing the recorded move,
      restores the board as it was before the pick-up. */
  lemma UndoAfterDrop(b: Board, src: nat, at: nat, dest: nat)
    requires |b.hands| == NumHands && src < NumHands && PointOk(b, src, at)
    requires IsFreeCell(src) ==> |b.hands[src]| > 0
    requires PickUp(b, src, at).0.Some?
    requires dest < NumHands && dest != src
    ensures var m := PickUp(b, src, at).0.value;
            var b2 := PlaceOn(PickUp(b, src, at).1, m, dest);
            UndoDefined(b2, Move(src, dest, m)) && Undo(b2, Move(src, dest, m)) == b
  {
    var (m, b1) := PickUp(b, src, at);
    UndoOfPlace(b1, m.value, src, dest);
    PickUpRollback(b, src, at);
  }

  // ---------------------------------------------------------------------
  // The move log

  /** The table satisfies the invariant, and undoing the last recorded move
      is possible and leads to a table from which the rest of the log can be
      undone in the same way. */
  predicate Replayable(b: Board, log: seq<Move>)
    decreases |log|
  {
    && Inv(b)
    && (|log| > 0 ==>
          && UndoDefined(b, log[|log| - 1])
          && Replayable(Undo(b, log[|log| - 1]), log[..|log| - 1]))
  }

  /** A move recorded on top of a replayable log keeps it replayable when
      undoing the move leads back to the earlier table. */
  lemma ReplayableExtend(b0: Board, log: seq<Move>, b: Board, mv: Move)
    requires Replayable(b0, log)
    requires Inv(b) && UndoDefined(b, mv) && Undo(b, mv) == b0
    ensures Replayable(b, log + [mv])
  {
    assert (log + [mv])[..|log|] == log;
  }
}
