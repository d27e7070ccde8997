/** Automatic promotion of cards to the foundations after every accepted
    drop. A top card of a cascade or free cell is promoted when it fits a
    foundation and is either an ace or a two, or no card left in a cascade
    or free cell could ever be stacked on it. The source restarts its scan
    after each promotion (by calling itself), which amounts to: promote the
    first promotable pair in scan order, then start again, until none is
    left. */
module AutoComplete {
  import opened Cards
  import opened Options
  import opened Board
  import opened Movables
  import opened Moves

  // ---------------------------------------------------------------------
  // The safety condition

  /** Some card of `s` may be stacked on `target` by the cascade rule. */
  function StacksOnAny(s: seq<Card>, target: Card): (r: bool)
    ensures r <==> exists i :: 0 <= i < |s| && CanPlaceOnCascade(s[i], target)
  {
    if |s| == 0 then false
    else
      assert forall i :: 0 <= i < |s| - 1 ==> s[1..][i] == s[i + 1];
      CanPlaceOnCascade(s[0], target) || StacksOnAny(s[1..], target)
  }

  /** Some card of hands `h`, ..., 11 (cascades and free cells) may be
      stacked on `target`. */
  function AnyStacksOn(hands: seq<seq<Card>>, h: nat, target: Card): (r: bool)
    requires h <= FirstFoundation <= |hands|
    ensures r <==> exists g, i :: h <= g < FirstFoundation && 0 <= i < |hands[g]|
                                  && CanPlaceOnCascade(hands[g][i], target)
    decreases FirstFoundation - h
  {
    if h == FirstFoundation then false
    else StacksOnAny(hands[h], target) || AnyStacksOn(hands, h + 1, target)
  }

  /** `canPlaceBelowCard`: whether any card still in a cascade or free cell
      could go on `c`. */
  function CanPlaceBelowCard(b: Board, c: Card): (r: bool)
    requires |b.hands| == NumHands
    ensures r <==> exists g, i :: 0 <= g < FirstFoundation && 0 <= i < |b.hands[g]|
                                  && CanPlaceOnCascade(b.hands[g][i], c)
  {
    AnyStacksOn(b.hands, 0, c)
  }

  /** The top card of hand `h` (a cascade or free cell) goes to foundation
      `f`: it fits there, and it is at most a two or nothing could ever be
      stacked on it. */
  predicate Promotable(b: Board, h: nat, f: nat)
    requires |b.hands| == NumHands && h < FirstFoundation && IsFoundation(f)
  {
    && |b.hands[h]| > 0
    && var top := b.hands[h][|b.hands[h]| - 1];
       CanPlaceCard(b, top, f) && (top.rank <= 2 || !CanPlaceBelowCard(b, top))
  }

  // ---------------------------------------------------------------------
  // Scan order

  datatype Pair = Pair(hand: nat, foundation: nat)

  /** (h', f') is a pair the scan reaches from (h, f): hands in order, and
      for each hand the foundations in order. */
  predicate InScan(h: nat, f: nat, h': nat, f': nat) {
    h' < FirstFoundation && IsFoundation(f') && (h < h' || (h == h' && f <= f'))
  }

  predicate Before(h1: nat, f1: nat, h2: nat, f2: nat) {
    h1 < h2 || (h1 == h2 && f1 < f2)
  }

  /** The first promotable pair the scan meets from (h, f) on. */
  function Search(b: Board, h: nat, f: nat): (r: Option<Pair>)
    requires |b.hands| == NumHands && h <= FirstFoundation && FirstFoundation <= f <= NumHands
    ensures r.Some? ==> InScan(h, f, r.value.hand, r.value.foundation) && |b.hands[r.value.hand]| > 0
    decreases FirstFoundation - h, NumHands - f
  {
    if h == FirstFoundation then None
    else if f == NumHands then Search(b, h + 1, FirstFoundation)
    else if Promotable(b, h, f) then Some(Pair(h, f))
    else Search(b, h, f + 1)
  }

  /** The scan finds a pair exactly when one is promotable, and it finds
      the first in scan order. */
  lemma {:induction false} SearchFinds(b: Board, h: nat, f: nat)
    requires |b.hands| == NumHands && h <= FirstFoundation && FirstFoundation <= f <= NumHands
    ensures var r := Search(b, h, f);
            && (r.None? ==> forall h', f' :: InScan(h, f, h', f') ==> !Promotable(b, h', f'))
            && (r.Some? ==> && Promotable(b, r.value.hand, r.value.foundation)
                            && forall h', f' :: (InScan(h, f, h', f') && Before(h', f', r.value.hand, r.value.foundation))
                                                 ==> !Promotable(b, h', f'))
    decreases FirstFoundation - h, NumHands - f
  {
    if h == FirstFoundation {
    } else if f == NumHands {
      SearchFinds(b, h + 1, FirstFoundation);
    } else if !Promotable(b, h, f) {
      SearchFinds(b, h, f + 1);
    }
  }

  // ---------------------------------------------------------------------
  // Promotion

  /** The total number of cards in the given hands. */
  function SumLengths(hs: seq<seq<Card>>): nat
    decreases |hs|
  {
    if |hs| == 0 then 0 else SumLengths(hs[..|hs| - 1]) + |hs[|hs| - 1]|
  }

  lemma {:induction false} SumLengthsUpdate(hs: seq<seq<Card>>, i: nat, s: seq<Card>)
    requires i < |hs|
    ensures SumLengths(hs[i := s]) == SumLengths(hs) - |hs[i]| + |s|
    decreases |hs|
  {
    var n := |hs|;
    if i < n - 1 {
      assert hs[i := s][..n - 1] == hs[..n - 1][i := s];
      SumLengthsUpdate(hs[..n - 1], i, s);
    } else {
      assert hs[i := s][..n - 1] == hs[..n - 1];
    }
  }

  /** Cards still in the cascades and free cells. */
  function CardsInPlay(b: Board): nat
    requires |b.hands| == NumHands
  {
    SumLengths(b.hands[..FirstFoundation])
  }

  /** Moves the top card of hand `h` onto hand `f`. */
  function Promote(b: Board, h: nat, f: nat): (r: Board)
    requires |b.hands| == NumHands && h < NumHands && f < NumHands && h != f && |b.hands[h]| > 0
    ensures |r.hands| == NumHands
    ensures r.hands == b.hands[h := b.hands[h][..|b.hands[h]| - 1]]
                              [f := b.hands[f] + [b.hands[h][|b.hands[h]| - 1]]]
  {
    var (c, b1) := RemoveTop(b, h);
    PlaceOn(b1, Single(c), f)
  }

  /** A logged move from a cascade or free cell to a foundation, of one card. */
  predicate IsPromotion(mv: Move) {
    mv.from < FirstFoundation && IsFoundation(mv.to) && mv.moved.Single?
  }

  /** The move recorded for promoting the top card of `h` to `f`. */
  function PromotionMove(b: Board, h: nat, f: nat): (mv: Move)
    requires |b.hands| == NumHands && h < FirstFoundation && IsFoundation(f) && |b.hands[h]| > 0
    ensures IsPromotion(mv) && mv.moved.card == b.hands[h][|b.hands[h]| - 1]
  {
    Move(h, f, Single(b.hands[h][|b.hands[h]| - 1]))
  }

  /** No pair is promotable. */
  predicate Settled(b: Board)
    requires |b.hands| == NumHands
  {
    forall h: nat, f: nat :: h < FirstFoundation && FirstFoundation <= f < NumHands ==> !Promotable(b, h, f)
  }

  /** Promotes while some pair is promotable, recording one move per
      promoted card; does nothing when switched off. */
  function AutoComplete(enabled: bool, b: Board, log: seq<Move>): (r: (Board, seq<Move>))
    requires |b.hands| == NumHands
    ensures |r.0.hands| == NumHands
    ensures !enabled ==> r == (b, log)
    decreases CardsInPlay(b)
  {
    if !enabled then (b, log)
    else
      match Search(b, 0, FirstFoundation)
      case None => (b, log)
      case Some(p) =>
        PromoteInPlay(b, p.hand, p.foundation);
        AutoComplete(enabled, Promote(b, p.hand, p.foundation), log + [PromotionMove(b, p.hand, p.foundation)])
  }

  /** One round of autocompletion: the first promotable pair is promoted
      and the scan restarts. */
  lemma AutoCompleteUnfold(b: Board, log: seq<Move>)
    requires |b.hands| == NumHands && Search(b, 0, FirstFoundation).Some?
    ensures var p := Search(b, 0, FirstFoundation).value;
            && CardsInPlay(Promote(b, p.hand, p.foundation)) < CardsInPlay(b)
            && AutoComplete(true, b, log)
               == AutoComplete(true, Promote(b, p.hand, p.foundation), log + [PromotionMove(b, p.hand, p.foundation)])
  {
    var p := Search(b, 0, FirstFoundation).value;
    PromoteInPlay(b, p.hand, p.foundation);
  }

  /** When autocompletion stops, no pair is promotable. */
  lemma {:induction false} AutoCompleteStops(b: Board, log: seq<Move>)
    requires |b.hands| == NumHands
    ensures Settled(AutoComplete(true, b, log).0)
    decreases CardsInPlay(b)
  {
    SearchFinds(b, 0, FirstFoundation);
    var p := Search(b, 0, FirstFoundation);
    if p.None? {
      assert forall h: nat, f: nat :: h < FirstFoundation && IsFoundation(f) ==> InScan(0, FirstFoundation, h, f);
    } else {
      var h, f := p.value.hand, p.value.foundation;
      AutoCompleteUnfold(b, log);
      AutoCompleteStops(Promote(b, h, f), log + [PromotionMove(b, h, f)]);
    }
  }

  /** Autocompletion only appends to the log, one entry per card it takes
      out of play. */
  lemma {:induction false} AutoCompleteLog(enabled: bool, b: Board, log: seq<Move>)
    requires |b.hands| == NumHands
    ensures var r := AutoComplete(enabled, b, log);
            && |log| <= |r.1| && r.1[..|log|] == log
            && |r.1| - |log| == CardsInPlay(b) - CardsInPlay(r.0)
    decreases CardsInPlay(b)
  {
    var p := Search(b, 0, FirstFoundation);
    if enabled && p.Some? {
      var h, f := p.value.hand, p.value.foundation;
      var log' := log + [PromotionMove(b, h, f)];
      AutoCompleteUnfold(b, log);
      PromoteInPlay(b, h, f);
      AutoCompleteLog(enabled, Promote(b, h, f), log');
      var r := AutoComplete(enabled, Promote(b, h, f), log');
      assert r.1[..|log|] == log'[..|log|];
    }
  }

  /** Every entry autocompletion appends is a one-card move from a cascade
      or free cell to a foundation. */
  lemma {:induction false} AutoCompletePromotions(enabled: bool, b: Board, log: seq<Move>)
    requires |b.hands| == NumHands
    ensures var r := AutoComplete(enabled, b, log);
            forall k :: |log| <= k < |r.1| ==> IsPromotion(r.1[k])
    decreases CardsInPlay(b)
  {
    var p := Search(b, 0, FirstFoundation);
    if enabled && p.Some? {
      var h, f := p.value.hand, p.value.foundation;
      var log' := log + [PromotionMove(b, h, f)];
      AutoCompleteUnfold(b, log);
      AutoCompleteLog(enabled, Promote(b, h, f), log');
      AutoCompletePromotions(enabled, Promote(b, h, f), log');
      var r := AutoComplete(enabled, Promote(b, h, f), log');
      assert r.1[|log|] == log'[|log|] by {
        assert r.1[..|log'|] == log';
      }
    }
  }

  /** A promotion takes exactly one card out of play. */
  lemma PromoteInPlay(b: Board, h: nat, f: nat)
    requires |b.hands| == NumHands && h < FirstFoundation && IsFoundation(f) && |b.hands[h]| > 0
    ensures CardsInPlay(Promote(b, h, f)) == CardsInPlay(b) - 1
  {
    var low := b.hands[h][..|b.hands[h]| - 1];
    assert Promote(b, h, f).hands[..FirstFoundation] == b.hands[..FirstFoundation][h := low];
    SumLengthsUpdate(b.hands[..FirstFoundation], h, low);
  }

  // ---------------------------------------------------------------------
  // Promotion and the log

  /** A promotion keeps the table invariant. */
  lemma PromoteKeepsInv(b: Board, h: nat, f: nat)
    requires Inv(b) && h < FirstFoundation && IsFoundation(f) && Promotable(b, h, f)
    ensures Inv(Promote(b, h, f))
  {
    var (c, b1) := RemoveTop(b, h);
    InvUpdate(b, h, b1.hands[h], b1);
    assert b1.hands[f] == b.hands[f];
    PlaceOnKeepsInv(b1, Single(c), f);
  }

  /** Undoing the move recorded for a promotion gives back the table. */
  lemma UndoPromote(b: Board, h: nat, f: nat)
    requires |b.hands| == NumHands && h < FirstFoundation && IsFoundation(f) && |b.hands[h]| > 0
    ensures UndoDefined(Promote(b, h, f), PromotionMove(b, h, f))
    ensures Undo(Promote(b, h, f), PromotionMove(b, h, f)) == b
  {
    var (c, b1) := RemoveTop(b, h);
    UndoOfPlace(b1, Single(c), h, f);
    RemoveTopThenAddCard(b, h);
  }

  /** A promotion recorded on a replayable log keeps it replayable. */
  lemma PromoteKeepsReplayable(b: Board, log: seq<Move>, h: nat, f: nat)
    requires Replayable(b, log) && h < FirstFoundation && IsFoundation(f) && Promotable(b, h, f)
    ensures Replayable(Promote(b, h, f), log + [PromotionMove(b, h, f)])
  {
    PromoteKeepsInv(b, h, f);
    UndoPromote(b, h, f);
    ReplayableExtend(b, log, Promote(b, h, f), PromotionMove(b, h, f));
  }

  /** Autocompletion keeps the log replayable: every promotion it records
      can be undone, back to the table it started from. */
  lemma {:induction false} AutoCompleteKeepsReplayable(enabled: bool, b: Board, log: seq<Move>)
    requires |b.hands| == NumHands && Replayable(b, log)
    ensures Replayable(AutoComplete(enabled, b, log).0, AutoComplete(enabled, b, log).1)
    decreases CardsInPlay(b)
  {
    var p := Search(b, 0, FirstFoundation);
    if enabled && p.Some? {
      var h, f := p.value.hand, p.value.foundation;
      SearchFinds(b, 0, FirstFoundation);
      PromoteKeepsReplayable(b, log, h, f);
      AutoCompleteUnfold(b, log);
      AutoCompleteKeepsReplayable(enabled, Promote(b, h, f), log + [PromotionMove(b, h, f)]);
    }
  }
}
