/** What the mouse carries: a single card, or a run of cards ("Tableau")
    that remembers the hand it was lifted from. This module holds the
    placement rules (single-card legality and the run capacity), placing,
    and the per-kind pick-up rules with the enumeration of every movable of
    a cascade. */
module Movables {
  import opened Cards
  import opened Options
  import opened Board

  datatype Movable = Single(card: Card) | Run(cards: seq<Card>, source: nat)

  /** The cards a movable carries, bottom card first. */
  function CardsOf(m: Movable): seq<Card> {
    match m
    case Single(c) => [c]
    case Run(cs, _) => cs
  }

  /** A run carries at least one card and names one of the sixteen hands. */
  predicate WellFormed(m: Movable) {
    m.Run? ==> |m.cards| > 0 && m.source < NumHands
  }

  // ---------------------------------------------------------------------
  // Single-card legality

  /** Whether card `c` may be put on hand `h`: on a non-empty hand the
      cascade or foundation stacking rule against its top card decides, and
      a non-empty free cell refuses; an empty cascade or free cell accepts
      anything and an empty foundation only an ace. */
  predicate CanPlaceCard(b: Board, c: Card, h: nat)
    requires h < |b.hands|
  {
    var s := b.hands[h];
    if |s| > 0 then
      match KindOf(h)
      case CascadeKind => CanPlaceOnCascade(c, s[|s| - 1])
      case FoundationKind => CanPlaceOnFoundation(c, s[|s| - 1])
      case FreeCellKind => false
    else
      match KindOf(h)
      case CascadeKind => true
      case FoundationKind => IsAce(c)
      case FreeCellKind => true
  }

  /** The single-card rules, one clause per kind of destination. */
  lemma PlacementRules(b: Board, c: Card, h: nat)
    requires h < |b.hands| && h < NumHands
    ensures IsFreeCell(h) && |b.hands[h]| > 0 ==> !CanPlaceCard(b, c, h)
    ensures IsCascade(h) && |b.hands[h]| > 0 ==>
              (CanPlaceCard(b, c, h) <==> CanPlaceOnCascade(c, b.hands[h][|b.hands[h]| - 1]))
    ensures IsFoundation(h) && |b.hands[h]| > 0 ==>
              (CanPlaceCard(b, c, h) <==> CanPlaceOnFoundation(c, b.hands[h][|b.hands[h]| - 1]))
    ensures !IsFoundation(h) && |b.hands[h]| == 0 ==> CanPlaceCard(b, c, h)
    ensures IsFoundation(h) && |b.hands[h]| == 0 ==> (CanPlaceCard(b, c, h) <==> c.rank == 1)
  {
  }

  // ---------------------------------------------------------------------
  // Run capacity

  /** 2 to the power `n`; the source's doubling loop runs zero times when
      `n` is not positive. */
  function Pow2(n: int): (p: nat)
    ensures p >= 1
    decreases if n > 0 then n else 0
  {
    if n <= 0 then 1 else 2 * Pow2(n - 1)
  }

  /** Java's `x / 2` on `int`: the quotient truncated toward zero. */
  function Half(x: int): (r: int)
    ensures x >= 0 ==> 2 * r <= x <= 2 * r + 1
    ensures x < 0 ==> 2 * r - 1 <= x <= 2 * r
  {
    if x >= 0 then x / 2 else -((-x) / 2)
  }

  /** The number of cards a run may have: (1 + empty free cells) doubled
      once per open cascade, then, when some cascade is open, halved once
      for an empty destination and once more for an empty source. */
  function Capacity(emptyCells: int, open: int, destEmpty: bool, sourceEmpty: bool): (c: int)
    ensures emptyCells >= 0 ==> 0 <= c <= (1 + emptyCells) * Pow2(open)
    ensures open <= 0 ==> c == 1 + emptyCells
  {
    var c := (1 + emptyCells) * Pow2(open);
    if open > 0 then
      var c1 := if destEmpty then Half(c) else c;
      if sourceEmpty then Half(c1) else c1
    else c
  }

  lemma {:induction false} Pow2Step(n: int)
    requires n >= 1
    ensures Pow2(n) == 2 * Pow2(n - 1)
  {
  }

  /** When no more halvings apply than there are open cascades, every
      halving is exact: the capacity is (1 + empty cells) times 2 to the
      number of open cascades not spent on an empty destination or source. */
  lemma {:induction false} CapacityClosedForm(emptyCells: int, open: int, destEmpty: bool, sourceEmpty: bool)
    requires emptyCells >= 0
    requires open >= (if destEmpty then 1 else 0) + (if sourceEmpty then 1 else 0)
    ensures Capacity(emptyCells, open, destEmpty, sourceEmpty)
         == (1 + emptyCells) * Pow2(open - (if destEmpty then 1 else 0) - (if sourceEmpty then 1 else 0))
  {
    var e := 1 + emptyCells;
    if open > 0 {
      Pow2Step(open);
      assert e * Pow2(open) == 2 * (e * Pow2(open - 1));
      if destEmpty {
        assert Half(e * Pow2(open)) == e * Pow2(open - 1);
        if sourceEmpty {
          Pow2Step(open - 1);
          assert e * Pow2(open - 1) == 2 * (e * Pow2(open - 2));
        }
      } else if sourceEmpty {
        assert Half(e * Pow2(open)) == e * Pow2(open - 1);
      }
    }
  }

  /** Number of empty hands among `hands[lo..hi]` other than `x` and `y`. */
  function CountEmptyExcept(hands: seq<seq<Card>>, lo: nat, hi: nat, x: nat, y: nat): (n: nat)
    requires lo <= hi <= |hands|
    ensures n <= hi - lo
    decreases hi - lo
  {
    if lo == hi then 0
    else (if |hands[lo]| == 0 && lo != x && lo != y then 1 else 0) + CountEmptyExcept(hands, lo + 1, hi, x, y)
  }

  /** The empty hands of a range are those other than `x` and `y`, plus
      whichever of the two distinct hands `x`, `y` lie in the range and are
      empty. */
  lemma {:induction false} CountEmptySplit(hands: seq<seq<Card>>, lo: nat, hi: nat, x: nat, y: nat)
    requires lo <= hi <= |hands| && x != y
    ensures CountEmpty(hands, lo, hi)
         == CountEmptyExcept(hands, lo, hi, x, y)
            + (if lo <= x < hi && |hands[x]| == 0 then 1 else 0)
            + (if lo <= y < hi && |hands[y]| == 0 then 1 else 0)
    decreases hi - lo
  {
    if lo < hi {
      CountEmptySplit(hands, lo + 1, hi, x, y);
    }
  }

  /** Under the table invariant, for a run moved between two different
      cascades the source's formula is the usual FreeCell bound: (1 + empty
      free cells) times 2 to the number of empty cascades other than the
      source and the destination. */
  lemma CapacityIsStandardBound(b: Board, dest: nat, source: nat)
    requires Inv(b) && IsCascade(dest) && IsCascade(source) && dest != source
    ensures Capacity(b.emptyFreeCells, b.openCascades, |b.hands[dest]| == 0, |b.hands[source]| == 0)
         == (1 + b.emptyFreeCells) * Pow2(CountEmptyExcept(b.hands, 0, FirstFreeCell, dest, source))
  {
    InvBounds(b);
    CountEmptySplit(b.hands, 0, FirstFreeCell, dest, source);
    var destEmpty, sourceEmpty := |b.hands[dest]| == 0, |b.hands[source]| == 0;
    var k := CountEmptyExcept(b.hands, 0, FirstFreeCell, dest, source);
    assert b.openCascades - (if destEmpty then 1 else 0) - (if sourceEmpty then 1 else 0) == k;
    CapacityClosedForm(b.emptyFreeCells, b.openCascades, destEmpty, sourceEmpty);
  }

  // ---------------------------------------------------------------------
  // Placing

  /** Whether movable `m` may be dropped on hand `h`. A single card follows
      the single-card rule. A run longer than the capacity is refused; on a
      cascade its bottom card must fit, and elsewhere it must be exactly one
      card that fits. The source's emptiness is read from the board, after
      the pick-up removed the run. */
  function CanPlaceOn(b: Board, m: Movable, h: nat): (r: bool)
    requires |b.hands| == NumHands && h < NumHands && WellFormed(m)
    ensures m.Single? ==> (r <==> CanPlaceCard(b, m.card, h))
    ensures r ==> CanPlaceCard(b, CardsOf(m)[0], h)
    ensures r && !IsCascade(h) ==> |CardsOf(m)| == 1
    ensures r && m.Run? ==>
              |m.cards| <= Capacity(b.emptyFreeCells, b.openCascades, |b.hands[h]| == 0, |b.hands[m.source]| == 0)
  {
    match m
    case Single(c) => CanPlaceCard(b, c, h)
    case Run(cs, src) =>
      var cap := Capacity(b.emptyFreeCells, b.openCascades, |b.hands[h]| == 0, |b.hands[src]| == 0);
      if |cs| > cap then false
      else if IsCascade(h) then CanPlaceCard(b, cs[0], h)
      else if |cs| != 1 then false
      else CanPlaceCard(b, cs[|cs| - 1], h)
  }

  /** The run rules in the source's terms: too long is refused everywhere; on
      a cascade the bottom card decides; elsewhere only one card can pass. */
  lemma RunRules(b: Board, m: Movable, h: nat)
    requires |b.hands| == NumHands && h < NumHands && WellFormed(m) && m.Run?
    ensures var cap := Capacity(b.emptyFreeCells, b.openCascades, |b.hands[h]| == 0, |b.hands[m.source]| == 0);
            && (|m.cards| > cap ==> !CanPlaceOn(b, m, h))
            && (IsCascade(h) ==> (CanPlaceOn(b, m, h) <==> |m.cards| <= cap && CanPlaceCard(b, m.cards[0], h)))
            && (!IsCascade(h) ==> (CanPlaceOn(b, m, h) <==> |m.cards| == 1 && 1 <= cap && CanPlaceCard(b, m.cards[0], h)))
  {
  }

  /** Two empty free cells, one open cascade, and neither the destination
      nor the source empty: six cards may move and seven may not. */
  lemma CapacityWorkedCase(b: Board, cs: seq<Card>, src: nat, h: nat)
    requires |b.hands| == NumHands && h < NumHands && src < NumHands && IsCascade(h)
    requires b.emptyFreeCells == 2 && b.openCascades == 1
    requires |b.hands[h]| > 0 && |b.hands[src]| > 0
    requires 6 <= |cs| <= 7
    ensures Capacity(2, 1, false, false) == 6
    ensures CanPlaceOn(b, Run(cs, src), h) <==> |cs| == 6 && CanPlaceCard(b, cs[0], h)
  {
    assert Pow2(1) == 2;
  }

  /** Puts the movable's cards on hand `h` one at a time, in order. */
  function PlaceOn(b: Board, m: Movable, h: nat): (r: Board)
    requires h < |b.hands| && WellFormed(m)
    ensures r.hands == b.hands[h := b.hands[h] + CardsOf(m)]
    ensures r.openCascades == b.openCascades - (if IsCascade(h) && |b.hands[h]| == 0 then 1 else 0)
    ensures r.emptyFreeCells == b.emptyFreeCells - (if IsFreeCell(h) then |CardsOf(m)| else 0)
  {
    match m
    case Single(c) => AddCard(b, h, c)
    case Run(cs, _) => AddAllEffect(b, h, cs); AddAll(b, h, cs)
  }

  /** Replacing hand `h` by `s` keeps the table invariant when `s` is valid
      for the kind of `h` and each counter moved by the change in emptiness
      of `h`. */
  lemma InvUpdate(b: Board, h: nat, s: seq<Card>, r: Board)
    requires Inv(b) && h < NumHands
    requires r.hands == b.hands[h := s]
    requires ValidCards(s)
    requires IsFreeCell(h) ==> |s| <= 1
    requires IsFoundation(h) ==> FoundationBuilt(s)
    requires r.openCascades == b.openCascades
               - (if IsCascade(h) && |b.hands[h]| == 0 then 1 else 0)
               + (if IsCascade(h) && |s| == 0 then 1 else 0)
    requires r.emptyFreeCells == b.emptyFreeCells
               - (if IsFreeCell(h) && |b.hands[h]| == 0 then 1 else 0)
               + (if IsFreeCell(h) && |s| == 0 then 1 else 0)
    ensures Inv(r)
  {
    assert forall g :: 0 <= g < NumHands && g != h ==> r.hands[g] == b.hands[g];
    assert CountersAccurate(r) by {
      CountEmptyUpdate(b.hands, 0, FirstFreeCell, h, s);
      CountEmptyUpdate(b.hands, FirstFreeCell, FirstFoundation, h, s);
    }
  }

  /** An accepted drop of valid cards keeps the table invariant: a free cell
      only ever receives one card while empty, and a foundation only an ace
      or the next card of its suit, so foundations stay single-suit and
      ascending from the ace. */
  lemma PlaceOnKeepsInv(b: Board, m: Movable, h: nat)
    requires Inv(b) && h < NumHands && WellFormed(m) && ValidCards(CardsOf(m))
    requires CanPlaceOn(b, m, h)
    ensures Inv(PlaceOn(b, m, h))
  {
    var s := b.hands[h];
    var cs := CardsOf(m);
    var s' := s + cs;
    if IsFreeCell(h) || IsFoundation(h) {
      assert |cs| == 1;
      assert CanPlaceCard(b, cs[0], h);
    }
    if IsFoundation(h) {
      assert FoundationBuilt(s');
    }
    InvUpdate(b, h, s', PlaceOn(b, m, h));
  }

  // ---------------------------------------------------------------------
  // Picking up

  /** The cards from index `i` to the top form a run: each card may be
      stacked on the one below it by the cascade rule. */
  predicate IsRunFrom(cards: seq<Card>, i: nat) {
    forall k :: i <= k < |cards| - 1 ==> CanPlaceOnCascade(cards[k + 1], cards[k])
  }

  /** The source's check, walking upwards from `i` and failing at the first
      pair that does not stack. */
  function RunCheck(cards: seq<Card>, i: nat): (ok: bool)
    requires i < |cards|
    ensures ok <==> IsRunFrom(cards, i)
    decreases |cards| - i
  {
    if i == |cards| - 1 then true
    else if !CanPlaceOnCascade(cards[i + 1], cards[i]) then false
    else RunCheck(cards, i + 1)
  }

  /** A run from `i` is a run from every later index. */
  lemma IsRunFromLater(cards: seq<Card>, i: nat, j: nat)
    requires IsRunFrom(cards, i) && i <= j
    ensures IsRunFrom(cards, j)
  {
  }

  /** A pair that does not stack at or above `j` lies below any index a
      run starts from. */
  lemma RunBreakBelow(cards: seq<Card>, i: nat, j: nat)
    requires IsRunFrom(cards, i) && !IsRunFrom(cards, j)
    ensures j < i
  {
    var k :| j <= k < |cards| - 1 && !CanPlaceOnCascade(cards[k + 1], cards[k]);
    assert k < i;
  }

  /** The card index under the selection point is meaningful only for a
      non-empty cascade, whose cards cover its whole area. */
  predicate PointOk(b: Board, h: nat, at: nat)
    requires |b.hands| == NumHands && h < NumHands
  {
    IsCascade(h) && |b.hands[h]| > 0 ==> at < |b.hands[h]|
  }

  /** Whether hand `h` lets the cards from index `at` up be lifted: for a
      cascade, those cards must form a run (an empty cascade says yes and
      then yields nothing); a free cell must hold exactly one card; a
      foundation never gives up a card. */
  function CanPickUp(b: Board, h: nat, at: nat): (r: bool)
    requires |b.hands| == NumHands && h < NumHands && PointOk(b, h, at)
    ensures IsFoundation(h) ==> !r
    ensures IsFreeCell(h) ==> (r <==> |b.hands[h]| == 1)
    ensures IsCascade(h) ==> (r <==> |b.hands[h]| == 0 || IsRunFrom(b.hands[h], at))
  {
    match KindOf(h)
    case CascadeKind => |b.hands[h]| == 0 || RunCheck(b.hands[h], at)
    case FreeCellKind => |b.hands[h]| == 1
    case FoundationKind => false
  }

  /** Lifts cards off hand `h`. An empty cascade and a foundation give
      nothing and change nothing. The top card of a cascade or a free cell
      is lifted alone; a lower card of a cascade lifts the run from it up,
      one card at a time, leaving exactly the cards below it. */
  function PickUp(b: Board, h: nat, at: nat): (r: (Option<Movable>, Board))
    requires |b.hands| == NumHands && h < NumHands && PointOk(b, h, at)
    requires IsFreeCell(h) ==> |b.hands[h]| > 0
    ensures |r.1.hands| == NumHands
    ensures r.0.None? <==> IsFoundation(h) || |b.hands[h]| == 0
    ensures r.0.None? ==> r.1 == b
    ensures r.0.Some? ==> && WellFormed(r.0.value)
                          && r.1.hands[h] + CardsOf(r.0.value) == b.hands[h]
                          && r.1.hands == b.hands[h := r.1.hands[h]]
    ensures r.0.Some? && r.0.value.Run? ==> IsCascade(h) && r.0.value.source == h
                                            && r.1.hands[h] == b.hands[h][..at]
                                            && |r.0.value.cards| >= 2
    ensures r.0.Some? && r.0.value.Single? ==> r.0.value.card == b.hands[h][|b.hands[h]| - 1]
    ensures IsCascade(h) && |b.hands[h]| > 0 ==>
              (r.0.value.Single? <==> at == |b.hands[h]| - 1)
              && (r.0.value.Run? ==> r.0.value.cards == b.hands[h][at..])
    ensures r.1.openCascades == b.openCascades + (if r.0.Some? && IsCascade(h) && |r.1.hands[h]| == 0 then 1 else 0)
    ensures r.1.emptyFreeCells == b.emptyFreeCells + (if IsFreeCell(h) then 1 else 0)
  {
    var n := |b.hands[h]|;
    match KindOf(h)
    case CascadeKind =>
      if n == 0 then (None, b)
      else if at == n - 1 then
        var (c, b1) := RemoveTop(b, h);
        assert b1.hands[h] + [c] == b.hands[h];
        assert b.hands[h := b1.hands[h]] == b1.hands;
        (Some(Single(c)), b1)
      else
        RemoveFromEffect(b, h, at);
        var b1 := RemoveFrom(b, h, at);
        assert b.hands[h][..at] + b.hands[h][at..] == b.hands[h];
        assert b.hands[h := b1.hands[h]] == b1.hands;
        (Some(Run(b.hands[h][at..], h)), b1)
    case FreeCellKind =>
      var (c, b1) := RemoveTop(b, h);
      assert b1.hands[h] + [c] == b.hands[h];
      assert b.hands[h := b1.hands[h]] == b1.hands;
      (Some(Single(c)), b1)
    case FoundationKind => (None, b)
  }

  /** Putting a lifted movable straight back where it came from restores
      the board exactly, counters included: this is the rollback of a
      refused drop. */
  lemma PickUpRollback(b: Board, h: nat, at: nat)
    requires |b.hands| == NumHands && h < NumHands && PointOk(b, h, at)
    requires IsFreeCell(h) ==> |b.hands[h]| > 0
    requires PickUp(b, h, at).0.Some?
    ensures PlaceOn(PickUp(b, h, at).1, PickUp(b, h, at).0.value, h) == b
  {
    var (m, b1) := PickUp(b, h, at);
    var r := PlaceOn(b1, m.value, h);
    assert r.hands == b.hands;
  }

  /** A permitted pick-up keeps the table invariant and hands over valid
      cards. */
  lemma PickUpKeepsInv(b: Board, h: nat, at: nat)
    requires Inv(b) && h < NumHands && PointOk(b, h, at) && CanPickUp(b, h, at)
    ensures IsFreeCell(h) ==> |b.hands[h]| > 0
    ensures Inv(PickUp(b, h, at).1)
    ensures PickUp(b, h, at).0.Some? ==> ValidCards(CardsOf(PickUp(b, h, at).0.value))
  {
    var r := PickUp(b, h, at);
    if r.0.Some? {
      var s1 := r.1.hands[h];
      var cs := CardsOf(r.0.value);
      SplitValid(b.hands[h], s1, cs);
      InvUpdate(b, h, s1, r.1);
    }
  }

  /** Both parts of a split of valid cards are valid. */
  lemma SplitValid(s: seq<Card>, lower: seq<Card>, upper: seq<Card>)
    requires ValidCards(s) && lower + upper == s
    ensures ValidCards(lower) && ValidCards(upper)
  {
    assert forall i :: 0 <= i < |upper| ==> upper[i] == s[|lower| + i];
    assert forall i :: 0 <= i < |lower| ==> lower[i] == s[i];
  }

  // ---------------------------------------------------------------------
  // Every movable of a cascade

  /** `m` is the run, lifted from `source`, of the cards from position `i`
      up, and those cards do form a run. */
  predicate RunAt(cards: seq<Card>, source: nat, m: Movable, i: int) {
    0 <= i < |cards| && m == Run(cards[i..], source) && IsRunFrom(cards, i)
  }

  /** The top card alone, then the runs of two, three, ... cards from the
      top, stopping at the first pair that does not stack. */
  function GetAllMovables(cards: seq<Card>, source: nat): (ms: seq<Movable>)
    ensures |cards| == 0 ==> ms == []
    ensures |cards| > 0 ==> 1 <= |ms| <= |cards| && ms[0] == Single(cards[|cards| - 1])
    ensures forall k :: 1 <= k < |ms| ==>
              RunAt(cards, source, ms[k], |cards| - 1 - k)
    ensures |cards| > 0 && |ms| < |cards| ==> !IsRunFrom(cards, |cards| - 1 - |ms|)
  {
    if |cards| == 0 then []
    else
      var rs := RunsFrom(cards, source, |cards| - 2);
      var ms := [Single(cards[|cards| - 1])] + rs;
      MovablesShape(cards, source, rs, ms);
      ms
  }

  /** The runs from just below the top card, shifted one place up behind
      the top card, are the runs from `|cards| - 1 - k`. */
  lemma MovablesShape(cards: seq<Card>, source: nat, rs: seq<Movable>, ms: seq<Movable>)
    requires |cards| > 0 && IsRunFrom(cards, |cards| - 1)
    requires rs == RunsFrom(cards, source, |cards| - 2) && ms == [Single(cards[|cards| - 1])] + rs
    ensures forall k :: 1 <= k < |ms| ==>
              RunAt(cards, source, ms[k], |cards| - 1 - k)
  {
    forall k | 1 <= k < |ms|
      ensures RunAt(cards, source, ms[k], |cards| - 1 - k)
    {
      assert ms[k] == rs[k - 1];
      assert (|cards| - 2) - (k - 1) == |cards| - 1 - k;
    }
  }

  /** A run from `base` followed by the runs from `base - 1` are the runs
      from `base - k`. */
  lemma RunsShape(cards: seq<Card>, source: nat, base: nat, rest: seq<Movable>, rs: seq<Movable>)
    requires base <= |cards| - 2 && IsRunFrom(cards, base) && |rest| <= base
    requires forall k :: 0 <= k < |rest| ==>
               RunAt(cards, source, rest[k], base - 1 - k)
    requires rs == [Run(cards[base..], source)] + rest
    ensures forall k :: 0 <= k < |rs| ==> RunAt(cards, source, rs[k], base - k)
  {
    forall k | 0 <= k < |rs|
      ensures RunAt(cards, source, rs[k], base - k)
    {
      if k > 0 {
        assert rs[k] == rest[k - 1];
        assert base - 1 - (k - 1) == base - k;
      }
    }
  }

  /** The runs whose bottom card is at `base`, `base - 1`, ... while each
      new bottom card takes the card above it. */
  function RunsFrom(cards: seq<Card>, source: nat, base: int): (rs: seq<Movable>)
    requires -1 <= base <= |cards| - 2 && IsRunFrom(cards, base + 1)
    ensures |rs| <= base + 1
    ensures forall k :: 0 <= k < |rs| ==> RunAt(cards, source, rs[k], base - k)
    ensures |rs| == base + 1 || !IsRunFrom(cards, base - |rs|)
    decreases base + 1
  {
    if base >= 0 && CanPlaceOnCascade(cards[base + 1], cards[base]) then
      var rest := RunsFrom(cards, source, base - 1);
      var rs := [Run(cards[base..], source)] + rest;
      RunsShape(cards, source, base, rest, rs);
      rs
    else []
  }

  /** Every movable of a hand is well formed. */
  lemma MovablesWellFormed(cards: seq<Card>, source: nat)
    requires source < NumHands
    ensures forall k :: 0 <= k < |GetAllMovables(cards, source)| ==> WellFormed(GetAllMovables(cards, source)[k])
  {
  }

  /** For a non-empty cascade, a pick-up at `at` is permitted exactly when
      what it lifts is one of the cascade's movables. */
  lemma CanPickUpIffMovable(b: Board, h: nat, at: nat)
    requires |b.hands| == NumHands && IsCascade(h) && |b.hands[h]| > 0 && at < |b.hands[h]|
    ensures PickUp(b, h, at).0.Some?
    ensures CanPickUp(b, h, at) <==> PickUp(b, h, at).0.value in GetAllMovables(b.hands[h], h)
  {
    var cards := b.hands[h];
    var m := PickUp(b, h, at).0.value;
    assert CanPickUp(b, h, at) <==> IsRunFrom(cards, at);
    if at == |cards| - 1 {
      assert m == GetAllMovables(cards, h)[0];
    } else {
      assert m == Run(cards[at..], h);
      RunIffMovable(cards, h, at);
    }
  }

  /** The cards from `at` (below the top) up are among the movables exactly
      when they form a run. */
  lemma RunIffMovable(cards: seq<Card>, source: nat, at: nat)
    requires at < |cards| - 1
    ensures IsRunFrom(cards, at) <==> Run(cards[at..], source) in GetAllMovables(cards, source)
  {
    if IsRunFrom(cards, at) {
      RunIsMovable(cards, source, at);
    }
    if Run(cards[at..], source) in GetAllMovables(cards, source) {
      MovableIsRun(cards, source, at);
    }
  }

  lemma RunIsMovable(cards: seq<Card>, source: nat, at: nat)
    requires at < |cards| - 1 && IsRunFrom(cards, at)
    ensures Run(cards[at..], source) in GetAllMovables(cards, source)
  {
    var n := |cards|;
    var ms := GetAllMovables(cards, source);
    if |ms| < n {
      RunBreakBelow(cards, at, n - 1 - |ms|);
    }
    assert n - 1 - at < |ms|;
    assert ms[n - 1 - at] == Run(cards[at..], source);
  }

  lemma MovableIsRun(cards: seq<Card>, source: nat, at: nat)
    requires at < |cards| - 1
    requires Run(cards[at..], source) in GetAllMovables(cards, source)
    ensures IsRunFrom(cards, at)
  {
    var n := |cards|;
    var ms := GetAllMovables(cards, source);
    var k :| 0 <= k < |ms| && ms[k] == Run(cards[at..], source);
    assert k != 0;
    MovableAt(cards, source, k);
    assert |ms[k].cards| == n - at == k + 1;
  }

  /** Movable `k` above the top card is the run from `k` below the top. */
  lemma MovableAt(cards: seq<Card>, source: nat, k: nat)
    requires 1 <= k < |GetAllMovables(cards, source)|
    ensures RunAt(cards, source, GetAllMovables(cards, source)[k], |cards| - 1 - k)
  {
  }
}
