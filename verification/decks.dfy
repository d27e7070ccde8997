/** The deck: an array of cards with the index of its top card. Cards are
    dealt from the top (the end of the array) downwards. */
module Decks {
  import opened Cards
  import opened Options

  /** `top` is the index of the next card to deal; -1 when the deck is
      empty. */
  datatype Deck = Deck(cards: seq<Card>, top: int)

  predicate Valid(d: Deck) {
    -1 <= d.top < |d.cards|
  }

  predicate AllValid(cs: seq<Card>) {
    forall i :: 0 <= i < |cs| ==> ValidCard(cs[i])
  }

  /** The number of cards still to be dealt. */
  function CardsLeft(d: Deck): (n: int)
    requires Valid(d)
    ensures 0 <= n <= |d.cards|
  {
    d.top + 1
  }

  // ---------------------------------------------------------------------
  // Construction

  /** One pack in construction order: clubs, diamonds, hearts, spades, each
      from ace to king, all face down. */
  function StandardCards(): (cs: seq<Card>)
    ensures |cs| == 52
  {
    seq(52, i requires 0 <= i < 52 => NewCard(i % 13 + 1, i / 13 + 1))
  }

  /** `n` packs one after another, as the multi-pack constructor fills its
      array. */
  function PackCopies(n: nat): (cs: seq<Card>)
    ensures |cs| == 52 * n
  {
    if n == 0 then [] else PackCopies(n - 1) + StandardCards()
  }

  /** The single-pack deck, full. */
  function NewDeck(): (d: Deck)
    ensures Valid(d) && CardsLeft(d) == 52 && |d.cards| == 52
  {
    Deck(StandardCards(), 51)
  }

  /** The deck of `n` packs, full. A negative count would fail in the
      source when the array is created. */
  function NewMultiDeck(n: int): (d: Deck)
    requires n >= 0
    ensures Valid(d) && CardsLeft(d) == 52 * n && |d.cards| == 52 * n
  {
    Deck(PackCopies(n), 52 * n - 1)
  }

  /** Every card of a pack is a valid, face-down card, found at the
      position the construction loops give it. */
  lemma StandardCardsLayout()
    ensures forall i :: 0 <= i < 52 ==> ValidCard(StandardCards()[i]) && !StandardCards()[i].faceUp
    ensures forall r, s :: 1 <= r <= 13 && 1 <= s <= 4 ==>
              StandardCards()[13 * (s - 1) + r - 1] == NewCard(r, s)
  {
  }

  /** Each face-down card of a valid rank and suit is in a pack exactly
      once, and no other card is in it at all. */
  lemma {:induction false} StandardCardsOnce(c: Card)
    ensures multiset(StandardCards())[c] == if ValidCard(c) && !c.faceUp then 1 else 0
  {
    var cs := StandardCards();
    StandardCardsLayout();
    if ValidCard(c) && !c.faceUp {
      var i := 13 * (c.suit - 1) + c.rank - 1;
      assert cs[i] == c;
      forall j | 0 <= j < 52 && j != i
        ensures cs[j] != c
      {
        assert cs[j] == NewCard(j % 13 + 1, j / 13 + 1);
      }
      CountOnce(cs, c, i);
    } else {
      assert c !in cs;
    }
  }

  /** A value found at exactly one position occurs once. */
  lemma {:induction false} CountOnce(s: seq<Card>, c: Card, i: nat)
    requires i < |s| && s[i] == c
    requires forall j :: 0 <= j < |s| && j != i ==> s[j] != c
    ensures multiset(s)[c] == 1
  {
    var lo, hi := s[..i], s[i + 1..];
    assert s == lo + [c] + hi;
    assert forall j :: 0 <= j < |lo| ==> lo[j] == s[j];
    assert forall j :: 0 <= j < |hi| ==> hi[j] == s[i + 1 + j];
    assert c !in lo && c !in hi;
    assert multiset(s) == multiset(lo) + multiset{c} + multiset(hi);
  }

  /** The deck of `n` packs holds each face-down valid card `n` times. */
  lemma {:induction false} PackCopiesCount(n: nat, c: Card)
    ensures multiset(PackCopies(n))[c] == if ValidCard(c) && !c.faceUp then n else 0
  {
    if n > 0 {
      PackCopiesCount(n - 1, c);
      StandardCardsOnce(c);
      assert multiset(PackCopies(n)) == multiset(PackCopies(n - 1)) + multiset(StandardCards());
    }
  }

  // ---------------------------------------------------------------------
  // Shuffling

  /** Every card turned face down, in place. */
  function AllFaceDown(cs: seq<Card>): (r: seq<Card>)
    ensures |r| == |cs|
    ensures forall i :: 0 <= i < |cs| ==> r[i] == FaceDown(cs[i])
  {
    seq(|cs|, i requires 0 <= i < |cs| => FaceDown(cs[i]))
  }

  /** Resets the deck to full, turns every card face down (top index
      downwards), then swaps each position from the top down to 1 with a
      position chosen at random at or below it. The random choice is left
      open: any position in range may be chosen. */
  method Shuffle(d: Deck) returns (r: Deck)
    ensures Valid(r) && CardsLeft(r) == |d.cards| == |r.cards|
    ensures forall i :: 0 <= i < |r.cards| ==> !r.cards[i].faceUp
    ensures multiset(r.cards) == multiset(AllFaceDown(d.cards))
    ensures AllValid(d.cards) ==> AllValid(r.cards)
  {
    var down := TurnAllDown(d.cards);
    var cs := SwapShuffle(down);
    r := Deck(cs, |cs| - 1);
  }

  /** The face-down loop: from the top index down to 0, a face-up card is
      flipped. */
  method TurnAllDown(cs: seq<Card>) returns (r: seq<Card>)
    ensures r == AllFaceDown(cs)
  {
    r := cs;
    var index := |r| - 1;
    while index >= 0
      invariant -1 <= index < |r| && |r| == |cs|
      invariant forall i :: 0 <= i <= index ==> r[i] == cs[i]
      invariant forall i :: index < i < |r| ==> r[i] == FaceDown(cs[i])
    {
      if r[index].faceUp {
        r := r[index := Flip(r[index])];
      }
      index := index - 1;
    }
  }

  /** The swap loop: position `index`, from the top down to 1, is exchanged
      with a position chosen at or below it. */
  method SwapShuffle(cs: seq<Card>) returns (r: seq<Card>)
    ensures |r| == |cs| && multiset(r) == multiset(cs)
    ensures (forall i :: 0 <= i < |cs| ==> !cs[i].faceUp) ==> forall i :: 0 <= i < |r| ==> !r[i].faceUp
    ensures AllValid(cs) ==> AllValid(r)
  {
    r := cs;
    var index := |r| - 1;
    while index > 0
      invariant |r| == |cs| && index < |r|
      invariant multiset(r) == multiset(cs)
    {
      var j :| 0 <= j <= index;
      SwapPerm(r, index, j);
      r := r[index := r[j]][j := r[index]];
      index := index - 1;
    }
    SameElements(cs, r);
  }

  /** Exchanging two positions keeps the multiset of cards. */
  lemma SwapPerm(s: seq<Card>, a: nat, b: nat)
    requires a < |s| && b < |s|
    ensures multiset(s[a := s[b]][b := s[a]]) == multiset(s)
  {
    if a != b {
      var t := s[a := s[b]];
      assert multiset(t) == multiset(s) - multiset{s[a]} + multiset{s[b]};
    }
  }

  /** A rearrangement has exactly the same cards, so it keeps every
      property that all the cards have. */
  lemma SameElements(s: seq<Card>, t: seq<Card>)
    requires multiset(s) == multiset(t)
    ensures (forall i :: 0 <= i < |s| ==> !s[i].faceUp) ==> forall i :: 0 <= i < |t| ==> !t[i].faceUp
    ensures AllValid(s) ==> AllValid(t)
  {
    forall i | 0 <= i < |t|
      ensures t[i] in s
    {
      assert t[i] in multiset(t);
    }
  }

  // ---------------------------------------------------------------------
  // Dealing

  /** The top card, with the deck shortened by one; nothing from an empty
      deck. */
  function DealCard(d: Deck): (r: (Option<Card>, Deck))
    requires Valid(d)
    ensures Valid(r.1) && r.1.cards == d.cards
    ensures CardsLeft(d) > 0 ==> r.0 == Some(d.cards[d.top]) && CardsLeft(r.1) == CardsLeft(d) - 1
    ensures CardsLeft(d) == 0 ==> r.0 == None && r.1 == d
  {
    if d.top >= 0 then (Some(d.cards[d.top]), d.(top := d.top - 1)) else (None, d)
  }

  /** The cards dealt one by one until the deck is empty, in dealing order. */
  function DealAll(d: Deck): (cs: seq<Card>)
    requires Valid(d)
    ensures |cs| == CardsLeft(d)
    ensures forall k :: 0 <= k < |cs| ==> cs[k] == d.cards[d.top - k]
    decreases d.top + 1
  {
    if d.top < 0 then []
    else [d.cards[d.top]] + DealAll(d.(top := d.top - 1))
  }

  /** Dealing everything gives exactly the cards still in the deck. */
  lemma {:induction false} DealAllCards(d: Deck)
    requires Valid(d)
    ensures multiset(DealAll(d)) == multiset(d.cards[..d.top + 1])
    decreases d.top + 1
  {
    if d.top >= 0 {
      var d1 := d.(top := d.top - 1);
      var top, rest := d.cards[d.top], DealAll(d1);
      DealAllCards(d1);
      assert DealAll(d) == [top] + rest;
      assert multiset(DealAll(d)) == multiset{top} + multiset(rest);
      assert d.cards[..d.top + 1] == d.cards[..d.top] + [top];
    }
  }
}
