/** The plain list operations shared by every container: a hand is the
    sequence of its cards, bottom card first and top card last. The
    container-specific bookkeeping (the global counters) lives in module
    Board; these functions are the part every container inherits. */
module Hands {
  import opened Cards

  /** Appends `c` as the new top card; the earlier cards are unchanged. */
  function AddCard(h: seq<Card>, c: Card): (r: seq<Card>)
    ensures |r| == |h| + 1
    ensures r[|h|] == c && r[..|h|] == h
  {
    h + [c]
  }

  /** The top card: the last element. */
  function TopCard(h: seq<Card>): (c: Card)
    requires |h| > 0
    ensures c in h && c == h[|h| - 1]
  {
    h[|h| - 1]
  }

  /** Removes the card at index `i` and returns it with the remaining cards,
      which keep their order. */
  function RemoveAt(h: seq<Card>, i: nat): (r: (Card, seq<Card>))
    requires i < |h|
    ensures r.0 == h[i]
    ensures |r.1| == |h| - 1
    ensures r.1[..i] == h[..i] && r.1[i..] == h[i + 1..]
    ensures multiset(r.1) + multiset{r.0} == multiset(h)
  {
    assert h == h[..i] + [h[i]] + h[i + 1..];
    (h[i], h[..i] + h[i + 1..])
  }

  /** Removes the top card and returns it with exactly the prefix below it. */
  function RemoveTopCard(h: seq<Card>): (r: (Card, seq<Card>))
    requires |h| > 0
    ensures r.0 == TopCard(h)
    ensures r.1 == h[..|h| - 1]
    ensures r.1 + [r.0] == h
  {
    RemoveAt(h, |h| - 1)
  }

  /** Adding a card and then removing the top card gives back that card and
      the original hand. */
  lemma AddThenRemoveTop(h: seq<Card>, c: Card)
    ensures RemoveTopCard(AddCard(h, c)) == (c, h)
  {
  }

  /** Index of the first card equal to `c` by rank and suit, or -1. */
  function FindCard(h: seq<Card>, c: Card): (k: int)
    ensures -1 <= k < |h|
    ensures k >= 0 ==> SameCard(h[k], c)
    ensures k >= 0 ==> forall j :: 0 <= j < k ==> !SameCard(h[j], c)
    ensures k == -1 ==> forall j :: 0 <= j < |h| ==> !SameCard(h[j], c)
  {
    if |h| == 0 then -1
    else if SameCard(h[0], c) then 0
    else
      var k := FindCard(h[1..], c);
      if k < 0 then -1 else k + 1
  }

  /** Deletes the first card equal to `c` (rank and suit); no-op when there
      is none. */
  function RemoveCard(h: seq<Card>, c: Card): (r: seq<Card>)
    ensures (forall j :: 0 <= j < |h| ==> !SameCard(h[j], c)) ==> r == h
    ensures (exists j :: 0 <= j < |h| && SameCard(h[j], c)) ==>
              exists k :: 0 <= k < |h| && SameCard(h[k], c)
                && (forall j :: 0 <= j < k ==> !SameCard(h[j], c))
                && r == h[..k] + h[k + 1..]
  {
    var k := FindCard(h, c);
    if k >= 0 then RemoveAt(h, k).1 else h
  }

  // ---------------------------------------------------------------------
  // Sorting by rank (the natural ordering of cards)

  /** No card is strictly greater (rank, then suit) than a card after it. */
  predicate SortedByRank(s: seq<Card>) {
    forall i, j :: 0 <= i < j < |s| ==> !RankSuitLess(s[j], s[i])
  }

  /** Inserts `c` into a sorted sequence after every card not greater than
      it, which keeps equal cards in their arrival order. */
  function Insert(c: Card, s: seq<Card>): (r: seq<Card>)
    requires SortedByRank(s)
    ensures SortedByRank(r)
    ensures multiset(r) == multiset(s) + multiset{c}
    ensures |r| == |s| + 1
    decreases |s|
  {
    if |s| == 0 || !RankSuitLess(c, s[|s| - 1]) then
      s + [c]
    else
      var t := Insert(c, s[..|s| - 1]);
      assert s == s[..|s| - 1] + [s[|s| - 1]];
      BoundedByLast(c, s, t);
      t + [s[|s| - 1]]
  }

  /** Every card of `t` (a rearrangement of the cards below the top of `s`,
      plus a card smaller than that top) is not greater than the top of `s`. */
  lemma BoundedByLast(c: Card, s: seq<Card>, t: seq<Card>)
    requires SortedByRank(s) && |s| > 0 && RankSuitLess(c, s[|s| - 1])
    requires multiset(t) == multiset(s[..|s| - 1]) + multiset{c}
    ensures forall i :: 0 <= i < |t| ==> !RankSuitLess(s[|s| - 1], t[i])
  {
    forall i | 0 <= i < |t|
      ensures !RankSuitLess(s[|s| - 1], t[i])
    {
      assert t[i] in multiset(t);
      if t[i] != c {
        assert t[i] in multiset(s[..|s| - 1]);
        var j :| 0 <= j < |s| - 1 && s[..|s| - 1][j] == t[i];
        assert s[j] == t[i];
      }
    }
  }

  /** The hand sorted by rank, then suit: a sorted permutation. */
  function SortByRank(s: seq<Card>): (r: seq<Card>)
    ensures SortedByRank(r)
    ensures multiset(r) == multiset(s)
    ensures |r| == |s|
    decreases |s|
  {
    if |s| == 0 then []
    else
      assert s == s[..|s| - 1] + [s[|s| - 1]];
      Insert(s[|s| - 1], SortByRank(s[..|s| - 1]))
  }

  /** The cards of `s` equal to `k` by rank and suit, in their order in
      `s`. */
  function EqualTo(s: seq<Card>, k: Card): (r: seq<Card>)
    ensures |r| <= |s|
    decreases |s|
  {
    if |s| == 0 then []
    else EqualTo(s[..|s| - 1], k) + (if SameCard(s[|s| - 1], k) then [s[|s| - 1]] else [])
  }

  /** Appending a card extends the cards equal to `k` by it when it is
      one of them. */
  lemma EqualToSnoc(s: seq<Card>, x: Card, k: Card)
    ensures EqualTo(s + [x], k) == EqualTo(s, k) + (if SameCard(x, k) then [x] else [])
  {
    assert (s + [x])[..|s|] == s;
  }

  /** The two shapes of an insertion: at the end, or below the top card. */
  lemma InsertShape(c: Card, s: seq<Card>)
    requires SortedByRank(s)
    ensures |s| == 0 || !RankSuitLess(c, s[|s| - 1]) ==> Insert(c, s) == s + [c]
    ensures |s| > 0 && RankSuitLess(c, s[|s| - 1]) ==>
              Insert(c, s) == Insert(c, s[..|s| - 1]) + [s[|s| - 1]]
  {
  }

  /** Inserting `c` puts it after every card equal to it. */
  lemma {:induction false} InsertStable(c: Card, s: seq<Card>, k: Card)
    requires SortedByRank(s)
    ensures EqualTo(Insert(c, s), k) == EqualTo(s, k) + (if SameCard(c, k) then [c] else [])
    decreases |s|
  {
    InsertShape(c, s);
    if |s| == 0 || !RankSuitLess(c, s[|s| - 1]) {
      EqualToSnoc(s, c, k);
    } else {
      var last := s[|s| - 1];
      var s' := s[..|s| - 1];
      assert s == s' + [last];
      var here := if SameCard(c, k) then [c] else [];
      var there := if SameCard(last, k) then [last] else [];
      EqualToSnoc(Insert(c, s'), last, k);
      InsertStable(c, s', k);
      EqualToSnoc(s', last, k);
      assert here == [] || there == [];
      assert (EqualTo(s', k) + here) + there == (EqualTo(s', k) + there) + here;
    }
  }

  /** The sort is stable: cards equal by rank and suit (which may still
      differ in orientation) keep their relative order. */
  lemma {:induction false} SortStable(s: seq<Card>, k: Card)
    ensures EqualTo(SortByRank(s), k) == EqualTo(s, k)
    decreases |s|
  {
    if |s| > 0 {
      SortStable(s[..|s| - 1], k);
      InsertStable(s[|s| - 1], SortByRank(s[..|s| - 1]), k);
    }
  }

  // ---------------------------------------------------------------------
  // Text form of a hand

  /** The whitespace characters that separate tokens. */
  predicate IsDelimiter(ch: char) {
    ch == ' ' || ch == '\t' || ch == '\n' || ch == '\r' || ch as int == 12
  }

  predicate IsWord(t: string) {
    |t| > 0 && forall i :: 0 <= i < |t| ==> !IsDelimiter(t[i])
  }

  /** End of the word that starts at `i`: the first delimiter at or after
      `i`, or the end of the text. */
  function WordEnd(s: string, i: nat): (k: nat)
    requires i <= |s|
    ensures i <= k <= |s|
    ensures forall j :: i <= j < k ==> !IsDelimiter(s[j])
    ensures k == |s| || IsDelimiter(s[k])
    decreases |s| - i
  {
    if i == |s| || IsDelimiter(s[i]) then i else WordEnd(s, i + 1)
  }

  /** The maximal runs of non-delimiter characters, in text order. */
  function Tokens(s: string): (ts: seq<string>)
    ensures forall i :: 0 <= i < |ts| ==> IsWord(ts[i])
    decreases |s|
  {
    if |s| == 0 then []
    else if IsDelimiter(s[0]) then Tokens(s[1..])
    else
      var k := WordEnd(s, 0);
      [s[..k]] + Tokens(s[k..])
  }

  /** A single word is one token. */
  lemma TokensOfWordAlone(t: string)
    requires IsWord(t)
    ensures Tokens(t) == [t]
  {
    assert WordEnd(t, 0) == |t|;
    assert t[..|t|] == t;
  }

  /** A delimiter splits the text: the tokens on either side of it, in
      order. With `Tokens("") == []` and `TokensOfWordAlone` this fixes
      the tokens of every text. */
  lemma {:induction false} TokensSplit(a: string, d: char, b: string)
    requires IsDelimiter(d)
    ensures Tokens(a + [d] + b) == Tokens(a) + Tokens(b)
    decreases |a|
  {
    var s := a + [d] + b;
    if |a| == 0 {
      assert s[0] == d && s[1..] == b;
    } else if IsDelimiter(a[0]) {
      assert s[0] == a[0];
      assert s[1..] == a[1..] + [d] + b;
      TokensSplit(a[1..], d, b);
    } else {
      assert s[0] == a[0];
      var k := WordEnd(s, 0);
      var ka := WordEnd(a, 0);
      assert forall j :: 0 <= j < |a| ==> s[j] == a[j];
      assert s[|a|] == d;
      if ka < |a| {
        assert k == ka;
        assert s[..k] == a[..k];
        assert s[k..] == a[k..] + [d] + b;
        TokensSplit(a[k..], d, b);
      } else {
        assert k == |a|;
        assert s[..k] == a && a[..ka] == a;
        assert s[k..] == [d] + b && ([d] + b)[1..] == b;
        assert a[ka..] == [];
      }
    }
  }

  /** Builds a hand from text: one card per token, in token order. Every
      token must have at least two characters (the card notation reads two). */
  function ParseHand(s: string): (h: seq<Card>)
    requires forall i :: 0 <= i < |Tokens(s)| ==> |Tokens(s)[i]| >= 2
    ensures |h| == |Tokens(s)|
    ensures forall i :: 0 <= i < |h| ==> h[i] == Decode(Tokens(s)[i])
  {
    var ts := Tokens(s);
    seq(|ts|, i requires 0 <= i < |ts| => Decode(ts[i]))
  }

  /** The text form of a hand: each card's notation followed by a blank. */
  function HandText(h: seq<Card>): (s: string)
    requires forall i :: 0 <= i < |h| ==> ValidCard(h[i])
    ensures |s| == 3 * |h|
  {
    if |h| == 0 then ""
    else
      assert ValidCard(h[0]);
      Encode(h[0]) + " " + HandText(h[1..])
  }

  /** Tokenising a word followed by a blank and more text gives the word,
      then the tokens of the rest. */
  lemma {:induction false} TokensOfWord(t: string, rest: string)
    requires IsWord(t)
    ensures Tokens(t + " " + rest) == [t] + Tokens(rest)
  {
    var s := t + " " + rest;
    assert !IsDelimiter(s[0]);
    var k := WordEnd(s, 0);
    assert s[|t|] == ' ';
    assert k == |t|;
    assert s[..k] == t;
    assert s[k..] == " " + rest;
    assert (" " + rest)[1..] == rest;
  }

  /** Reading back the text of a hand of valid cards gives the hand. */
  lemma {:induction false} ParseHandText(h: seq<Card>)
    requires forall i :: 0 <= i < |h| ==> ValidCard(h[i])
    ensures forall i :: 0 <= i < |Tokens(HandText(h))| ==> |Tokens(HandText(h))[i]| >= 2
    ensures ParseHand(HandText(h)) == h
  {
    TokensOfHandText(h);
  }

  /** The notation of a valid card is one token. */
  lemma EncodeIsWord(c: Card)
    requires ValidCard(c)
    ensures IsWord(Encode(c))
  {
    var e := Encode(c);
    assert e[0] == Ranks[c.rank] || e[0] == Lower(Ranks[c.rank]);
    assert e[1] == Suits[c.suit] || e[1] == Lower(Suits[c.suit]);
  }

  lemma {:induction false} TokensOfHandText(h: seq<Card>)
    requires forall i :: 0 <= i < |h| ==> ValidCard(h[i])
    ensures |Tokens(HandText(h))| == |h|
    ensures forall i :: 0 <= i < |h| ==> Tokens(HandText(h))[i] == Encode(h[i])
    ensures forall i :: 0 <= i < |h| ==> Decode(Encode(h[i])) == h[i]
    decreases |h|
  {
    if |h| > 0 {
      var e := Encode(h[0]);
      EncodeIsWord(h[0]);
      TokensOfWord(e, HandText(h[1..]));
      TokensOfHandText(h[1..]);
      DecodeEncode(h[0]);
      assert HandText(h) == e + " " + HandText(h[1..]);
    }
  }
}
