# FreeCell rule engine in Dafny

This project models the rules of a Java FreeCell game: cards, the sixteen
containers of the table (eight cascades, four free cells, four
foundations), multi-card runs and how many cards may move at once,
recorded moves and their undo, the deck with its shuffle and deal, the
win/loss record, and the rule-level decisions of the game panel. Those
decisions are:

- picking an item up and dropping or returning it;
- autocompletion to the foundations;
- the hint order;
- undo and its gating;
- the win check;
- ending a game;
- dealing a new game.

Every operation is a pure function over immutable data. There is one
exception: the shuffle and the hint's random pick are methods with a
nondeterministic choice.

Modules, one per concern of the program:

| module | file | models |
|---|---|---|
| `Options` | options.dfy | an optional value (the source's `null`) |
| `Cards` | cards.dfy | `Card`: the constructors, `flip`, equality, the two orderings, the stacking rules, the two-character text form |
| `Hands` | hands.dfy | `Hand` and `FreeCellHand` list operations: add, remove, top card, sort, parse from text, print |
| `Board` | board.dfy | the sixteen hands in the panel's order, with the two global counters (`openCascades`, `noOfEmptyFreecells`) as fields; the per-kind overrides of `addCard`, `removeCard` and `clear` |
| `Movables` | movables.dfy | single cards and runs (`Tableau`): where each may be placed, the run capacity, placing, picking up from each kind of hand, `getAllMovables` |
| `Moves` | moves.dfy | `Move` and its `undo`; the log invariant that undoing is always possible |
| `AutoComplete` | autocomplete.dfy | the safety condition and the autocompletion fixed point |
| `Hints` | hints.dfy | `allCascadeMoves` and the decision order of `showHint` |
| `Decks` | decks.dfy | `Deck`: construction, shuffle, deal |
| `Stats` | stats.dfy | `Statistics`: `win`, `lose`, and what the record summarises |
| `Panel` | panel.dfy | the game panel: pressing and releasing the mouse, undo, the win check, ending a game, dealing a new game |

The table's invariant is `Board.Inv`. Its parts are:

- valid cards;
- at most one card per free cell;
- each foundation built ace upwards in one suit;
- both counters equal to a recount of the empty hands of their kind.

The log's invariant is `Moves.Replayable`: undoing the recorded moves from
the last one backwards is always defined, and passes only through tables
that satisfy `Inv`.

What the source does not give the model:

- Hit-testing. The hand and card under the cursor at a press is the
  parameter `spot`. The hands a dropped item overlaps at a release are the
  set `touched`.
- Randomness. The shuffle's swap partner and the hint's random move are
  arbitrary choices in range.

## Model

Source cells are paths from the repository root, with the lines each
member models.

| member | source | states |
|---|---|---|
| Cards.NewCard | src/Card.java:32-36 | the integer constructor keeps rank and suit and yields a face-down card |
| Cards.Flip | src/Card.java:86-99 | the orientation is inverted and rank and suit are unchanged |
| Cards.FlipTwice | src/Card.java:86-99 | flipping twice gives back the same card |
| Cards.CascadeRuleIsOppositeColour | src/Card.java:137-141 | for valid suits, the arithmetic test "different suit, suits not summing to 5" holds iff the card is one rank lower and of the other colour (reds are diamonds and hearts) |
| Cards.CompareTo | src/Card.java:109-116 | the natural order is zero iff the cards are equal by rank and suit; it is negative or positive exactly as the rank-then-suit lexicographic order says |
| Cards.SuitOrderCompare | src/Card.java:181-188 | the suit order is zero iff the cards are equal; its sign follows suit-then-rank lexicographic order |
| Cards.CompareAntisymmetric | src/Card.java:109-116 | both orderings are antisymmetric in sign |
| Cards.Encode | src/Card.java:61-67 | the text is two characters: rank then suit letter, upper case when face up and lower case when face down |
| Cards.Decode | src/Card.java:44-53 | rank and suit are the positions of the upper-cased characters in the two tables, -1 when absent; the card is face up iff the suit character is upper case |
| Cards.DecodeEncode | src/Card.java:44-67 | reading back the text of a valid card gives the same card, orientation included |
| Cards.EncodeDecode | src/Card.java:44-67 | well-formed text (known rank and suit letters, both upper or both lower case) survives decoding and re-encoding unchanged |
| Hands.AddCard | src/com/github/jflaherty/cardgames/freecell/Hand.java:53-56 | the card becomes the new last element and the earlier cards are unchanged |
| Hands.RemoveAt | src/com/github/jflaherty/cardgames/freecell/FreeCellHand.java:86-91 | returns element i; the rest keep their order with only that element gone, and the multiset of cards is preserved |
| Hands.RemoveTopCard | src/com/github/jflaherty/cardgames/freecell/FreeCellHand.java:108-111 | returns the former top card and leaves exactly the prefix below it |
| Hands.AddThenRemoveTop | src/com/github/jflaherty/cardgames/freecell/FreeCellHand.java:68-111 | adding a card and then removing the top gives back that card and the original hand |
| Hands.FindCard | src/com/github/jflaherty/cardgames/freecell/Hand.java:65 | returns the index of the first card equal by rank and suit, or -1 when there is none |
| Hands.RemoveCard | src/com/github/jflaherty/cardgames/freecell/Hand.java:63-68 | removes the first card equal by rank and suit and nothing else; when none is equal, nothing changes |
| Hands.SortByRank | src/com/github/jflaherty/cardgames/freecell/Hand.java:83-86 | the result is a permutation of the hand, sorted by the natural order |
| Hands.SortStable | src/com/github/jflaherty/cardgames/freecell/Hand.java:83-86 | the sort is stable, as `Collections.sort` is: cards equal by rank and suit, which may differ in orientation, keep their relative order |
| Hands.TokensOfWordAlone | src/com/github/jflaherty/cardgames/freecell/Hand.java:39-42 | a text without whitespace is a single token, itself |
| Hands.TokensSplit | src/com/github/jflaherty/cardgames/freecell/Hand.java:39-42 | a whitespace character splits the text: its tokens are those before it followed by those after it; with the empty text having no tokens, this fixes the tokens of every text |
| Hands.ParseHand | src/com/github/jflaherty/cardgames/freecell/Hand.java:37-46 | one card per whitespace-separated token, in token order, each read by the card's text constructor |
| Hands.ParseHandText | src/com/github/jflaherty/cardgames/freecell/Hand.java:37-102 | parsing the printed form of a hand of valid cards gives the hand back |
| Board.CountEmpty | src/com/github/jflaherty/cardgames/freecell/Cascade.java:18 | the count of empty hands in a range is the range's length iff all are empty, and zero iff none is |
| Board.AddCard | src/com/github/jflaherty/cardgames/freecell/Cascade.java:98-111 | the card is appended to hand h and no other hand changes |
| Board.AddCardKeepsCounters | src/com/github/jflaherty/cardgames/freecell/FreeCell.java:58-62 | when the free cell was empty, the override's counter updates keep both counters equal to a recount: the cascade update fires only when the cascade was empty, the free-cell update always fires, the foundation has no update |
| Board.RemoveAt | src/com/github/jflaherty/cardgames/freecell/Cascade.java:120-128 | returns element i of hand h, removes only it, and no other hand changes |
| Board.RemoveAtKeepsCounters | src/com/github/jflaherty/cardgames/freecell/FreeCell.java:84-89 | when the free cell held one card, removing a card keeps both counters accurate: a cascade left empty becomes open, and a free cell always counts one more empty |
| Board.AddCardThenRemoveTop | src/com/github/jflaherty/cardgames/freecell/FreeCellHand.java:68-111 | adding a card and removing the top restores the whole board, counters included |
| Board.RemoveTopThenAddCard | src/com/github/jflaherty/cardgames/freecell/FreeCellHand.java:68-111 | removing the top card and adding it back restores the whole board, counters included |
| Board.Clear | src/com/github/jflaherty/cardgames/freecell/Hand.java:107-110 | the hand is left empty and no other hand changes |
| Board.ClearAllEffect | src/com/github/jflaherty/cardgames/freecell/Cascade.java:133-142 | clearing every hand from some index onwards empties them and keeps the others; each counter is reset to 8 or 4 if a hand of its kind was cleared and is unchanged otherwise |
| Board.ClearAllInv | src/com/github/jflaherty/cardgames/freecell/FreeCell.java:68-75 | after clearing all sixteen hands every hand is empty and the table invariant holds |
| Board.AddAllEffect | src/com/github/jflaherty/cardgames/freecell/Tableau.java:109-117 | placing cards one by one appends them in order; a cascade stops being open only if it was empty and something was added; a free cell loses one empty count per card |
| Board.RemoveTopNEffect | src/com/github/jflaherty/cardgames/freecell/Move.java:44-50 | removing the top card k times leaves the prefix; a cascade becomes open iff it ends empty after losing cards; a free cell gains one empty count per card |
| Board.RemoveFromEffect | src/com/github/jflaherty/cardgames/freecell/Cascade.java:174-179 | removing the card at a fixed index until none remain above it leaves exactly the prefix before that index, with the counters updated as for the removed cards |
| Board.InvBounds | src/com/github/jflaherty/cardgames/freecell/Cascade.java:18 | on a valid table the open-cascade count is between 0 and 8, the empty-cell count is between 0 and 4, and no foundation holds more than 13 cards |
| Board.FoundationLength | src/com/github/jflaherty/cardgames/freecell/FreeCellCard.java:159-170 | a foundation built ace upwards from valid cards holds at most 13 cards |
| Movables.PlacementRules | src/com/github/jflaherty/cardgames/freecell/FreeCellCard.java:152-173 | single-card legality by destination: a non-empty free cell refuses every card; a non-empty cascade takes a card iff it stacks on the top by the cascade rule; a non-empty foundation takes a card iff it follows the top by the foundation rule; an empty cascade or free cell takes any card; an empty foundation takes exactly an ace |
| Movables.Half | src/com/github/jflaherty/cardgames/freecell/Tableau.java:81-84 | Java's integer halving, truncating toward zero for either sign |
| Movables.Capacity | src/com/github/jflaherty/cardgames/freecell/Tableau.java:73-85 | the capacity is never negative and never more than (1 + empty free cells) times 2 to the open cascades; with no open cascade no halving applies and it is one more than the empty free cells |
| Movables.CapacityClosedForm | src/com/github/jflaherty/cardgames/freecell/Tableau.java:73-85 | when there are at least as many open cascades as halvings to apply, the doubling loop and the two conditional halvings give exactly (1 + empty free cells) times 2 to the power of (open cascades, minus one for an empty destination, minus one for an empty source) |
| Movables.CapacityIsStandardBound | src/com/github/jflaherty/cardgames/freecell/Tableau.java:73-85 | on a valid table, between two different cascades the capacity is (1 + empty free cells) times 2 to the power of the empty cascades other than the source and the destination |
| Movables.RunRules | src/com/github/jflaherty/cardgames/freecell/Tableau.java:87-101 | a run longer than the capacity is refused everywhere; on a cascade it is legal iff within capacity and its base card may be placed there; elsewhere only a one-card run can be legal, and then the single-card rule decides |
| Movables.CanPlaceOn | src/com/github/jflaherty/cardgames/freecell/Tableau.java:87-101 | a single card may be placed iff the single-card rule allows it; whatever is placed has a bottom card the single-card rule allows there; only a cascade takes more than one card; a run is never longer than the capacity |
| Movables.CapacityWorkedCase | src/com/github/jflaherty/cardgames/freecell/Tableau.java:73-88 | with 2 empty free cells, 1 open cascade and non-empty source and destination the capacity is 6: a run of 6 may move if its base fits, a run of 7 may not |
| Movables.PlaceOn | src/com/github/jflaherty/cardgames/freecell/Tableau.java:109-117 | the item's cards are appended to the destination in order; the counters change as one-by-one additions change them |
| Movables.PlaceOnKeepsInv | src/com/github/jflaherty/cardgames/freecell/FreeCellCard.java:180-183 | a legal placement of valid cards keeps the table invariant: counters accurate, free cells at most one card, foundations built in order |
| Movables.RunCheck | src/com/github/jflaherty/cardgames/freecell/Cascade.java:80-88 | the pairwise walk accepts index i iff every adjacent pair from i to the top stacks by the cascade rule |
| Movables.CanPickUp | src/com/github/jflaherty/cardgames/freecell/Cascade.java:74-89 | a foundation never gives up a card; a free cell does iff it holds exactly one; a cascade does iff it is empty or the cards from the pointed one up form a run |
| Movables.PickUp | src/com/github/jflaherty/cardgames/freecell/Cascade.java:151-182 | a foundation or an empty hand yields nothing and changes nothing; a free cell yields its card; a cascade yields the top card when pointed at the top, and otherwise the run from the pointed card, leaving exactly the prefix below it; the counters are updated as the removals update them |
| Movables.PickUpRollback | src/com/github/jflaherty/cardgames/freecell/Cascade.java:151-182 | putting the picked-up item back on its source restores the table exactly, counters included |
| Movables.PickUpKeepsInv | src/com/github/jflaherty/cardgames/freecell/FreeCell.java:48-53 | a permitted pick-up keeps the invariant of the table left behind, and the item holds valid cards |
| Movables.GetAllMovables | src/com/github/jflaherty/cardgames/freecell/Cascade.java:36-64 | an empty cascade has no movables; otherwise the first is the top card, and the k-th after it is the run of the top k+1 cards, each a valid run; the list stops exactly at the first broken pair |
| Movables.CanPickUpIffMovable | src/com/github/jflaherty/cardgames/freecell/Cascade.java:74-89 | a pick-up from a non-empty cascade is permitted iff the item it yields is one of the cascade's movables |
| Movables.RunIffMovable | src/com/github/jflaherty/cardgames/freecell/Cascade.java:36-89 | the cards from index i up form a run iff that run is listed among the movables |
| Moves.Undo | src/com/github/jflaherty/cardgames/freecell/Move.java:32-51 | undo puts the moved cards back on top of `from` in order and removes as many from the top of `to`; the two hands keep their combined size; no other hand changes |
| Moves.UndoOfPlace | src/com/github/jflaherty/cardgames/freecell/Move.java:32-51 | undoing a move straight after it gives exactly the board of putting the item back on its source, counters included |
| Moves.UndoOfPlaceRun | src/com/github/jflaherty/cardgames/freecell/Move.java:44-50 | the same for a run: the cascade the move had emptied is occupied again and the counters come back |
| Moves.UndoAfterDrop | src/com/github/jflaherty/cardgames/freecell/Move.java:32-51 | after a pick-up and a drop elsewhere, undoing the recorded move restores the table as it was before the pick-up |
| Moves.ReplayableExtend | src/com/github/jflaherty/cardgames/freecell/Move.java:32-51 | recording a move whose undo leads back to the previous table keeps the log undoable |
| AutoComplete.CanPlaceBelowCard | src/CardPanel.java:361-375 | true iff some card in a cascade or free cell stacks on the given card by the cascade rule |
| AutoComplete.SearchFinds | src/CardPanel.java:313-345 | the scan finds a pair iff some cascade or free cell top may be promoted to some foundation, and it finds the first such pair in scan order |
| AutoComplete.Promote | src/CardPanel.java:329-339 | the top card of the source hand goes onto the foundation; nothing else changes |
| AutoComplete.PromoteKeepsInv | src/CardPanel.java:326-341 | promoting a card that fits keeps the table invariant |
| AutoComplete.UndoPromote | src/CardPanel.java:336-339 | the recorded promotion undoes exactly to the table before it |
| AutoComplete.AutoComplete | src/CardPanel.java:305-352 | switched off, it changes neither the table nor the log |
| AutoComplete.AutoCompleteUnfold | src/CardPanel.java:326-345 | one round promotes the first promotable pair, logs it and restarts, with one card fewer in play |
| AutoComplete.AutoCompleteStops | src/CardPanel.java:305-352 | switched on, it stops only when no cascade or free-cell top may be promoted to any foundation |
| AutoComplete.AutoCompleteLog | src/CardPanel.java:336-345 | it only appends to the log, one entry per card it takes out of play |
| AutoComplete.AutoCompletePromotions | src/CardPanel.java:326-337 | every appended entry is a one-card move from a cascade or free cell to a foundation |
| AutoComplete.AutoCompleteKeepsReplayable | src/CardPanel.java:305-352 | autocompletion keeps the log undoable |
| Hints.AllCascadeMoves | src/CardPanel.java:242-261 | a move is listed iff it goes between two different cascades with one of the source's movables that may be placed on the destination |
| Hints.EmptyCascadeGivesMove | src/CardPanel.java:242-261 | with an empty cascade and a non-empty one there is always a cascade move |
| Hints.NoMoveAllEmpty | src/CardPanel.java:242-261 | if there is no cascade move but some cascade is empty, then every cascade is empty |
| Hints.SingleCardsNoMove | src/CardPanel.java:242-261 | eight one-card cascades, none stacking on another, give no cascade move |
| Hints.HintStep1AsWritten | src/CardPanel.java:419-441 | the first hint step as written: a hint exists iff some free-cell card fits a non-empty free cell or foundation, and the one reported is the first fitting pair in the nested loop's order (free cells outer, destinations inner) |
| Hints.AsWrittenOnlyFoundations | src/CardPanel.java:419-441 | as written, the only targets the first step can ever report are foundations |
| Hints.HintStep1 | src/CardPanel.java:417-441 | the first hint step as its comment describes it: a hint exists iff some free-cell card fits a non-empty cascade or foundation, and the one reported fits and no pair earlier in the nested loop's order (free cells outer, destinations inner) fits |
| Hints.MissedHint | src/CardPanel.java:417-441 | on a concrete table the step as written finds nothing, although a free-cell card fits a cascade |
| Hints.MissedHintNoOtherMove | src/CardPanel.java:443-502 | on that table there is no cascade move either and no free cell is empty, so the source would announce that no moves remain |
| Hints.LeastCascade | src/CardPanel.java:465-471 | the cascade with the fewest cards, the lowest index on ties |
| Hints.FirstEmptyFreeCell | src/CardPanel.java:473-476 | the first empty free cell, or none when all are occupied |
| Hints.LastResort | src/CardPanel.java:462-502 | with an empty free cell the hint moves the top of the smallest cascade, the lowest-numbered one on a tie, into the first empty free cell (a fault when that cascade is empty); with none it announces no moves |
| Hints.HintStep | src/CardPanel.java:419-441 | the first hint step with either choice of destinations: a hint exists iff some free-cell card fits a non-empty destination of that choice, and it is the first such pair in the nested loop's order |
| Hints.ShowHint | src/CardPanel.java:415-503 | with the destinations as written (free cells and foundations) or as intended (cascades and foundations): the first pair of the free-cell step if there is one, else one of the cascade moves, else the last resort; a well-formed table always gets a hint |
| Hints.MissedHintShown | src/CardPanel.java:415-503 | on the table of the finding the whole hint as written announces that no moves remain, and as intended suggests the five in the first free cell onto the first cascade |
| Decks.NewDeck | src/Deck.java:39-51 | the single-pack deck holds 52 cards and all are left to deal |
| Decks.StandardCardsLayout | src/Deck.java:39-51 | every card is valid and face down, and rank r of suit s is at position 13(s-1)+r-1 |
| Decks.StandardCardsOnce | src/Deck.java:39-51 | each face-down valid card appears in the pack exactly once, and no other card appears |
| Decks.NewMultiDeck | src/Deck.java:18-34 | the n-pack deck holds 52n cards, all left to deal, for counts whose 52n fits an `int` |
| Decks.PackCopiesCount | src/Deck.java:18-34 | the n-pack deck holds each face-down valid card exactly n times |
| Decks.CardsLeft | src/Deck.java:80-83 | the number of cards left is between 0 and the array length |
| Decks.Shuffle | src/Deck.java:56-73 | after a shuffle the deck is full again, every card is face down, and the cards are a permutation of the previous array turned face down |
| Decks.TurnAllDown | src/Deck.java:58-64 | the face-down loop turns every card face down in place |
| Decks.SwapShuffle | src/Deck.java:66-72 | the swap loop yields a permutation |
| Decks.DealCard | src/Deck.java:90-95 | on a non-empty deck it returns the top card and one card fewer is left; on an empty deck it returns nothing and the deck is unchanged |
| Decks.DealAll | src/Deck.java:90-95 | dealing until empty yields the cards from the top index downwards |
| Decks.DealAllCards | src/Deck.java:80-95 | dealing until empty yields each card still in the deck exactly once |
| Stats.Fresh | src/com/github/jflaherty/cardgames/freecell/Statistics.java:21-29 | a new record has every count zero and the largest int as its least moves |
| Stats.Win | src/com/github/jflaherty/cardgames/freecell/Statistics.java:79-88 | games, wins and the current streak go up by one; the longest streak becomes the larger of itself and the current streak; least moves becomes the smaller of itself and the move count; validity is preserved |
| Stats.Lose | src/com/github/jflaherty/cardgames/freecell/Statistics.java:93-97 | games goes up by one and the current streak drops to zero; wins, longest streak and least moves are kept, and so is validity |
| Stats.ReplayCounts | src/com/github/jflaherty/cardgames/freecell/Statistics.java:79-97 | after any history of results the record is valid (current streak ≤ longest streak ≤ wins ≤ games), games counts the results and wins counts the wins |
| Stats.ReplayCurrent | src/com/github/jflaherty/cardgames/freecell/Statistics.java:79-97 | the current streak is the length of the run of wins that ends the history |
| Stats.ReplayLongest | src/com/github/jflaherty/cardgames/freecell/Statistics.java:79-85 | the longest streak is the length of the longest run of consecutive wins anywhere in the history |
| Stats.ReplayLeast | src/com/github/jflaherty/cardgames/freecell/Statistics.java:86-87 | the least moves is at most the move count of every win, and it is either the largest int or the move count of some win |
| Panel.CheckForWinner | src/CardPanel.java:382-391 | the game is won iff every foundation holds at least 13 cards |
| Panel.WinnerComplete | src/CardPanel.java:382-391 | on a valid table a win means each foundation holds exactly ace to king of one suit |
| Panel.CanShowHint | src/CardPanel.java:398-410 | a hint can be shown iff the game is not won and some hand holds a card |
| Panel.CanUndo | src/CardPanel.java:230-235 | undo is possible iff the log is not empty and some foundation holds fewer than 13 cards, so never once the game is won |
| Panel.PutBack | src/CardPanel.java:619-622 | a carried item goes back on the hand it came from and nothing is carried; the log, record, deck and switch are kept; the game invariant is kept |
| Panel.PressThenPutBack | src/CardPanel.java:552-577 | putting back what a press lifted gives back the game before the press |
| Panel.Undo | src/CardPanel.java:191-199 | a carried item is first put back on its source; then without `canUndo` nothing else changes, and otherwise the last move is removed from the log and undone on the table; nothing is carried afterwards and the game invariant is kept |
| Panel.UndoAsWritten | src/CardPanel.java:191-199 | the source's undo, which Ctrl+Z can also run during a drag: the last move is undone on the table without the carried cards and the item stays carried; it fails exactly when the hand the move went to is too short |
| Panel.UndoAsWrittenAgrees | src/CardPanel.java:191-199 | between mouse gestures the source's undo and the corrected one give the same game |
| Panel.UndoWhileCarrying | src/CardPanel.java:584-624 | undo during a drag is the same as releasing over no accepting hand and then undoing |
| Panel.UndoDuringDragLosesCard | src/com/github/jflaherty/cardgames/freecell/Move.java:36-40 | on a concrete game with the seven of spades carried after being moved onto the eight of hearts, the source's undo takes the eight off its cascade, and returning the carried seven leaves two sevens of spades on the table and no eight of hearts |
| Panel.UndoDuringDragCorrected | src/CardPanel.java:191-199 | on that game the corrected undo restores the table before the move |
| Panel.EndGame | src/CardPanel.java:204-222 | with no card on the table nothing changes; otherwise one more game is counted, as a win with the log's length as its move count iff the game is won, else as a loss; the record is exactly `Stats.Win(stats, |log|)` or `Stats.Lose(stats)`, and nothing but the record changes |
| Panel.MousePressed | src/CardPanel.java:552-577 | a press while an item is carried, or away from any hand, changes nothing; a refused press changes nothing; a permitted pick-up from a non-empty hand carries exactly the item the hand gives up and leaves the table the pick-up leaves, the source hand without exactly those top cards, and putting the item back restores the table; the game invariant is kept |
| Panel.FirstAccepting | src/CardPanel.java:588-593 | the drop target is the first hand, in table order, that the item touches and may be placed on |
| Panel.MouseReleased | src/CardPanel.java:584-624 | with nothing carried nothing changes; after a release nothing is carried and the deck and the autocomplete switch are unchanged |
| Panel.ReleaseRollsBack | src/CardPanel.java:619-622 | when no touched hand accepts the item, it goes back on its source and nothing is logged |
| Panel.ReleaseCases | src/CardPanel.java:584-624 | a release either returns the item to its source or drops it on the first accepting touched hand |
| Panel.DropLogs | src/CardPanel.java:594-616 | a drop keeps the earlier log, adds the move iff the destination differs from the source, then only promotions, one per card the promotions take out of play; with autocomplete off the table is exactly the placement, and with it on no top card is left that may be promoted; the record gains a win with the log's length iff the game is then won |
| Panel.ReleaseKeepsInv | src/CardPanel.java:584-624 | a release keeps the game invariant: the table is valid and the log undoable |
| Panel.DropThenUndo | src/CardPanel.java:552-624 | with autocomplete off, a pick-up and a drop on another hand followed by undo restore the table and the log from before the pick-up |
| Panel.InitialGame | src/CardPanel.java:77-126 | the panel as constructed: sixteen empty hands in the order cascades, free cells, foundations, an empty log, nothing carried, the new standard deck (each of the 52 cards once, face down, all left to deal, as `Decks.NewDeck` states), the open-cascade counter at its default 0 although all eight cascades are empty, and the empty-cell counter at 4 from the four free-cell constructors |
| Panel.NewGame | src/CardPanel.java:132-160 | a new game leaves an empty log and a valid table; the dealt cards are a permutation of the deck turned face down, dealt face up round-robin from the top, cascade j receiving the cards at dealing positions j, j+8, ...; the deck ends empty |
| Panel.DealFromDeals | src/CardPanel.java:141-155 | dealing from any point of the round robin to the end keeps the invariant and completes the layout |
| Panel.LayoutSizes | src/CardPanel.java:141-155 | after dealing n cards round-robin, cascade j holds n/8 cards plus one more when j < n mod 8 |
| Panel.FiftyTwoCardDeal | src/CardPanel.java:141-155 | a 52-card deal gives cascades 0 to 3 seven cards and cascades 4 to 7 six |

## Left out

- Painting, images, animation, flashing and delays are not modelled. Hit-testing (`contains`, `intersects`, rectangles, positions) is not modelled either. The pressed spot and the touched hands are parameters instead.
- The random draws are not modelled as a concrete generator: the shuffle's swap partner and the hint's random cascade move are arbitrary choices in range.
- Statistics persistence (`writeToFile`, `readFromFile`) is left out: it is file I/O. So is `info()`, which formats floating-point percentages.
- `FreeCellDeck.java` and `FreeCellMain.java` are not part of this model: one wraps an outside card library, the other builds windows and menus. The one rule-level fact taken from the menus is that Undo has the Ctrl+Z shortcut (see Findings).
- The static toggles `changeAutoComplete` and `changeAnimation` are left out. The autocomplete switch is a field of the game. Animation has no rule content.
- Deck aliasing is left out. In the source the dealt card objects are the deck's own, so flipping them face up also flips the deck array. The model keeps the deck's cards as they were shuffled.
- Panel.NewGame: requires that nothing is carried. The New Game item has no keyboard shortcut, so during a drag it is reachable only by opening the menu from the keyboard; that path is not modelled.
- The initial counters of the source are 0 and 4. They match the empty table only after the first `newGame` clears every hand. So `Panel.InitialGame` states the counters it starts with, and `Board.Inv` is first established by `Board.ClearAllInv` inside `Panel.NewGame`.
- Cards.CompareTo: the source subtracts ranks, then suits, in 32-bit `int` (src/Card.java:111-115); the model subtracts unbounded integers. For ranks or suits near `Integer.MIN_VALUE` or `Integer.MAX_VALUE` the Java difference wraps and can have the opposite sign. The program only builds ranks -1 to 13 and suits -1 to 4, where no wrap occurs.
- Cards.SuitOrderCompare: the same 32-bit wrap of `first.suit - second.suit` and of the rank difference (src/Card.java:183-187) is not modelled, for the same reason.
- Movables.Capacity: Java's 32-bit `int` overflow is not modelled. With at most 4 free cells and 8 cascades the product stays far below 2^31.
- Cards.Decode: requires at least two characters. The source's `charAt(1)` throws `StringIndexOutOfBoundsException` on shorter text, and that exception path is not modelled.
- Cards.Decode: case is handled for ASCII letters only, through `Cards.Upper` and `Cards.IsUpperCase`. Java's `Character.toUpperCase` maps 'ſ' (U+017F) to 'S', so the source reads "Aſ" as a face-down ace of spades where the model gives suit -1. Java's `Character.isUpperCase` is true of non-ASCII capitals such as 'À', so the source reads "AÀ" as face up where the model reads it as face down; both give suit -1.
- Cards.Encode: requires a rank and a suit inside the tables. For any other value the source's `RANKS.charAt` or `SUITS.charAt` throws (src/Card.java:64-66), and that exception path is not modelled.
- Hands.ParseHand: requires every token to have at least two characters. The source throws on a one-character token through the card's text constructor, and that exception path is not modelled.
- Hands.ParseHand: the packaged `Hand`, `Cascade`, `FreeCellHand` and `Tableau` classes import the card class `com.github.jflaherty.cardgames.playingcards.french.Card` of an outside card library (src/com/github/jflaherty/cardgames/freecell/Hand.java:6-7). That class is not part of this model. The model reads every token with the decoding of src/Card.java instead, which gives rank or suit -1 for an unknown character. The library's text constructor declares `IllegalCardException` (Hand.java:35-37), so on a malformed token the source may throw where the model returns a card with -1 in it.
- Decks.NewMultiDeck: requires a pack count of at least 0. For a negative count the source's `new Card[noOfDecks * 52]` throws `NegativeArraySizeException` (src/Deck.java:20), and that exception path is not modelled. The product `noOfDecks * 52` is also a 32-bit `int`: for every count of 41,297,763 or more it wraps, and the source throws `NegativeArraySizeException`, or `ArrayIndexOutOfBoundsException` when the wrapped size comes out small. The model has no such bound and returns a 52n-card deck.
- Stats.Win: the record's counts are unbounded integers in the model. In the source they are `int` fields incremented by `win` and `lose` (src/com/github/jflaherty/cardgames/freecell/Statistics.java:81-83 and 95), so after 2^31 - 1 results a count wraps to `Integer.MIN_VALUE`. That wrap is not modelled, so `Stats.Win`, `Stats.Lose` and the lemmas `Stats.ReplayCounts`, `Stats.ReplayCurrent`, `Stats.ReplayLongest` and `Stats.ReplayLeast` keep validity and count the history only up to that many results.
- Panel.MouseReleased: its own contract only says that nothing is carried afterwards. Where the item goes, what is logged and that the game invariant is kept are stated by `Panel.ReleaseCases`, `Panel.ReleaseRollsBack`, `Panel.DropLogs` and `Panel.ReleaseKeepsInv`.
- Pick-up search direction: `Cascade.canPickUp` searches with `index >= 0` and `pickUp` with `index > 0`. Both find the same card whenever the point is on the cascade. The model therefore takes the card index under the point as a parameter.
- Hint step 1: the program's own description says a free-cell card is tried on cascades or foundations. The code scans free cells and foundations. `Hints.ShowHint` takes the choice as a parameter: `FreeCellsAndFoundations` runs the code as written and `CascadesAndFoundations` runs the described step. The difference is recorded under Findings.
- Undo during a drag: the source runs `undo` on the table without the carried cards (see Findings). `Panel.UndoAsWritten` models that. `Panel.Undo` first puts the carried item back. The exception the source throws when the destination hand is too short is modelled as no result.

## Findings

| source | as written | input that shows it | evidently intended | confidence | as-written member | corrected member |
|---|---|---|---|---|---|---|
| src/CardPanel.java:419-441 | the first hint step tries each free-cell card on `allHands.subList(8, 16)`, the free cells and foundations; a free cell holding a card never accepts another, so only foundations can answer | `Hints.ShowsMissedHint`: the five of hearts in the first free cell and the six of spades alone on the first cascade; every free cell full, every cascade a single card that stacks on no other, foundations empty and no ace in play | try each free-cell card on the cascades and foundations, as the comment at lines 417-418 says; on that table the hint would be the five onto the six instead of "no more moves" | not executed | Hints.HintStep1AsWritten (with Hints.MissedHint, Hints.MissedHintNoOtherMove, Hints.MissedHintShown) | Hints.HintStep1 (Hints.ShowHint with CascadesAndFoundations) |
| src/CardPanel.java:191-199 | `undo` has a Ctrl+Z shortcut (src/FreeCellMain.java:58-60), so it can run while the mouse carries an item. `Move.undo` then works on the table without the carried cards: it takes the top card off the move's destination, whatever that card now is, and puts the recorded card back on the source; the release later puts the carried item back too | `Panel.CarryingAfterMove`: the seven of spades moved from the first cascade onto the eight of hearts on the fourth, then pressed again and carried; Ctrl+Z takes the eight of hearts off the fourth cascade, and the release puts the seven back: two sevens of spades on the table, the eight of hearts gone | an undo during a drag first returns the carried item to where it came from (or undo is refused while dragging); on that game undo then gives back the table before the move | not executed | Panel.UndoAsWritten (with Panel.UndoDuringDragLosesCard) | Panel.Undo (with Panel.UndoDuringDragCorrected) |
