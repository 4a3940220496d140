/** Two defects of the difficulty selector as the game writes it, each shown on
    a concrete input, next to the corrected behaviour the rest of the model uses. */
module Findings {
  import opened Cards
  import opened Engine
  import opened Invariants
  import opened Session

  // ----- Easy mode can strand a card ------------------------------------------

  /** A shuffle that puts one strawberry and one cherry after the twelfth place. */
  const StrandingShuffle: seq<Symbol> :=
    [ Apple, Apple, Banana, Banana, Grapes, Grapes, Orange, Orange,
      Watermelon, Watermelon, Strawberry, Cherry, Strawberry, Cherry ]

  /** The shuffle is a rearrangement of the fourteen faces: it swaps the
      twelfth and thirteenth entries of the unshuffled list. */
  lemma StrandingShuffleIsShuffle()
    ensures IsShuffleOf(StrandingShuffle, CardImages)
  {
    var front, back := CardImages[..11], CardImages[13..];
    assert CardImages == front + [Strawberry, Cherry] + back;
    assert StrandingShuffle == front + [Cherry, Strawberry] + back;
    assert multiset([Cherry, Strawberry]) == multiset([Strawberry, Cherry]);
  }

  /** The first twelve entries of the shuffle hold one strawberry: the
      unshuffled list holds two in its first twelve, the last of them in
      twelfth place, where the shuffle puts a cherry. */
  lemma StrandingCutTally()
    ensures multiset(StrandingShuffle[..12])[Strawberry] == 1
  {
    assert StrandingShuffle[..12] == CardImages[..11] + [Cherry];
    assert CardImages[..12] == CardImages[..11] + [Strawberry];
    FirstTwelveListed(Strawberry);
  }

  /** The shuffle lists every face twice, so the game can deal from it. */
  lemma StrandingShuffleIsFull()
    ensures FullShuffle(StrandingShuffle)
  {
    StrandingShuffleIsShuffle();
    FullShuffleIsRearrangement(StrandingShuffle);
  }

  /** The easy deck cut from that shuffle holds a single strawberry. */
  lemma StrandingShuffleCutsAPair()
    ensures FullShuffle(StrandingShuffle)
      && Occurrences(DeckForLevelAsWritten(Easy, StrandingShuffle), Strawberry) == 1
  {
    StrandingShuffleIsFull();
    EasyCutImages(StrandingShuffle);
    StrandingCutTally();
    OccurrencesMultiplicity(DeckForLevelAsWritten(Easy, StrandingShuffle), Strawberry);
  }

  /** When the twelve-card cut leaves some face alone, the easy game the
      selector deals can never be finished, whatever the player does. */
  lemma EasyDeckAsWrittenNeverCompletes(g: Game, shuffled: seq<Symbol>, s: Symbol, es: seq<Event>)
    requires g.level != Easy && g.sel == []
    requires FullShuffle(shuffled)
    requires Occurrences(DeckForLevelAsWritten(Easy, shuffled), s) == 1
    requires OnBoard(12, es)
    ensures !Run(SetDifficultyAsWritten(g, Easy, shuffled), es).gameOver
  {
    var e := SetDifficultyAsWritten(g, Easy, shuffled);
    FreshValid(e);
    NeverCompletes(e, es, s);
  }

  // ----- The selection survives a difficulty change ---------------------------

  /** A click on a face-down card when nothing is selected and the game is
      unfinished selects that card and nothing else. */
  lemma FirstClick(g: Game, i: nat)
    requires InRange(g) && i < |g.deck| && g.sel == []
    requires !g.deck[i].flipped && !g.deck[i].matched && g.matchedCount != |g.deck|
    ensures Play(g, i).sel == [i] && Play(g, i).level == g.level
  {
    var c := Click(g, i);
    assert c.sel == [i];
    assert Resolve(c) == c;
  }

  /** A second click on the index already selected, on a face-down deck with
      nothing matched, selects it twice, and the pair "matches" itself. */
  lemma SameIndexTwice(g: Game) returns (r: Game)
    requires InRange(g) && g.sel == [0] && |g.deck| > 2 && FaceDown(g.deck) && g.matchedCount == 0
    ensures r == Play(g, 0)
    ensures r.sel == [] && r.moves == g.moves + 1 && r.matchedCount == 2
    ensures CountMatched(r.deck) == 1 && !Valid(r)
  {
    r := Play(g, 0);
    var d := g.deck;
    var c := Click(g, 0);
    assert c.sel == [0, 0];
    var d1 := MarkMatched(Turn(d, 0, true), 0);
    TurnKeepsCounts(d, 0, true);
    MatchCounts(Turn(d, 0, true), 0);
    assert CountMatched(d) == 0 by {
      assert forall k :: 0 <= k < |d| ==> !IsMatched(d[k]);
    }
    assert MarkMatched(d1, 0) == d1;
    assert Resolve(c).deck == d1;
  }

  /** The opening click of a session selects the clicked card and keeps the
      invariant. */
  lemma OpeningClick(shuffled: seq<Symbol>, i: nat) returns (p: Game)
    requires LevelShuffle(Medium, shuffled) && i < 14
    ensures p == Play(Start(shuffled, 0), i)
    ensures p.sel == [i] && p.level == Medium && |p.deck| == 14 && Valid(p)
  {
    var g0 := Start(shuffled, 0);
    StartValid(shuffled, 0);
    FirstClick(g0, i);
    PlayPreservesValid(g0, i);
    p := Play(g0, i);
  }

  /** The difficulty change as written deals a fresh twelve-card deck but
      leaves the selection as it was. */
  lemma SwitchKeepsSelection(p: Game, easy: seq<Symbol>) returns (g: Game)
    requires FullShuffle(easy) && p.level != Easy
    ensures g == SetDifficultyAsWritten(p, Easy, easy)
    ensures g.sel == p.sel && g.pending == [] && |g.deck| == 12 && FaceDown(g.deck) && g.matchedCount == 0
  {
    g := SetDifficultyAsWritten(p, Easy, easy);
  }

  /** With card 0 selected (as after the opening click), switching to easy
      and clicking card 0 again selects the same index twice: the pair
      "matches", `matchedCount` becomes 2 while one card is matched, and the
      invariant is lost. */
  lemma StaleSelection(p: Game, easy: seq<Symbol>) returns (g: Game, r: Game)
    requires p.sel == [0] && p.level != Easy && FullShuffle(easy)
    ensures g == SetDifficultyAsWritten(p, Easy, easy) && g.sel == [0]
    ensures r == Play(g, 0)
    ensures r.matchedCount == 2 && CountMatched(r.deck) == 1 && !Valid(r)
  {
    g := SwitchKeepsSelection(p, easy);
    r := SameIndexTwice(g);
  }

  /** Clicking card 13 and then switching to easy leaves an index past the end
      of the twelve-card deck selected; the next comparison would read a card
      that does not exist. */
  lemma StaleSelectionOffTheDeck(shuffled: seq<Symbol>, easy: seq<Symbol>) returns (g: Game)
    requires LevelShuffle(Medium, shuffled) && FullShuffle(easy)
    ensures g == SetDifficultyAsWritten(Play(Start(shuffled, 0), 13), Easy, easy)
    ensures g.sel == [13] && |g.deck| == 12 && !InRange(g)
  {
    var p := OpeningClick(shuffled, 13);
    g := SwitchKeepsSelection(p, easy);
    assert g.sel[0] == 13;
  }

  /** With the corrected selector the same clicks keep the invariant:
      changing the level clears the selection, so the second click selects one
      card and the matched count stays the number of matched cards. */
  lemma SelectionClearedOnDifficulty(shuffled: seq<Symbol>, easy: seq<Symbol>) returns (g: Game, r: Game)
    requires LevelShuffle(Medium, shuffled) && LevelShuffle(Easy, easy)
    ensures g == SetDifficulty(Play(Start(shuffled, 0), 0), Easy, easy)
    ensures g.sel == [] && |g.deck| == 12 && Valid(g)
    ensures r == Play(g, 0)
    ensures r.sel == [0] && Valid(r)
  {
    var p := OpeningClick(shuffled, 0);
    g := SetDifficulty(p, Easy, easy);
    SetDifficultyPreservesValid(p, Easy, easy);
    FirstClick(g, 0);
    PlayPreservesValid(g, 0);
    r := Play(g, 0);
  }
}
