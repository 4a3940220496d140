/** Every transition of the engine keeps the session invariant `Valid`: the
    selection holds at most two different face-up cards in play, every face-up
    card is matched, selected or waiting for its timer, `matchedCount` is the
    number of matched cards, and matched cards come in pairs of one face.
    Each transition is taken one part of the invariant at a time. */
module Invariants {
  import opened Cards
  import opened Engine

  /** A freshly dealt game (face-down deck, nothing selected or pending,
      counters at zero) satisfies the invariant. */
  lemma FreshValid(g: Game)
    requires Positional(g.deck) && FaceDown(g.deck)
    requires g.sel == [] && g.pending == [] && g.matchedCount == 0 && !g.gameOver
    ensures Valid(g)
  {
    assert CountMatched(g.deck) == 0;
    forall s ensures MatchedOf(g.deck, s) == 0 {
      assert forall k :: 0 <= k < |g.deck| ==> !MatchedShowing(s)(g.deck[k]);
    }
  }

  lemma StartValid(shuffled: seq<Symbol>, stored: nat)
    requires LevelShuffle(Medium, shuffled)
    ensures Valid(Start(shuffled, stored))
  {
    FreshValid(Start(shuffled, stored));
  }

  lemma RestartValid(g: Game, shuffled: seq<Symbol>)
    requires FullShuffle(shuffled)
    ensures Valid(Restart(g, shuffled))
  {
    FreshValid(Restart(g, shuffled));
  }

  lemma SetDifficultyPreservesValid(g: Game, level: Level, shuffled: seq<Symbol>)
    requires Valid(g)
    requires LevelShuffle(level, shuffled)
    ensures Valid(SetDifficulty(g, level, shuffled))
  {
    if level != g.level {
      FreshValid(SetDifficulty(g, level, shuffled));
    }
  }

  /** A state that differs from a valid one only in the clock, the best score
      or a game-over flag backed by a full matched count is valid. */
  lemma SameBoardValid(g: Game, r: Game)
    requires Valid(g)
    requires r.deck == g.deck && r.sel == g.sel && r.pending == g.pending && r.matchedCount == g.matchedCount
    requires r.gameOver ==> r.matchedCount == |r.deck|
    ensures Valid(r)
  {
  }

  // ----- Clicking -------------------------------------------------------------

  /** The clicked card was face-down, so it was neither selected nor waiting. */
  lemma ClickedCardIsIdle(g: Game, i: nat)
    requires Valid(g) && i < |g.deck| && !Refused(g, i)
    ensures i !in g.sel
    ensures forall p :: 0 <= p < |g.pending| ==> !Touches(g.pending[p], i)
  {
    forall p | 0 <= p < |g.pending| ensures !Touches(g.pending[p], i) {
      assert PendingPair(g.deck, g.sel, g.pending[p]);
    }
  }

  lemma ClickKeepsSelection(g: Game, i: nat)
    requires Valid(g) && i < |g.deck| && !Refused(g, i)
    ensures SelectionOk(Click(g, i).deck, Click(g, i).sel)
  {
    var r := Click(g, i);
    ClickedCardIsIdle(g, i);
    forall k | 0 <= k < |r.sel| ensures Showing(r.deck, r.sel[k]) {
      if k < |g.sel| {
        assert r.sel[k] == g.sel[k] && g.sel[k] != i;
      }
    }
  }

  lemma ClickKeepsTimers(g: Game, i: nat)
    requires Valid(g) && i < |g.deck| && !Refused(g, i)
    ensures TimersOk(Click(g, i).deck, Click(g, i).sel, Click(g, i).pending)
  {
    var r := Click(g, i);
    ClickedCardIsIdle(g, i);
    forall p | 0 <= p < |r.pending| ensures PendingPair(r.deck, r.sel, r.pending[p]) {
      assert PendingPair(g.deck, g.sel, g.pending[p]);
      assert !Touches(g.pending[p], i);
    }
  }

  lemma ClickKeepsFaceUp(g: Game, i: nat)
    requires Valid(g) && i < |g.deck| && !Refused(g, i)
    ensures FaceUpAccounted(Click(g, i).deck, Click(g, i).sel, Click(g, i).pending)
  {
    var r := Click(g, i);
    forall k | 0 <= k < |r.deck| && r.deck[k].flipped && !r.deck[k].matched
      ensures k in r.sel || Waiting(r.pending, k)
    {
      if k != i {
        assert g.deck[k] == r.deck[k];
      }
    }
  }

  lemma ClickPreservesValid(g: Game, i: nat)
    requires Valid(g) && i < |g.deck|
    ensures Valid(Click(g, i))
  {
    if !Refused(g, i) {
      ClickKeepsSelection(g, i);
      ClickKeepsTimers(g, i);
      ClickKeepsFaceUp(g, i);
      TurnKeepsCounts(g.deck, i, true);
    }
  }

  // ----- Comparing the selected pair ------------------------------------------

  /** While a card is selected the game is not over: a selected card is
      unmatched, so not every card is. */
  lemma SelectedMeansNotOver(g: Game)
    requires Valid(g) && |g.sel| > 0
    ensures !g.gameOver
  {
    CountFull(g.deck, IsMatched);
    assert !IsMatched(g.deck[g.sel[0]]);
  }

  /** The selected cards are two different cards in play, named by no timer. */
  lemma SelectedPairIsFree(g: Game)
    requires Valid(g) && |g.sel| == 2
    ensures g.sel[0] != g.sel[1]
    ensures Showing(g.deck, g.sel[0]) && Showing(g.deck, g.sel[1])
    ensures forall p :: 0 <= p < |g.pending| ==> !Touches(g.pending[p], g.sel[0]) && !Touches(g.pending[p], g.sel[1])
  {
    forall p | 0 <= p < |g.pending|
      ensures !Touches(g.pending[p], g.sel[0]) && !Touches(g.pending[p], g.sel[1])
    {
      assert PendingPair(g.deck, g.sel, g.pending[p]);
    }
  }

  lemma MatchKeepsTimers(g: Game)
    requires Valid(g) && |g.sel| == 2 && SelectionMatches(g)
    ensures TimersOk(Resolve(g).deck, Resolve(g).sel, Resolve(g).pending)
  {
    var r := Resolve(g);
    SelectedPairIsFree(g);
    forall p | 0 <= p < |r.pending| ensures PendingPair(r.deck, r.sel, r.pending[p]) {
      var m := g.pending[p];
      assert PendingPair(g.deck, g.sel, m);
      assert r.deck[m.first] == g.deck[m.first] && r.deck[m.second] == g.deck[m.second];
    }
  }

  lemma MatchKeepsFaceUp(g: Game)
    requires Valid(g) && |g.sel| == 2 && SelectionMatches(g)
    ensures FaceUpAccounted(Resolve(g).deck, Resolve(g).sel, Resolve(g).pending)
  {
    var r := Resolve(g);
    var a, b := g.sel[0], g.sel[1];
    SelectedPairIsFree(g);
    forall k | 0 <= k < |r.deck| && r.deck[k].flipped && !r.deck[k].matched
      ensures k in r.sel || Waiting(r.pending, k)
    {
      assert k != a && k != b && r.deck[k] == g.deck[k];
      assert k !in g.sel;
    }
  }

  /** Matching the selected pair keeps the invariant. */
  lemma MatchPreservesValid(g: Game)
    requires Valid(g) && |g.sel| == 2 && SelectionMatches(g)
    ensures Valid(Resolve(g))
  {
    var r := Resolve(g);
    var a, b := g.sel[0], g.sel[1];
    SelectedMeansNotOver(g);
    SelectedPairIsFree(g);
    MatchKeepsTimers(g);
    MatchKeepsFaceUp(g);
    MatchPairCounts(g.deck, a, b);
    assert r.deck == MarkMatched(MarkMatched(g.deck, a), b);
  }

  lemma MismatchKeepsTimers(g: Game)
    requires Valid(g) && |g.sel| == 2 && !SelectionMatches(g)
    ensures TimersOk(Resolve(g).deck, Resolve(g).sel, Resolve(g).pending)
  {
    var r := Resolve(g);
    SelectedPairIsFree(g);
    forall p | 0 <= p < |r.pending| ensures PendingPair(r.deck, r.sel, r.pending[p]) {
      if p < |g.pending| {
        assert PendingPair(g.deck, g.sel, g.pending[p]);
      }
    }
    forall p, q | 0 <= p < q < |r.pending| ensures Apart(r.pending[p], r.pending[q]) {
      if q == |g.pending| {
        assert !Touches(g.pending[p], g.sel[0]) && !Touches(g.pending[p], g.sel[1]);
      }
    }
  }

  lemma MismatchKeepsFaceUp(g: Game)
    requires Valid(g) && |g.sel| == 2 && !SelectionMatches(g)
    ensures FaceUpAccounted(Resolve(g).deck, Resolve(g).sel, Resolve(g).pending)
  {
    var r := Resolve(g);
    var a, b := g.sel[0], g.sel[1];
    forall k | 0 <= k < |r.deck| && r.deck[k].flipped && !r.deck[k].matched
      ensures k in r.sel || Waiting(r.pending, k)
    {
      if k == a || k == b {
        assert Touches(r.pending[|g.pending|], k);
      } else {
        assert k !in g.sel;
        var p :| 0 <= p < |g.pending| && Touches(g.pending[p], k);
        assert Touches(r.pending[p], k);
      }
    }
  }

  /** Queueing the selected pair for its turn-back keeps the invariant. */
  lemma MismatchPreservesValid(g: Game)
    requires Valid(g) && |g.sel| == 2 && !SelectionMatches(g)
    ensures Valid(Resolve(g))
  {
    MismatchKeepsTimers(g);
    MismatchKeepsFaceUp(g);
  }

  lemma ResolvePreservesValid(g: Game)
    requires Valid(g)
    ensures Valid(Resolve(g))
  {
    if |g.sel| == 2 {
      if SelectionMatches(g) {
        MatchPreservesValid(g);
      } else {
        MismatchPreservesValid(g);
      }
    }
  }

  // ----- The mismatch timer ---------------------------------------------------

  /** The oldest timer names two cards in play, unselected, that no other
      timer names. */
  lemma OldestTimerIsFree(g: Game)
    requires Valid(g) && g.pending != []
    ensures PendingPair(g.deck, g.sel, g.pending[0])
    ensures forall p :: 0 < p < |g.pending| ==> Apart(g.pending[0], g.pending[p])
  {
    assert PendingPair(g.deck, g.sel, g.pending[0]);
  }

  lemma ResetKeepsSelection(g: Game)
    requires Valid(g) && g.pending != []
    ensures SelectionOk(ResetMismatch(g).deck, ResetMismatch(g).sel)
  {
    var r := ResetMismatch(g);
    OldestTimerIsFree(g);
    forall k | 0 <= k < |r.sel| ensures Showing(r.deck, r.sel[k]) {
      assert !Touches(g.pending[0], r.sel[k]);
    }
  }

  lemma ResetKeepsTimers(g: Game)
    requires Valid(g) && g.pending != []
    ensures TimersOk(ResetMismatch(g).deck, ResetMismatch(g).sel, ResetMismatch(g).pending)
  {
    var r := ResetMismatch(g);
    OldestTimerIsFree(g);
    forall p | 0 <= p < |r.pending| ensures PendingPair(r.deck, r.sel, r.pending[p]) {
      assert PendingPair(g.deck, g.sel, g.pending[p + 1]);
      assert Apart(g.pending[0], g.pending[p + 1]);
    }
    forall p, q | 0 <= p < q < |r.pending| ensures Apart(r.pending[p], r.pending[q]) {
      assert Apart(g.pending[p + 1], g.pending[q + 1]);
    }
  }

  lemma ResetKeepsFaceUp(g: Game)
    requires Valid(g) && g.pending != []
    ensures FaceUpAccounted(ResetMismatch(g).deck, ResetMismatch(g).sel, ResetMismatch(g).pending)
  {
    var r := ResetMismatch(g);
    var m := g.pending[0];
    OldestTimerIsFree(g);
    forall k | 0 <= k < |r.deck| && r.deck[k].matched ensures r.deck[k].flipped {
      assert !Touches(m, k);
    }
    forall k | 0 <= k < |r.deck| && r.deck[k].flipped && !r.deck[k].matched
      ensures k in r.sel || Waiting(r.pending, k)
    {
      assert !Touches(m, k) && r.deck[k] == g.deck[k];
      if k !in g.sel {
        var p :| 0 <= p < |g.pending| && Touches(g.pending[p], k);
        assert p != 0;
        assert Touches(r.pending[p - 1], k);
      }
    }
  }

  lemma ResetMismatchPreservesValid(g: Game)
    requires Valid(g)
    ensures Valid(ResetMismatch(g))
  {
    if g.pending != [] {
      var m := g.pending[0];
      ResetKeepsSelection(g);
      ResetKeepsTimers(g);
      ResetKeepsFaceUp(g);
      var d1 := Turn(g.deck, m.first, false);
      TurnKeepsCounts(g.deck, m.first, false);
      TurnKeepsCounts(d1, m.second, false);
      assert ResetMismatch(g).deck == Turn(d1, m.second, false);
    }
  }

  // ----- Completion, clock, one click -----------------------------------------

  lemma CheckCompletionPreservesValid(g: Game)
    requires Valid(g)
    ensures Valid(CheckCompletion(g))
  {
    SameBoardValid(g, CheckCompletion(g));
  }

  lemma TickPreservesValid(g: Game)
    requires Valid(g)
    ensures Valid(Tick(g))
  {
    SameBoardValid(g, Tick(g));
  }

  lemma PlayPreservesValid(g: Game, i: nat)
    requires Valid(g) && i < |g.deck|
    ensures Valid(Play(g, i))
  {
    ClickPreservesValid(g, i);
    ResolvePreservesValid(Click(g, i));
    CheckCompletionPreservesValid(Resolve(Click(g, i)));
  }

  /** Re-running the completion check changes nothing: the best score is
      written once per completion however often the check runs. */
  lemma CompletionIdempotent(g: Game)
    ensures CheckCompletion(CheckCompletion(g)) == CheckCompletion(g)
  {
  }
}
