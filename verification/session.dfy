/** Sessions: the game between two restarts, as a run of clicks, mismatch
    timers and clock ticks. A deck in which some face occurs once can never be
    finished; a deck in which every face comes in pairs can always be finished. */
module Session {
  import opened Cards
  import opened Engine
  import opened Invariants

  /** What can happen between two restarts: a click on a card, the oldest
      mismatch timer firing, or one second passing. */
  datatype Event = Press(index: nat) | Timeout | Second

  /** Every click of `es` is on one of `n` cards. */
  predicate OnBoard(n: nat, es: seq<Event>) {
    forall k :: 0 <= k < |es| && es[k].Press? ==> es[k].index < n
  }

  function Step(g: Game, e: Event): (r: Game)
    requires InRange(g) && (e.Press? ==> e.index < |g.deck|)
    ensures |r.deck| == |g.deck| && Images(r.deck) == Images(g.deck) && InRange(r)
  {
    match e
    case Press(i) => Play(g, i)
    case Timeout => ResetMismatch(g)
    case Second => Tick(g)
  }

  /** The state after the events `es`, in order. */
  function Run(g: Game, es: seq<Event>): (r: Game)
    requires InRange(g) && OnBoard(|g.deck|, es)
    ensures |r.deck| == |g.deck| && Images(r.deck) == Images(g.deck) && InRange(r)
    decreases |es|
  {
    if es == [] then g
    else
      assert OnBoard(|g.deck|, es[1..]) by {
        forall k | 0 <= k < |es[1..]| && es[1..][k].Press? ensures es[1..][k].index < |g.deck| {
          assert es[1..][k] == es[k + 1];
        }
      }
      Run(Step(g, es[0]), es[1..])
  }

  /** Running one event and then the rest is running the rest from where the
      event left off. */
  lemma RunCons(g: Game, e: Event, rest: seq<Event>)
    requires InRange(g) && (e.Press? ==> e.index < |g.deck|) && OnBoard(|g.deck|, rest)
    ensures OnBoard(|g.deck|, [e] + rest)
    ensures Run(g, [e] + rest) == Run(Step(g, e), rest)
  {
    var es := [e] + rest;
    forall k | 0 <= k < |es| && es[k].Press? ensures es[k].index < |g.deck| {
      if k > 0 { assert es[k] == rest[k - 1]; }
    }
    assert es[1..] == rest;
  }

  lemma StepPreservesValid(g: Game, e: Event)
    requires Valid(g) && (e.Press? ==> e.index < |g.deck|)
    ensures Valid(Step(g, e))
  {
    match e
    case Press(i) => PlayPreservesValid(g, i);
    case Timeout => ResetMismatchPreservesValid(g);
    case Second => TickPreservesValid(g);
  }

  lemma {:induction false} RunPreservesValid(g: Game, es: seq<Event>)
    requires Valid(g) && OnBoard(|g.deck|, es)
    ensures Valid(Run(g, es))
    decreases |es|
  {
    if es != [] {
      StepPreservesValid(g, es[0]);
      assert OnBoard(|g.deck|, es[1..]) by {
        forall k | 0 <= k < |es[1..]| && es[1..][k].Press? ensures es[1..][k].index < |g.deck| {
          assert es[1..][k] == es[k + 1];
        }
      }
      RunPreservesValid(Step(g, es[0]), es[1..]);
    }
  }

  /** No event of a session ever clears `matched`. */
  lemma {:induction false} RunKeepsMatches(g: Game, es: seq<Event>, k: nat)
    requires InRange(g) && OnBoard(|g.deck|, es)
    requires k < |g.deck| && g.deck[k].matched
    ensures Run(g, es).deck[k].matched
    decreases |es|
  {
    if es != [] {
      assert OnBoard(|g.deck|, es[1..]) by {
        forall j | 0 <= j < |es[1..]| && es[1..][j].Press? ensures es[1..][j].index < |g.deck| {
          assert es[1..][j] == es[j + 1];
        }
      }
      RunKeepsMatches(Step(g, es[0]), es[1..], k);
    }
  }

  // ----- A face that occurs once blocks completion -----------------------------

  /** In a valid state, a face that occurs exactly once is on an unmatched
      card, so the matched count is short of the deck and the game is not over. */
  lemma UnpairedBlocksCompletion(g: Game, s: Symbol)
    requires Valid(g) && Occurrences(g.deck, s) == 1
    ensures g.matchedCount < |g.deck| && !g.gameOver
  {
    OccurrencesSplit(g.deck, s);
    assert MatchedOf(g.deck, s) == 0;
    var k :| 0 <= k < |g.deck| && UnmatchedShowing(s)(g.deck[k]);
    CountFull(g.deck, IsMatched);
    assert !IsMatched(g.deck[k]);
  }

  /** However the session goes on, a deck with a face that occurs once is
      never finished. */
  lemma NeverCompletes(g: Game, es: seq<Event>, s: Symbol)
    requires Valid(g) && OnBoard(|g.deck|, es)
    requires Occurrences(g.deck, s) == 1
    ensures !Run(g, es).gameOver
    ensures Run(g, es).matchedCount < |g.deck|
  {
    RunPreservesValid(g, es);
    SameFacesSameOccurrences(Run(g, es).deck, g.deck, s);
    UnpairedBlocksCompletion(Run(g, es), s);
  }

  // ----- A paired deck can be finished -----------------------------------------

  /** A card that is neither matched, selected nor waiting for a timer is
      face-down. */
  lemma IdleIsFaceDown(g: Game, k: nat)
    requires Valid(g) && g.sel == [] && g.pending == []
    requires k < |g.deck| && !g.deck[k].matched
    ensures !g.deck[k].flipped
  {
    assert !Waiting(g.pending, k);
  }

  /** From a quiet state, a click on an unmatched card selects it and
      touches no other card. */
  lemma PlayFirst(g: Game, i: nat) returns (g1: Game)
    requires Valid(g) && g.sel == [] && g.pending == []
    requires i < |g.deck| && !g.deck[i].matched
    ensures g1 == Play(g, i) && Valid(g1)
    ensures g1.sel == [i] && g1.pending == [] && g1.matchedCount == g.matchedCount
    ensures forall k :: 0 <= k < |g.deck| && k != i ==> g1.deck[k] == g.deck[k]
    ensures g1.deck[i].image == g.deck[i].image
  {
    IdleIsFaceDown(g, i);
    CountFull(g.deck, IsMatched);
    assert !IsMatched(g.deck[i]);
    PlayPreservesValid(g, i);
    g1 := Play(g, i);
  }

  /** With one card selected, a click on a face-down card of the same face
      matches the two and leaves the state quiet. */
  lemma PlaySecond(g1: Game, i: nat, j: nat)
    requires Valid(g1) && g1.sel == [i] && g1.pending == []
    requires i < |g1.deck| && j < |g1.deck| && j != i && !g1.deck[j].flipped && !g1.deck[j].matched
    requires g1.deck[i].image == g1.deck[j].image
    ensures Valid(Play(g1, j))
    ensures Play(g1, j).sel == [] && Play(g1, j).pending == []
    ensures Play(g1, j).matchedCount == g1.matchedCount + 2
  {
    PlayPreservesValid(g1, j);
    var c := Click(g1, j);
    assert c.sel == [i, j];
    assert SelectionMatches(c);
  }

  /** Two unmatched cards of one face, clicked one after the other from a
      quiet state, end up matched and leave the state quiet again. */
  lemma PlayPair(g: Game, i: nat, j: nat)
    requires Valid(g) && g.sel == [] && g.pending == []
    requires i < |g.deck| && j < |g.deck| && i != j
    requires !g.deck[i].matched && !g.deck[j].matched && g.deck[i].image == g.deck[j].image
    ensures Valid(Play(Play(g, i), j))
    ensures Play(Play(g, i), j).sel == [] && Play(Play(g, i), j).pending == []
    ensures Play(Play(g, i), j).matchedCount == g.matchedCount + 2
  {
    IdleIsFaceDown(g, j);
    var g1 := PlayFirst(g, i);
    PlaySecond(g1, i, j);
  }

  /** A deck that pairs off and is not all matched holds two different
      unmatched cards of one face. */
  lemma UnmatchedPair(g: Game) returns (i: nat, j: nat)
    requires Valid(g) && Paired(g.deck) && g.matchedCount < |g.deck|
    ensures i < |g.deck| && j < |g.deck| && i != j
    ensures !g.deck[i].matched && !g.deck[j].matched && g.deck[i].image == g.deck[j].image
  {
    CountFull(g.deck, IsMatched);
    i :| 0 <= i < |g.deck| && !IsMatched(g.deck[i]);
    var s := g.deck[i].image;
    OccurrencesSplit(g.deck, s);
    assert UnmatchedShowing(s)(g.deck[i]);
    assert Even(UnmatchedOf(g.deck, s)) by {
      EvenDifference(MatchedOf(g.deck, s), UnmatchedOf(g.deck, s));
    }
    j := AnotherQualifies(g.deck, i, UnmatchedShowing(s));
  }

  /** Decks with the same faces pair off alike. */
  lemma SameFacesPaired(d: seq<Card>, e: seq<Card>)
    requires Images(d) == Images(e) && Paired(e)
    ensures Paired(d)
  {
    forall t ensures Even(Occurrences(d, t)) {
      SameFacesSameOccurrences(d, e, t);
    }
  }

  /** From a quiet valid state whose deck pairs off, some sequence of clicks
      finishes the game. */
  lemma {:induction false} Solve(g: Game) returns (es: seq<Event>)
    requires Valid(g) && g.sel == [] && g.pending == []
    requires |g.deck| > 0 && Paired(g.deck)
    ensures OnBoard(|g.deck|, es)
    ensures Run(g, es).gameOver
    decreases |g.deck| - g.matchedCount
  {
    CountFull(g.deck, IsMatched);
    if g.matchedCount == |g.deck| {
      assert g.deck[0].matched;
      RunCons(g, Press(0), []);
      es := [Press(0)] + [];
    } else {
      var i, j := UnmatchedPair(g);
      PlayPair(g, i, j);
      var g2 := Play(Play(g, i), j);
      SameFacesPaired(g2.deck, g.deck);
      var rest := Solve(g2);
      RunCons(Play(g, i), Press(j), rest);
      RunCons(g, Press(i), [Press(j)] + rest);
      es := [Press(i)] + ([Press(j)] + rest);
    }
  }

  /** A newly chosen level deals a deck that can always be finished. */
  lemma DifficultyGameCompletable(g: Game, level: Level, shuffled: seq<Symbol>) returns (es: seq<Event>)
    requires Valid(g) && level != g.level
    requires LevelShuffle(level, shuffled)
    ensures OnBoard(|SetDifficulty(g, level, shuffled).deck|, es)
    ensures Run(SetDifficulty(g, level, shuffled), es).gameOver
  {
    SetDifficultyPreservesValid(g, level, shuffled);
    es := Solve(SetDifficulty(g, level, shuffled));
  }

  /** A restarted game can always be finished. */
  lemma RestartCompletable(g: Game, shuffled: seq<Symbol>) returns (es: seq<Event>)
    requires FullShuffle(shuffled)
    ensures OnBoard(14, es)
    ensures Run(Restart(g, shuffled), es).gameOver
  {
    RestartValid(g, shuffled);
    TwiceEachIsPaired(Restart(g, shuffled).deck);
    es := Solve(Restart(g, shuffled));
  }
}
