/** The game engine of the memory game: the session state, the click, the
    comparison of a selected pair, the delayed turn-back of a mismatch, the
    completion check with its best score, the clock, restart and the
    difficulty selector. Every transition is a pure function of the state. */
module Engine {
  import opened Cards

  /** A mismatched pair whose one-second timer has not yet turned it face-down. */
  datatype Mismatch = Mismatch(first: nat, second: nat)

  /** One session of the game.
      `sel` holds the indices of the face-up cards not yet compared (at most
      two); `best` is the best score, 0 when none is recorded; `pending` lists
      the mismatch timers not yet fired, oldest first. */
  datatype Game = Game(
    deck: seq<Card>,
    sel: seq<nat>,
    moves: nat,
    matchedCount: nat,
    gameOver: bool,
    best: nat,
    time: nat,
    level: Level,
    pending: seq<Mismatch>)

  /** Every index the state remembers points into the deck. */
  predicate InRange(g: Game) {
    && (forall k :: 0 <= k < |g.sel| ==> g.sel[k] < |g.deck|)
    && (forall p :: 0 <= p < |g.pending| ==> g.pending[p].first < |g.deck| && g.pending[p].second < |g.deck|)
  }

  function Min(a: nat, b: nat): nat { if a <= b then a else b }

  // ----- Invariant ----------------------------------------------------------

  predicate Touches(m: Mismatch, k: nat) { m.first == k || m.second == k }

  /** Card `k` is face-up because one of the `pending` mismatch timers has yet
      to turn it back. */
  predicate Waiting(pending: seq<Mismatch>, k: nat) {
    exists p :: 0 <= p < |pending| && Touches(pending[p], k)
  }

  /** Card `k` is face-up and still in play. */
  predicate Showing(d: seq<Card>, k: nat) {
    k < |d| && d[k].flipped && !d[k].matched
  }

  /** A pending mismatch names two different face-up cards in play that are
      not selected. */
  predicate PendingPair(d: seq<Card>, sel: seq<nat>, m: Mismatch) {
    && m.first != m.second
    && Showing(d, m.first) && Showing(d, m.second)
    && m.first !in sel && m.second !in sel
  }

  /** Two pending mismatches share no card. */
  predicate Apart(m: Mismatch, n: Mismatch) {
    !Touches(n, m.first) && !Touches(n, m.second)
  }

  /** The selection holds at most two different face-up cards still in play. */
  predicate SelectionOk(d: seq<Card>, sel: seq<nat>) {
    && |sel| <= 2
    && (|sel| == 2 ==> sel[0] != sel[1])
    && (forall k :: 0 <= k < |sel| ==> Showing(d, sel[k]))
  }

  /** The mismatch timers hold disjoint pairs of face-up cards outside the
      selection. */
  predicate TimersOk(d: seq<Card>, sel: seq<nat>, pending: seq<Mismatch>) {
    && (forall p :: 0 <= p < |pending| ==> PendingPair(d, sel, pending[p]))
    && (forall p, q :: 0 <= p < q < |pending| ==> Apart(pending[p], pending[q]))
  }

  /** A matched card stays face-up, and a face-up card still in play is
      selected or waiting for its timer. */
  predicate FaceUpAccounted(d: seq<Card>, sel: seq<nat>, pending: seq<Mismatch>) {
    && (forall k :: 0 <= k < |d| && d[k].matched ==> d[k].flipped)
    && (forall k :: 0 <= k < |d| && d[k].flipped && !d[k].matched ==> k in sel || Waiting(pending, k))
  }

  /** The counters agree with the cards: `matchedCount` is the number of
      matched cards, matched cards of each face come in pairs, and the game is
      over only when every card is matched. */
  predicate CountersOk(d: seq<Card>, matchedCount: nat, gameOver: bool) {
    && matchedCount == CountMatched(d)
    && (forall s :: Even(MatchedOf(d, s)))
    && (gameOver ==> matchedCount == |d|)
  }

  /** What holds of every state a session goes through. */
  predicate Valid(g: Game) {
    && InRange(g) && Positional(g.deck)
    && SelectionOk(g.deck, g.sel)
    && TimersOk(g.deck, g.sel, g.pending)
    && FaceUpAccounted(g.deck, g.sel, g.pending)
    && CountersOk(g.deck, g.matchedCount, g.gameOver)
  }

  // ----- Clicking a card ----------------------------------------------------

  /** The board ignores a click on card `i`: two cards are already up for
      comparison, or the card is face-up, or it is matched. */
  predicate Refused(g: Game, i: nat)
    requires i < |g.deck|
  {
    |g.sel| == 2 || g.deck[i].flipped || g.deck[i].matched
  }

  /** A click on card `i`: unless refused, turns that one card face-up and
      appends its index to the selection. */
  function Click(g: Game, i: nat): (r: Game)
    requires i < |g.deck|
    ensures Refused(g, i) <==> r == g
    ensures |r.deck| == |g.deck| && Images(r.deck) == Images(g.deck)
    ensures !Refused(g, i) ==>
      && r.deck[i].flipped && r.deck[i].matched == g.deck[i].matched && r.deck[i].id == g.deck[i].id
      && (forall k :: 0 <= k < |g.deck| && k != i ==> r.deck[k] == g.deck[k])
      && r.sel == g.sel + [i]
      && r.(deck := g.deck, sel := g.sel) == g
    ensures InRange(g) ==> InRange(r)
  {
    if Refused(g, i) then g
    else
      TurnKeepsCounts(g.deck, i, true);
      g.(deck := Turn(g.deck, i, true), sel := g.sel + [i])
  }

  // ----- Comparing the selected pair ----------------------------------------

  /** The two selected cards show the same face. */
  predicate SelectionMatches(g: Game)
    requires InRange(g) && |g.sel| == 2
  {
    g.deck[g.sel[0]].image == g.deck[g.sel[1]].image
  }

  /** Once two cards are selected: counts a move and clears the selection; equal
      faces are matched for good, unequal ones are left face-up with a timer
      queued to turn them back. With fewer than two selected nothing happens. */
  function Resolve(g: Game): (r: Game)
    requires InRange(g)
    ensures |g.sel| != 2 ==> r == g
    ensures |r.deck| == |g.deck| && Images(r.deck) == Images(g.deck) && InRange(r)
    ensures forall k :: 0 <= k < |g.deck| ==>
      r.deck[k].flipped == g.deck[k].flipped && r.deck[k].id == g.deck[k].id
      && (g.deck[k].matched ==> r.deck[k].matched)
    ensures |g.sel| == 2 ==>
      && r.moves == g.moves + 1 && r.sel == []
      && r.(deck := g.deck, sel := g.sel, moves := g.moves, matchedCount := g.matchedCount, pending := g.pending) == g
    ensures |g.sel| == 2 && SelectionMatches(g) ==>
      && r.deck[g.sel[0]].matched && r.deck[g.sel[1]].matched
      && (forall k :: 0 <= k < |g.deck| && k != g.sel[0] && k != g.sel[1] ==> r.deck[k] == g.deck[k])
      && r.matchedCount == g.matchedCount + 2
      && r.pending == g.pending
    ensures |g.sel| == 2 && !SelectionMatches(g) ==>
      && r.deck == g.deck
      && r.matchedCount == g.matchedCount
      && r.pending == g.pending + [Mismatch(g.sel[0], g.sel[1])]
  {
    if |g.sel| != 2 then g
    else
      var a, b := g.sel[0], g.sel[1];
      if g.deck[a].image == g.deck[b].image then
        g.(deck := MarkMatched(MarkMatched(g.deck, a), b),
           matchedCount := g.matchedCount + 2, moves := g.moves + 1, sel := [])
      else
        g.(moves := g.moves + 1, sel := [], pending := g.pending + [Mismatch(a, b)])
  }

  /** The oldest mismatch timer fires: its two cards turn face-down and it
      leaves the queue. With no timer queued nothing happens. */
  function ResetMismatch(g: Game): (r: Game)
    requires InRange(g)
    ensures g.pending == [] ==> r == g
    ensures |r.deck| == |g.deck| && Images(r.deck) == Images(g.deck) && InRange(r)
    ensures forall k :: 0 <= k < |g.deck| ==> r.deck[k].matched == g.deck[k].matched && r.deck[k].id == g.deck[k].id
    ensures g.pending != [] ==>
      && !r.deck[g.pending[0].first].flipped && !r.deck[g.pending[0].second].flipped
      && (forall k :: 0 <= k < |g.deck| && !Touches(g.pending[0], k) ==> r.deck[k] == g.deck[k])
      && r.pending == g.pending[1..]
      && r.(deck := g.deck, pending := g.pending) == g
  {
    if g.pending == [] then g
    else
      var m := g.pending[0];
      g.(deck := Turn(Turn(g.deck, m.first, false), m.second, false), pending := g.pending[1..])
  }

  // ----- Completion and best score ------------------------------------------

  /** Once every card is matched the game is over, and the best score becomes
      the smaller of the recorded best and this game's moves (this game's moves
      when none is recorded). Otherwise nothing happens. */
  function CheckCompletion(g: Game): (r: Game)
    ensures g.matchedCount != |g.deck| ==> r == g
    ensures g.matchedCount == |g.deck| ==>
      && r.gameOver
      && r.best == (if g.best == 0 then g.moves else Min(g.best, g.moves))
      && r.(gameOver := g.gameOver, best := g.best) == g
  {
    if g.matchedCount == |g.deck| then
      g.(gameOver := true, best := if g.moves < g.best || g.best == 0 then g.moves else g.best)
    else g
  }

  // ----- Clock, restart, difficulty -------------------------------------------

  /** One second passes; the clock keeps running after the game is over. */
  function Tick(g: Game): (r: Game)
    ensures r.time == g.time + 1
    ensures r.(time := g.time) == g
  {
    g.(time := g.time + 1)
  }

  /** A new game with a freshly shuffled full deck: counters, clock and
      selection reset, best score and selected level kept. */
  function Restart(g: Game, shuffled: seq<Symbol>): (r: Game)
    requires FullShuffle(shuffled)
    ensures |r.deck| == 14 && (forall s :: Occurrences(r.deck, s) == 2)
    ensures Positional(r.deck) && FaceDown(r.deck)
    ensures r.sel == [] && r.pending == [] && r.moves == 0 && r.matchedCount == 0
    ensures !r.gameOver && r.time == 0
    ensures r.best == g.best && r.level == g.level
  {
    Game(GenerateShuffledDeck(shuffled), [], 0, 0, false, g.best, 0, g.level, [])
  }

  /** Choosing a difficulty different from the current one deals that level's
      deck and resets the counters, the game-over flag and the selection; the
      clock keeps running. Choosing the current level changes nothing. */
  function SetDifficulty(g: Game, level: Level, shuffled: seq<Symbol>): (r: Game)
    requires LevelShuffle(level, shuffled)
    ensures level == g.level ==> r == g
    ensures level != g.level ==>
      && r.level == level
      && |r.deck| == (if level == Easy then 12 else 14)
      && Positional(r.deck) && FaceDown(r.deck) && Paired(r.deck)
      && r.sel == [] && r.pending == [] && r.moves == 0 && r.matchedCount == 0 && !r.gameOver
      && r.time == g.time && r.best == g.best
  {
    if level == g.level then g
    else
      g.(deck := DeckForLevel(level, shuffled), sel := [], moves := 0, matchedCount := 0,
         gameOver := false, level := level, pending := [])
  }

  /** The difficulty change as the game writes it: the easy deck is the first
      twelve cards of a shuffled full deck, and the selection is kept. */
  function SetDifficultyAsWritten(g: Game, level: Level, shuffled: seq<Symbol>): (r: Game)
    requires FullShuffle(shuffled)
    ensures level == g.level ==> r == g
    ensures level != g.level ==>
      && r.level == level
      && |r.deck| == (if level == Easy then 12 else 14)
      && Positional(r.deck) && FaceDown(r.deck)
      && (forall s :: Occurrences(r.deck, s) <= 2)
      && r.sel == g.sel && r.pending == [] && r.moves == 0 && r.matchedCount == 0 && !r.gameOver
      && r.time == g.time && r.best == g.best
  {
    if level == g.level then g
    else
      g.(deck := DeckForLevelAsWritten(level, shuffled), moves := 0, matchedCount := 0,
         gameOver := false, level := level, pending := [])
  }

  /** The session as it opens: the medium deck, nothing selected, the clock
      at zero, and the stored best score (0 when none). */
  function Start(shuffled: seq<Symbol>, stored: nat): (r: Game)
    requires LevelShuffle(Medium, shuffled)
    ensures |r.deck| == 14 && Positional(r.deck) && FaceDown(r.deck) && Paired(r.deck)
    ensures r.sel == [] && r.pending == [] && r.moves == 0 && r.matchedCount == 0
    ensures !r.gameOver && r.best == stored && r.time == 0 && r.level == Medium
  {
    Game(DeckForLevel(Medium, shuffled), [], 0, 0, false, stored, 0, Medium, [])
  }

  /** One click as the player sees it: the click, then the comparison of a
      full selection, then the completion check. */
  function Play(g: Game, i: nat): (r: Game)
    requires InRange(g) && i < |g.deck|
    ensures |r.deck| == |g.deck| && Images(r.deck) == Images(g.deck) && InRange(r)
  {
    CheckCompletion(Resolve(Click(g, i)))
  }
}
