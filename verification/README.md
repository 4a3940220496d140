# Memory game engine, modelled in Dafny

The repository is a small React memory (concentration) game. Fourteen cards, two of
each of seven fruits, are dealt face-down in shuffled order. The player turns cards
up one at a time. Once two cards are up, the game counts a move and compares them.
Equal faces stay up as a matched pair. Unequal faces are turned back one second
later. The game is over once every card is matched. The best (lowest) move count
is kept across sessions. A clock counts the seconds. A difficulty selector deals
a smaller or larger deck, and a restart button deals a fresh full deck.

This project models the engine of `src/App.js` as an immutable `Game` value with
one pure function per transition. It proves what each transition does and the
invariant every transition keeps. It also proves that a deck whose faces pair off
can always be finished, while from a valid state a deck holding a lone face never can.

- `cards.dfy` (`Cards`) covers the fruit faces and the card record. It counts
  cards by a predicate and builds decks: the fourteen-card deck, the JavaScript
  `slice(0, n)` cut, and the deck of each difficulty level, both as written and
  corrected.
- `engine.dfy` (`Engine`) holds the session state `Game` and the invariant `Valid`.
  It has the click, the comparison of a full selection, the delayed turn-back of a
  mismatch, the completion check with the best score, the clock, restart and the
  difficulty selector.
- `invariants.dfy` (`Invariants`) proves that every transition keeps `Valid`.
- `session.dfy` (`Session`) models a session as a run of events and proves its
  reachability results.
- `findings.dfy` (`Findings`) exhibits the two defects listed under Findings.

Modelling decisions:

- **The shuffle.** It is an input: any rearrangement of the listed faces.
  `FullShuffle` and `LevelShuffle` state the rearrangement face by face, and
  `FullShuffleIsRearrangement` and `LevelShuffleIsRearrangement` prove that this
  is the same as a multiset equality with the listed faces.
- **The one-second turn-back.** It is a transition of its own, `ResetMismatch`.
  Mismatches still waiting for their timer sit in a first-in, first-out queue,
  `pending`, because timers of equal delay fire in the order they were set.
- **A click as the player sees it.** `Play` is the click handler, then the match
  effect, then the completion effect, in the order the game's effects run after
  the click.
- **The best score.** It is a natural number, with 0 meaning that none is recorded.

In three places the model keeps behaviour of the code that looks unintended:

- Medium asks for `slice(0, 16)` of a fourteen-card deck and so deals all fourteen
  cards, the same deck as hard.
- Restart always deals the full fourteen-card deck, whatever level is selected.
- The clock is not stopped when the game ends, and a difficulty change does not
  reset it.

## Model

| member | source | states |
|---|---|---|
| Cards.GenerateShuffledDeck | src/App.js:80-98 | For any rearrangement of the fourteen listed faces, the deck has fourteen cards and every fruit exactly twice. Each card's id is its position, every card starts face-down and unmatched, and the faces follow the shuffled order. |
| Cards.FullShuffleIsRearrangement | src/App.js:81-91 | A list is a rearrangement of the fourteen listed faces if and only if it lists every fruit exactly twice. |
| Cards.LevelShuffleIsRearrangement | src/App.js:164-171 | A list is a rearrangement of the faces a level deals if and only if it lists each fruit as often as that level deals it. |
| Cards.Take | src/App.js:166-168 | `slice(0, n)` keeps the first `n` cards, or all of them when there are fewer, each at its own position. |
| Cards.DeckForLevelAsWritten | src/App.js:164-171 | The selector as written deals 12, 14 and 14 cards for easy, medium and hard. The deck is freshly dealt and holds no fruit more than twice. For medium and hard it holds every fruit exactly twice. |
| Cards.EasyCutImages | src/App.js:166 | The easy deck as written shows the first twelve faces of the shuffle, so which fruits it holds depends on the shuffle. |
| Cards.DeckForLevel | src/App.js:164-171 | The corrected selector deals easy as six whole pairs with no cherries, and medium and hard as all fourteen cards. Every fruit present is present exactly twice, so the deck pairs off. |
| Engine.Click | src/App.js:113-121 | The click is refused, leaving the state as it was, exactly when two cards are selected or the card is face-up or matched. Otherwise exactly that card turns face-up, its index is appended to the selection, and nothing else changes. |
| Engine.Resolve | src/App.js:124-144 | With two cards selected, moves grows by exactly one and the selection empties, whether or not they match. Equal faces become matched and the matched count grows by two. Unequal faces stay up and are queued for their timer. With fewer selected, nothing happens. Matched cards stay matched. |
| Engine.ResetMismatch | src/App.js:135-139 | When the oldest timer fires, exactly its two cards turn face-down and it leaves the queue. No other card and no other field changes. |
| Engine.CheckCompletion | src/App.js:153-161 | Once the matched count equals the deck size, the game is over. The best score becomes the lower of the recorded best and this game's moves, or this game's moves when none is recorded. Otherwise nothing changes. |
| Engine.Tick | src/App.js:147-150 | Each second adds one to the clock and changes nothing else, including after the game is over. |
| Engine.Restart | src/App.js:179-186 | Restart deals a fresh fourteen-card deck with every fruit twice. It zeroes moves, matched count and clock, clears the selection and the game-over flag, and keeps the best score and the level. |
| Engine.SetDifficultyAsWritten | src/App.js:164-175 | A new level deals that level's deck as written and resets moves, matched count and game-over. It keeps the clock and the selection. Choosing the current level changes nothing. |
| Engine.SetDifficulty | src/App.js:164-175 | The corrected difficulty change deals a deck that pairs off and also clears the selection. Otherwise it is as written. |
| Engine.Start | src/App.js:101-109 | A session opens on a fresh medium deck of fourteen cards that pairs off. Nothing is selected, every counter is at zero, and the best score is the stored one. |
| Engine.Play | src/App.js:113-161 | A click followed by the game's effects keeps every card's face in place and every remembered index on the board. |
| Invariants.StartValid | src/App.js:101-109 | The opening state satisfies the session invariant. |
| Invariants.RestartValid | src/App.js:179-186 | The state after a restart satisfies the session invariant. |
| Invariants.SetDifficultyPreservesValid | src/App.js:164-175 | The corrected difficulty change keeps the session invariant. |
| Invariants.ClickPreservesValid | src/App.js:113-121 | Clicks keep the invariant. The selection never exceeds two entries and never holds one index twice, and every selected card is face-up and in play. |
| Invariants.SelectedMeansNotOver | src/App.js:153-155 | While a card is selected the game cannot be over. |
| Invariants.MatchPreservesValid | src/App.js:130-133 | Matching a pair keeps the matched count equal to the number of matched cards, and keeps the matched cards of each fruit in pairs. |
| Invariants.MismatchPreservesValid | src/App.js:134-142 | Queueing a mismatch keeps every face-up card accounted for, and keeps the queued pairs disjoint. |
| Invariants.ResolvePreservesValid | src/App.js:124-144 | Comparing the selection keeps the invariant. |
| Invariants.ResetMismatchPreservesValid | src/App.js:135-139 | The turn-back keeps the invariant. The cards it turns down were in play, selected by no one and queued by no other timer. |
| Invariants.CheckCompletionPreservesValid | src/App.js:153-161 | The completion check keeps the invariant, so the game is over only when every card is matched. |
| Invariants.TickPreservesValid | src/App.js:147-150 | The clock keeps the invariant. |
| Invariants.PlayPreservesValid | src/App.js:113-161 | A click followed by the effects keeps the invariant. |
| Invariants.CompletionIdempotent | src/App.js:153-161 | Running the completion check again changes nothing, so the best score is written once per completion. |
| Session.Run | src/App.js:113-150 | Any run of clicks, timer firings and seconds keeps every card's face in place and every remembered index on the board. |
| Session.RunPreservesValid | src/App.js:113-150 | Every state a session reaches satisfies the invariant. |
| Session.RunKeepsMatches | src/App.js:130-133 | No event of a session ever clears `matched`. |
| Session.UnpairedBlocksCompletion | src/App.js:153-155 | In a valid state, a fruit that occurs once is unmatched, so the game is not over. |
| Session.NeverCompletes | src/App.js:153-155 | From a valid state, whatever the player does, a deck with a fruit that occurs once is never finished. |
| Session.PlayPair | src/App.js:113-133 | From a quiet state, clicking two unmatched cards of one fruit matches them and adds two to the matched count. |
| Session.Solve | src/App.js:113-161 | From a quiet valid state whose deck pairs off, some sequence of clicks on the board finishes the game. |
| Session.DifficultyGameCompletable | src/App.js:164-175 | Every deck the corrected selector deals can be finished. |
| Session.RestartCompletable | src/App.js:179-186 | Every deck a restart deals can be finished. |
| Findings.StrandingShuffleCutsAPair | src/App.js:166 | One concrete rearrangement of the faces makes the easy deck as written hold a single strawberry. |
| Findings.EasyDeckAsWrittenNeverCompletes | src/App.js:164-166 | When the easy cut as written leaves a fruit alone and the switch is made with nothing selected, no session on that deck ever ends. |
| Findings.OpeningClick | src/App.js:101-121 | The opening click of a session selects the clicked card and keeps the invariant. |
| Findings.SwitchKeepsSelection | src/App.js:164-175 | The difficulty change as written deals a fresh twelve-card easy deck and leaves the old selection in place. |
| Findings.SameIndexTwice | src/App.js:113-133 | On a fresh deck with card 0 still selected, clicking card 0 selects it twice. The card then "matches" itself, so the matched count is 2 while one card is matched, and the invariant breaks. |
| Findings.StaleSelection | src/App.js:164-175 | A game with card 0 selected, switched to easy as written and clicked on card 0, reaches a matched count of 2 with one matched card. |
| Findings.StaleSelectionOffTheDeck | src/App.js:164-175 | Clicking card 13 and switching to easy as written leaves index 13 selected on a twelve-card deck. |
| Findings.SelectionClearedOnDifficulty | src/App.js:164-175 | With the corrected selector, the same clicks keep the invariant, and the second click selects exactly one card. |

## Left out

- The presentation components and markup (cards, board, clock, score, buttons, help dialog, level selector, status line, leaderboard) are not modelled, because they only display the state.
- The browser's `localStorage` is not modelled: reading the best score becomes the `stored` argument of `Start`, and writing it is omitted. The conversion of the stored string to a number is not modelled.
- `Math.random` and the comparator sort are replaced by the shuffle argument. The sort is not a uniform shuffle, but every outcome is a rearrangement, and that is all the model assumes.
- The asynchrony of `setInterval` and `setTimeout` is not modelled: a second and a timer firing are explicit events (`Tick`, `ResetMismatch`).
- The stale closure of a mismatch timer is not modelled. That closure writes back the whole deck it captured, so a timer that outlives a restart or a difficulty change can restore the old deck. The model instead drops queued timers on restart and on a difficulty change.
- React's effect scheduling is reduced to one fixed order after a click (`Play`). Re-runs of an effect whose inputs did not change are not modelled; `CompletionIdempotent` shows that the completion check is unaffected by them.
- The level selector's displayed option is not modelled. The selector is uncontrolled and starts out showing easy, so a level change fires only when a different option is picked; `SetDifficultyAsWritten` is that change.
- The sound toggle and the help-dialog flag are not modelled, because they are booleans with no game logic.
- Engine.Click: requires an index on the board. The board only hands out the positions of its own cards, and a larger index makes the game throw.
- Engine.Resolve: requires every remembered index to be on the board. Only the stale selection of the second finding breaks this, and there the game would read a card that does not exist.

## Findings

| source | as written | input that shows it | evidently intended | confidence | as-written member | corrected member |
|---|---|---|---|---|---|---|
| src/App.js:166 | Easy mode keeps the first twelve cards of a shuffled fourteen-card deck, so the two cut cards can belong to two different fruits. | The shuffle apple, apple, banana, banana, grapes, grapes, orange, orange, watermelon, watermelon, strawberry, cherry, strawberry, cherry. The easy deck holds one strawberry and one cherry. If the switch to easy is made with nothing selected, the matched count can never reach twelve. With a card still selected, the second defect can make a card match itself and so end the game with the cherry face-down. | Easy deals six whole pairs, so every deck can be finished. | not executed | Findings.StrandingShuffleCutsAPair, Findings.EasyDeckAsWrittenNeverCompletes | Cards.DeckForLevel, Session.DifficultyGameCompletable |
| src/App.js:164-175 | A difficulty change deals a new deck but leaves the selection in place. | Click card 0 of the opening deck, choose easy (after first picking another level, since the selector starts out showing easy while the game is on medium), then click card 0 again. The selection becomes [0, 0], the card "matches" itself, and the matched count is 2 with one matched card. Clicking card 13 before choosing easy leaves index 13 selected on a twelve-card deck. | A difficulty change clears the selection, as a restart does. | not executed | Findings.StaleSelection, Findings.StaleSelectionOffTheDeck | Engine.SetDifficulty, Findings.SelectionClearedOnDifficulty |
