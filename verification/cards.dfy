/** Cards and decks of the memory game: the seven fruit faces, the card
    record, counting over a deck, and how a shuffled deck is dealt for each
    difficulty level. */
module Cards {

  /** The seven faces a card can show. */
  datatype Symbol = Apple | Banana | Grapes | Orange | Watermelon | Strawberry | Cherry

  /** One card on the board. `id` is its position in the deck; `flipped` means
      face-up, `matched` means it has been paired for good. */
  datatype Card = Card(id: nat, image: Symbol, flipped: bool, matched: bool)

  /** The difficulty levels offered by the selector. */
  datatype Level = Easy | Medium | Hard

  /** The unshuffled faces: every fruit listed twice. */
  const CardImages: seq<Symbol> :=
    [ Apple, Apple, Banana, Banana, Grapes, Grapes, Orange, Orange,
      Watermelon, Watermelon, Strawberry, Strawberry, Cherry, Cherry ]

  /** A shuffle of `images` is any rearrangement of it; the random comparator
      sort of the game is one particular, non-uniform, way to pick one. */
  predicate IsShuffleOf(shuffled: seq<Symbol>, images: seq<Symbol>) {
    multiset(shuffled) == multiset(images)
  }

  /** How many cards of face `s` a level deals: two of every fruit, except
      that easy leaves the cherries out. */
  function Copies(level: Level, s: Symbol): nat {
    if level == Easy && s == Cherry then 0 else 2
  }

  /** `shuffled` lists every face twice: it is a shuffle of the full image
      list, stated face by face (see `FullShuffleIsRearrangement`). */
  predicate FullShuffle(shuffled: seq<Symbol>) {
    forall s :: multiset(shuffled)[s] == 2
  }

  /** `shuffled` lists every face as often as `level` deals it: it is a
      shuffle of that level's faces (see `LevelShuffleIsRearrangement`). */
  predicate LevelShuffle(level: Level, shuffled: seq<Symbol>) {
    forall s :: multiset(shuffled)[s] == Copies(level, s)
  }

  /** The faces of a deck, in deck order. */
  function Images(d: seq<Card>): (faces: seq<Symbol>)
    ensures |faces| == |d|
    ensures forall k :: 0 <= k < |d| ==> faces[k] == d[k].image
  {
    seq(|d|, k requires 0 <= k < |d| => d[k].image)
  }

  /** Every card's id is its position. */
  predicate Positional(d: seq<Card>) {
    forall k :: 0 <= k < |d| ==> d[k].id == k
  }

  /** Every card is face-down and unmatched. */
  predicate FaceDown(d: seq<Card>) {
    forall k :: 0 <= k < |d| ==> !d[k].flipped && !d[k].matched
  }

  // ----- Counting cards -----------------------------------------------------

  /** The number of cards of `d` satisfying `p`. */
  function Count(d: seq<Card>, p: Card -> bool): (n: nat)
    ensures n <= |d|
    ensures n == 0 <==> forall k :: 0 <= k < |d| ==> !p(d[k])
  {
    if d == [] then 0
    else (if p(d[0]) then 1 else 0) + Count(d[1..], p)
  }

  const IsMatched: Card -> bool := (c: Card) => c.matched
  function Shows(s: Symbol): Card -> bool { (c: Card) => c.image == s }
  function MatchedShowing(s: Symbol): Card -> bool { (c: Card) => c.matched && c.image == s }
  function UnmatchedShowing(s: Symbol): Card -> bool { (c: Card) => !c.matched && c.image == s }

  /** How many cards are matched. */
  function CountMatched(d: seq<Card>): nat { Count(d, IsMatched) }

  /** How many cards show `s`. */
  function Occurrences(d: seq<Card>, s: Symbol): nat { Count(d, Shows(s)) }

  /** How many matched cards show `s`. */
  function MatchedOf(d: seq<Card>, s: Symbol): nat { Count(d, MatchedShowing(s)) }

  /** How many unmatched cards show `s`. */
  function UnmatchedOf(d: seq<Card>, s: Symbol): nat { Count(d, UnmatchedShowing(s)) }

  /** Every face present in the deck is present an even number of times, so
      the whole deck can be paired off. */
  predicate Paired(d: seq<Card>) {
    forall s :: Even(Occurrences(d, s))
  }

  function Indicator(b: bool): nat { if b then 1 else 0 }

  /** `n` is even. Stated by peeling off two at a time rather than as
      `n % 2 == 0`, so that the parity lemmas below go by plain induction and
      need no modular arithmetic. */
  predicate Even(n: nat)
    decreases n
  {
    if n < 2 then n == 0 else Even(n - 2)
  }

  /** Taking an even number from an even number leaves an even number. */
  lemma {:induction false} EvenDifference(a: nat, b: nat)
    requires Even(a) && Even(a + b)
    ensures Even(b)
    decreases a
  {
    if a >= 2 {
      EvenDifference(a - 2, b);
    }
  }

  /** Replacing one card changes a count only by what that card contributes. */
  lemma {:induction false} CountUpdate(d: seq<Card>, i: nat, c: Card, p: Card -> bool)
    requires i < |d|
    ensures Count(d[i := c], p) + Indicator(p(d[i])) == Count(d, p) + Indicator(p(c))
    decreases |d|
  {
    if i == 0 {
      assert d[i := c][1..] == d[1..];
    } else {
      assert d[i := c][1..] == d[1..][i - 1 := c];
      CountUpdate(d[1..], i - 1, c, p);
    }
  }

  /** A count reaches the deck length exactly when every card qualifies. */
  lemma {:induction false} CountFull(d: seq<Card>, p: Card -> bool)
    ensures Count(d, p) == |d| <==> forall k :: 0 <= k < |d| ==> p(d[k])
    decreases |d|
  {
    if d != [] {
      CountFull(d[1..], p);
      if forall k :: 0 <= k < |d[1..]| ==> p(d[1..][k]) {
        assert forall k :: 1 <= k < |d| ==> p(d[k]) by {
          forall k | 1 <= k < |d| ensures p(d[k]) {
            assert d[k] == d[1..][k - 1];
          }
        }
      }
    }
  }

  /** A qualifying card at `i` together with a count of at least two means
      some other card qualifies too. */
  lemma AnotherQualifies(d: seq<Card>, i: nat, p: Card -> bool) returns (j: nat)
    requires i < |d| && p(d[i]) && Count(d, p) >= 2
    ensures j < |d| && j != i && p(d[j])
  {
    if exists k :: 0 <= k < |d| && k != i && p(d[k]) {
      j :| 0 <= j < |d| && j != i && p(d[j]);
    } else {
      OnlyOne(d, i, p);
      assert false;
    }
  }

  /** If no card other than `i` qualifies, the count is at most one. */
  lemma {:induction false} OnlyOne(d: seq<Card>, i: nat, p: Card -> bool)
    requires i < |d|
    requires forall k :: 0 <= k < |d| && k != i ==> !p(d[k])
    ensures Count(d, p) <= 1
    decreases |d|
  {
    if i == 0 {
      assert Count(d[1..], p) == 0;
    } else {
      assert !p(d[0]);
      forall k | 0 <= k < |d[1..]| && k != i - 1 ensures !p(d[1..][k]) {
        assert d[1..][k] == d[k + 1];
      }
      OnlyOne(d[1..], i - 1, p);
    }
  }

  /** The cards showing `s` are the matched ones and the unmatched ones. */
  lemma {:induction false} OccurrencesSplit(d: seq<Card>, s: Symbol)
    ensures Occurrences(d, s) == MatchedOf(d, s) + UnmatchedOf(d, s)
    decreases |d|
  {
    if d != [] {
      OccurrencesSplit(d[1..], s);
    }
  }

  /** Counting the cards that show `s` is the multiplicity of `s` among the faces. */
  lemma {:induction false} OccurrencesMultiplicity(d: seq<Card>, s: Symbol)
    ensures Occurrences(d, s) == multiset(Images(d))[s]
    decreases |d|
  {
    if d != [] {
      OccurrencesMultiplicity(d[1..], s);
      assert Images(d) == [d[0].image] + Images(d[1..]);
    }
  }

  // ----- Turning and matching one card -------------------------------------

  /** Turns card `i` face-up (`up`) or face-down. */
  function Turn(d: seq<Card>, i: nat, up: bool): (r: seq<Card>)
    requires i < |d|
    ensures |r| == |d|
  {
    d[i := d[i].(flipped := up)]
  }

  /** Marks card `i` as matched. */
  function MarkMatched(d: seq<Card>, i: nat): (r: seq<Card>)
    requires i < |d|
    ensures |r| == |d|
  {
    d[i := d[i].(matched := true)]
  }

  /** Turning a card changes neither its face nor any count of matched cards. */
  lemma TurnKeepsCounts(d: seq<Card>, i: nat, up: bool)
    requires i < |d|
    ensures Images(Turn(d, i, up)) == Images(d)
    ensures CountMatched(Turn(d, i, up)) == CountMatched(d)
    ensures forall s :: MatchedOf(Turn(d, i, up), s) == MatchedOf(d, s)
  {
    CountUpdate(d, i, d[i].(flipped := up), IsMatched);
    forall s ensures MatchedOf(Turn(d, i, up), s) == MatchedOf(d, s) {
      CountUpdate(d, i, d[i].(flipped := up), MatchedShowing(s));
    }
  }

  /** Matching an unmatched card adds one to the matched cards, and one to the
      matched cards of its own face only. */
  lemma MatchCounts(d: seq<Card>, i: nat)
    requires i < |d| && !d[i].matched
    ensures Images(MarkMatched(d, i)) == Images(d)
    ensures CountMatched(MarkMatched(d, i)) == CountMatched(d) + 1
    ensures forall s :: MatchedOf(MarkMatched(d, i), s) == MatchedOf(d, s) + Indicator(s == d[i].image)
  {
    CountUpdate(d, i, d[i].(matched := true), IsMatched);
    forall s ensures MatchedOf(MarkMatched(d, i), s) == MatchedOf(d, s) + Indicator(s == d[i].image) {
      CountUpdate(d, i, d[i].(matched := true), MatchedShowing(s));
    }
  }

  /** Matching two different unmatched cards of one face adds two to the
      matched cards, and keeps the matched cards of every face even. */
  lemma MatchPairCounts(d: seq<Card>, a: nat, b: nat)
    requires a < |d| && b < |d| && a != b
    requires !d[a].matched && !d[b].matched && d[a].image == d[b].image
    requires forall s :: Even(MatchedOf(d, s))
    ensures Images(MarkMatched(MarkMatched(d, a), b)) == Images(d)
    ensures CountMatched(MarkMatched(MarkMatched(d, a), b)) == CountMatched(d) + 2
    ensures forall s :: Even(MatchedOf(MarkMatched(MarkMatched(d, a), b), s))
  {
    var d1 := MarkMatched(d, a);
    var d2 := MarkMatched(d1, b);
    MatchCounts(d, a);
    MatchCounts(d1, b);
    forall s ensures Even(MatchedOf(d2, s)) {
      var before := MatchedOf(d, s);
      assert Even(before);
      if s == d[a].image {
        assert MatchedOf(d2, s) == before + 2;
      } else {
        assert MatchedOf(d2, s) == before;
      }
    }
  }


  /** A deck holding every face exactly twice pairs off. */
  lemma TwiceEachIsPaired(d: seq<Card>)
    requires forall s :: Occurrences(d, s) == 2
    ensures Paired(d)
  {
    forall s ensures Even(Occurrences(d, s)) {
      var n := Occurrences(d, s);
      assert n == 2;
    }
  }

  /** Decks with the same faces hold each face equally often. */
  lemma SameFacesSameOccurrences(d: seq<Card>, e: seq<Card>, s: Symbol)
    requires Images(d) == Images(e)
    ensures Occurrences(d, s) == Occurrences(e, s)
  {
    OccurrencesMultiplicity(d, s);
    OccurrencesMultiplicity(e, s);
  }

  // ----- Dealing ------------------------------------------------------------

  /** Lays the shuffled faces out as cards: ids in order, all face-down. */
  function Deal(shuffled: seq<Symbol>): (d: seq<Card>)
    ensures Images(d) == shuffled
    ensures Positional(d) && FaceDown(d)
  {
    seq(|shuffled|, k requires 0 <= k < |shuffled| => Card(k, shuffled[k], false, false))
  }

  /** Each face listed in the full image list occurs exactly twice. */
  lemma ImagesListedTwice(s: Symbol)
    ensures multiset(CardImages)[s] == 2
  {
  }

  /** The first twelve entries of the image list hold every fruit but the
      cherry twice: the last two entries are the cherries. */
  lemma FirstTwelveListed(s: Symbol)
    ensures multiset(CardImages[..12])[s] == (if s == Cherry then 0 else 2)
  {
    assert CardImages == CardImages[..12] + [Cherry, Cherry];
    ImagesListedTwice(s);
  }

  /** Against a list whose census is known, having the same census is being
      a rearrangement of it. */
  lemma CensusIsRearrangement(level: Level, shuffled: seq<Symbol>, images: seq<Symbol>)
    requires forall s :: multiset(images)[s] == Copies(level, s)
    ensures (forall s :: multiset(shuffled)[s] == Copies(level, s)) <==> IsShuffleOf(shuffled, images)
  {
  }

  /** Listing every face twice is being a rearrangement of the full image
      list. */
  lemma FullShuffleIsRearrangement(shuffled: seq<Symbol>)
    ensures FullShuffle(shuffled) <==> IsShuffleOf(shuffled, CardImages)
  {
    forall s ensures multiset(CardImages)[s] == Copies(Hard, s) {
      ImagesListedTwice(s);
    }
    CensusIsRearrangement(Hard, shuffled, CardImages);
  }

  /** A shuffle of the full image list has fourteen entries. */
  lemma FullShuffleLength(shuffled: seq<Symbol>)
    requires FullShuffle(shuffled)
    ensures |shuffled| == 14
  {
    FullShuffleIsRearrangement(shuffled);
    assert |multiset(shuffled)| == |multiset(CardImages)|;
  }

  /** The full fourteen-card deck, dealt from a shuffle of all the faces. */
  function GenerateShuffledDeck(shuffled: seq<Symbol>): (d: seq<Card>)
    requires FullShuffle(shuffled)
    ensures |d| == 14
    ensures forall s :: Occurrences(d, s) == 2
    ensures Positional(d) && FaceDown(d)
    ensures Images(d) == shuffled
  {
    var d := Deal(shuffled);
    FullShuffleLength(shuffled);
    assert forall s :: Occurrences(d, s) == 2 by {
      forall s ensures Occurrences(d, s) == 2 {
        OccurrencesMultiplicity(d, s);
      }
    }
    d
  }

  /** `Array.prototype.slice(0, n)`: the first `n` cards, or all of them when
      there are fewer. */
  function Take(d: seq<Card>, n: nat): (t: seq<Card>)
    ensures |t| == if n <= |d| then n else |d|
    ensures forall k :: 0 <= k < |t| ==> t[k] == d[k]
  {
    if n <= |d| then d[..n] else d
  }

  /** A prefix holds no more of any face than the whole deck. */
  lemma PrefixOccurrences(d: seq<Card>, n: nat, s: Symbol)
    ensures Occurrences(Take(d, n), s) <= Occurrences(d, s)
  {
    if n <= |d| {
      assert Images(d) == Images(d[..n]) + Images(d[n..]);
      OccurrencesMultiplicity(d, s);
      OccurrencesMultiplicity(d[..n], s);
    }
  }

  /** Cutting a freshly dealt deck of pairs keeps it freshly dealt, holds no
      face more than twice, and cuts nothing when asked for all the cards. */
  lemma CutFacts(d: seq<Card>, n: nat)
    requires Positional(d) && FaceDown(d) && forall s :: Occurrences(d, s) == 2
    ensures Positional(Take(d, n)) && FaceDown(Take(d, n))
    ensures forall s :: Occurrences(Take(d, n), s) <= 2
    ensures n >= |d| ==> Take(d, n) == d
  {
    forall s ensures Occurrences(Take(d, n), s) <= 2 {
      PrefixOccurrences(d, n, s);
    }
  }

  /** The deck the difficulty selector deals, as the game writes it: easy
      keeps the first twelve cards of a shuffled full deck, medium asks for
      sixteen of the fourteen, hard keeps all. */
  function DeckForLevelAsWritten(level: Level, shuffled: seq<Symbol>): (d: seq<Card>)
    requires FullShuffle(shuffled)
    ensures level == Easy ==> |d| == 12
    ensures level != Easy ==> |d| == 14
    ensures Positional(d) && FaceDown(d)
    ensures forall s :: Occurrences(d, s) <= 2
    ensures level != Easy ==> forall s :: Occurrences(d, s) == 2
  {
    var full := GenerateShuffledDeck(shuffled);
    CutFacts(full, 12);
    CutFacts(full, 16);
    match level
    case Easy => Take(full, 12)
    case Medium => Take(full, 16)
    case Hard => full
  }

  /** A cut of a deck shows the first faces of that deck. */
  lemma TakeImages(d: seq<Card>, n: nat)
    requires n <= |d|
    ensures Images(Take(d, n)) == Images(d)[..n]
  {
  }

  /** The easy deck as written shows the first twelve faces of the shuffle. */
  lemma EasyCutImages(shuffled: seq<Symbol>)
    requires FullShuffle(shuffled)
    ensures Images(DeckForLevelAsWritten(Easy, shuffled)) == shuffled[..12]
  {
    var full := GenerateShuffledDeck(shuffled);
    TakeImages(full, 12);
  }

  /** The faces a level deals from: easy uses the first six fruits, the
      other levels use all seven. */
  function Pool(level: Level): (images: seq<Symbol>)
    ensures |images| == if level == Easy then 12 else 14
    ensures forall s :: multiset(images)[s] == Copies(level, s)
  {
    assert forall s :: multiset(CardImages)[s] == 2 && multiset(CardImages[..12])[s] == Copies(Easy, s) by {
      forall s ensures multiset(CardImages)[s] == 2 && multiset(CardImages[..12])[s] == Copies(Easy, s) {
        ImagesListedTwice(s);
        FirstTwelveListed(s);
      }
    }
    if level == Easy then CardImages[..12] else CardImages
  }

  /** Listing every face as often as a level deals it is being a
      rearrangement of that level's faces. */
  lemma LevelShuffleIsRearrangement(level: Level, shuffled: seq<Symbol>)
    ensures LevelShuffle(level, shuffled) <==> IsShuffleOf(shuffled, Pool(level))
  {
    CensusIsRearrangement(level, shuffled, Pool(level));
  }

  /** A shuffle of a level's faces is as long as the level's deck. */
  lemma LevelShuffleLength(level: Level, shuffled: seq<Symbol>)
    requires LevelShuffle(level, shuffled)
    ensures |shuffled| == if level == Easy then 12 else 14
  {
    LevelShuffleIsRearrangement(level, shuffled);
    assert |multiset(shuffled)| == |multiset(Pool(level))|;
  }

  /** The deck the difficulty selector deals, with easy mode built from six
      whole pairs: every face present is present twice. */
  function DeckForLevel(level: Level, shuffled: seq<Symbol>): (d: seq<Card>)
    requires LevelShuffle(level, shuffled)
    ensures level == Easy ==> |d| == 12
    ensures level != Easy ==> |d| == 14
    ensures Positional(d) && FaceDown(d)
    ensures forall s :: Occurrences(d, s) == Copies(level, s)
    ensures Paired(d)
  {
    var d := Deal(shuffled);
    forall s ensures Occurrences(d, s) == Copies(level, s) && Even(Occurrences(d, s)) {
      OccurrencesMultiplicity(d, s);
    }
    LevelShuffleLength(level, shuffled);
    d
  }
}
