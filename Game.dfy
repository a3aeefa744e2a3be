/** The match state machine and level progression. The source keeps the
    game in global variables; here they are the fields of one `Game`
    object. Cards are named by their index in the deck. Each delayed
    callback (`setTimeout`) is an explicit step that may only be taken
    once it has been scheduled, recorded in `pairTimer` and `levelTimer`. */
module Game {
  import opened Cards
  import opened Selection
  import Background
  import Shuffle

  /** `totalLevels`. */
  const TotalLevels: int := 3

  /** The screen on view (the loading screen is left out). */
  datatype Screen = StartScreen | GameScreen | EndScreen

  /** The pending callback scheduled by `checkForMatch`: `disableCards`'
      on a match, `unflipCards`' on a mismatch. */
  datatype PairTimer = NoTimer | DisableTimer | UnflipTimer

  /** The number of `true` flags. */
  function CountTrue(s: seq<bool>): nat
  {
    if s == [] then 0 else (if s[0] then 1 else 0) + CountTrue(s[1..])
  }

  /** Raising one lowered flag adds one to the count. */
  lemma {:induction false} CountTrueRaise(s: seq<bool>, i: int)
    requires 0 <= i < |s| && !s[i]
    ensures CountTrue(s[i := true]) == CountTrue(s) + 1
  {
    if i > 0 {
      assert s[i := true][1..] == s[1..][i - 1 := true];
      CountTrueRaise(s[1..], i - 1);
    } else {
      assert s[i := true][1..] == s[1..];
    }
  }

  /** The count reaches the length exactly when every flag is raised. */
  lemma {:induction false} CountTrueFull(s: seq<bool>)
    ensures CountTrue(s) <= |s|
    ensures CountTrue(s) == |s| <==> forall k :: 0 <= k < |s| ==> s[k]
  {
    if s != [] {
      CountTrueFull(s[1..]);
      if CountTrue(s) == |s| {
        forall k | 0 <= k < |s| ensures s[k] {
          if k > 0 { assert s[1..][k - 1] == s[k]; }
        }
      }
      if forall k :: 0 <= k < |s| ==> s[k] {
        assert forall k :: 0 <= k < |s| - 1 ==> s[1..][k];
      }
    }
  }

  /** A row of lowered flags counts zero. */
  lemma {:induction false} CountTrueNone(n: nat)
    ensures CountTrue(seq(n, _ => false)) == 0
  {
    if n > 0 {
      assert seq(n, _ => false)[1..] == seq(n - 1, _ => false);
      CountTrueNone(n - 1);
    }
  }

  /** However the shuffle orders the deck, every name of the level lies
      on exactly two of the dealt cards, and no other name on any. */
  lemma DealtDeckHoldsPairs(level: int, data: seq<Card>, dealt: seq<Card>)
    requires multiset(dealt) == multiset(Deck(LevelCards(level, data)))
    ensures forall n :: (multiset(NamesOf(dealt))[n] ==
      if n in NameSet(LevelCards(level, data)) then 2 else 0)
  {
    LevelDeckHoldsPairs(level, data);
    NamesOfPermutation(dealt, Deck(LevelCards(level, data)));
  }

  /** With the next level pending, every card of the deck is matched and
      the score is the number of pairs in it. */
  lemma CompletedLevel(g: Game)
    requires g.Valid() && g.levelTimer
    ensures forall j :: 0 <= j < g.cards.Length ==> g.matched[j]
    ensures 2 * g.score == g.cards.Length
  {
    CountTrueFull(g.matched);
  }

  class Game {
    /** The shuffled deck of the current level. */
    var cards: array<Card>
    /** Per card: shown face up (`flipped`), and matched for good, which
        also means its click handler has been removed (`matched`). */
    var flipped: seq<bool>
    var matched: seq<bool>
    var firstCard: Option<nat>
    var secondCard: Option<nat>
    var lockBoard: bool
    var score: nat
    var matchedCount: nat
    var currentLevel: int
    var screen: Screen
    /** The habitat key the background vote chose for the current level. */
    var background: string
    var pairTimer: PairTimer
    var levelTimer: bool

    /** The two selected cards carry the same name. */
    ghost predicate SelectedMatch()
      reads this, cards
      requires firstCard.Some? && secondCard.Some?
      requires firstCard.value < cards.Length && secondCard.value < cards.Length
    {
      cards[firstCard.value].name == cards[secondCard.value].name
    }

    /** The state invariant. At most the two selected cards are face up
        without being matched; a matched card stays face up; the board is
        locked exactly while a pair waits for its callback, which is the
        matching or the mismatching one as the names say; `matchedCount`
        counts the matched cards and is twice the score; the next level is
        pending only once every card is matched. */
    ghost predicate Valid()
      reads this, cards
    {
      && |flipped| == cards.Length && |matched| == cards.Length
      && (forall k :: 0 <= k < cards.Length && matched[k] ==> flipped[k])
      && (firstCard.Some? ==>
            firstCard.value < cards.Length && flipped[firstCard.value] && !matched[firstCard.value])
      && (secondCard.Some? ==>
            && firstCard.Some? && secondCard.value < cards.Length && secondCard.value != firstCard.value
            && flipped[secondCard.value] && !matched[secondCard.value])
      && (forall k :: 0 <= k < cards.Length && flipped[k] && !matched[k] ==>
            firstCard == Some(k) || secondCard == Some(k))
      && (lockBoard <==> secondCard.Some?)
      && (pairTimer.NoTimer? <==> secondCard.None?)
      && (pairTimer.DisableTimer? ==> SelectedMatch())
      && (pairTimer.UnflipTimer? ==> !SelectedMatch())
      && matchedCount == CountTrue(matched)
      && matchedCount == 2 * score
      && (levelTimer ==> firstCard.None? && matchedCount == cards.Length)
      && (screen != GameScreen ==>
            firstCard.None? && pairTimer.NoTimer? && !levelTimer && matchedCount == cards.Length)
      && 1 <= currentLevel <= TotalLevels
    }

    /** The state right after the current level has been dealt from the
        card list `data`: the invariant holds; the deck is a shuffle of the
        level's deck, so every name of the level lies on exactly two cards;
        every card is face down and unmatched; nothing is selected or
        scheduled; the score is zero; and `background` is the vote's
        result over the level's cards. */
    ghost predicate FreshDeal(data: seq<Card>)
      reads this, cards
    {
      && Valid()
      && cards.Length == 2 * |LevelCards(currentLevel, data)|
      && multiset(cards[..]) == multiset(Deck(LevelCards(currentLevel, data)))
      && (forall n :: (multiset(NamesOf(cards[..]))[n] ==
            if n in NameSet(LevelCards(currentLevel, data)) then 2 else 0))
      && (forall j :: 0 <= j < cards.Length ==> !flipped[j] && !matched[j])
      && score == 0 && matchedCount == 0
      && firstCard.None? && secondCard.None? && !lockBoard && pairTimer.NoTimer? && !levelTimer
      && Background.IsPlurality(Background.VoteKeys(LevelCards(currentLevel, data)), background)
    }

    /** The globals as the script starts, once the start screen shows. */
    constructor ()
      ensures Valid()
      ensures screen == StartScreen && currentLevel == 1
      ensures cards.Length == 0 && score == 0 && matchedCount == 0
      ensures firstCard.None? && secondCard.None? && !lockBoard
      ensures pairTimer.NoTimer? && !levelTimer
    {
      cards := new Card[0];
      flipped, matched := [], [];
      firstCard, secondCard := None, None;
      lockBoard := false;
      score, matchedCount := 0, 0;
      currentLevel := 1;
      screen := StartScreen;
      background := "other";
      pairTimer, levelTimer := NoTimer, false;
    }

    /** `resetBoard`: clear the selection and unlock. */
    method ResetBoard()
      modifies this
      ensures firstCard.None? && secondCard.None? && !lockBoard
      ensures cards == old(cards) && flipped == old(flipped) && matched == old(matched)
      ensures score == old(score) && matchedCount == old(matchedCount)
      ensures currentLevel == old(currentLevel) && screen == old(screen) && background == old(background)
      ensures pairTimer == old(pairTimer) && levelTimer == old(levelTimer)
    {
      firstCard, secondCard, lockBoard := None, None, false;
    }

    /** `checkForMatch`: compare the two selected cards' names and schedule
        the matching or the mismatching callback. */
    method CheckForMatch()
      requires firstCard.Some? && secondCard.Some?
      requires firstCard.value < cards.Length && secondCard.value < cards.Length
      modifies this
      ensures pairTimer == if old(SelectedMatch()) then DisableTimer else UnflipTimer
      ensures cards == old(cards) && flipped == old(flipped) && matched == old(matched)
      ensures firstCard == old(firstCard) && secondCard == old(secondCard) && lockBoard == old(lockBoard)
      ensures score == old(score) && matchedCount == old(matchedCount)
      ensures currentLevel == old(currentLevel) && screen == old(screen) && background == old(background)
      ensures levelTimer == old(levelTimer)
    {
      var isMatch := cards[firstCard.value].name == cards[secondCard.value].name;
      pairTimer := if isMatch then DisableTimer else UnflipTimer;
    }

    /** `flipCard`, the click handler of card `k`. A matched card has no
        handler any more, and a click while the board is locked or on the
        first selected card does nothing. Otherwise the card turns face up
        and becomes the first selection, or, if there is one, the second:
        then the board locks and the pair is checked. */
    method FlipCard(k: nat)
      requires Valid() && k < cards.Length
      modifies this
      ensures Valid()
      ensures old(matched[k] || lockBoard || firstCard == Some(k)) ==> unchanged(this)
      ensures !old(matched[k] || lockBoard || firstCard == Some(k)) ==>
        && cards == old(cards) && background == old(background)
        && flipped == old(flipped)[k := true] && matched == old(matched)
        && score == old(score) && matchedCount == old(matchedCount)
        && currentLevel == old(currentLevel) && screen == old(screen) && levelTimer == old(levelTimer)
        && (old(firstCard).None? ==>
              firstCard == Some(k) && secondCard.None? && !lockBoard && pairTimer.NoTimer?)
        && (old(firstCard).Some? ==>
              && firstCard == old(firstCard) && secondCard == Some(k) && lockBoard
              && pairTimer == if cards[firstCard.value].name == cards[k].name then DisableTimer else UnflipTimer)
    {
      if matched[k] || lockBoard || firstCard == Some(k) {
        return;
      }
      // A pending next level or a screen other than the game means every
      // card is matched, so an unmatched `k` rules both out.
      CountTrueFull(matched);
      flipped := flipped[k := true];
      if firstCard.None? {
        firstCard := Some(k);
        return;
      }
      secondCard := Some(k);
      lockBoard := true;
      CheckForMatch();
    }

    /** The callback `disableCards` schedules, on a match: both cards
        become matched (and lose their handlers), the score goes up by one
        and `matchedCount` by two, the board is reset, and the next level is
        scheduled exactly when every card of the deck is now matched. */
    method DisableCards()
      requires Valid() && pairTimer.DisableTimer?
      modifies this
      ensures Valid()
      ensures matched == old(matched)[old(firstCard).value := true][old(secondCard).value := true]
      ensures flipped == old(flipped) && cards == old(cards)
      ensures score == old(score) + 1 && matchedCount == old(matchedCount) + 2
      ensures firstCard.None? && secondCard.None? && !lockBoard && pairTimer.NoTimer?
      ensures levelTimer <==> matchedCount == cards.Length
      ensures levelTimer <==> forall j :: 0 <= j < cards.Length ==> matched[j]
      ensures currentLevel == old(currentLevel) && screen == old(screen) && background == old(background)
    {
      var f, s := firstCard.value, secondCard.value;
      CountTrueRaise(matched, f);
      CountTrueRaise(matched[f := true], s);
      matched := matched[f := true][s := true];
      score := score + 1;
      matchedCount := matchedCount + 2;
      pairTimer := NoTimer;
      ResetBoard();
      CountTrueFull(matched);
      if matchedCount == cards.Length {
        levelTimer := true;
      }
    }

    /** The callback `unflipCards` schedules, on a mismatch: both cards
        turn face down and the board is reset; nothing is scored. */
    method UnflipCards()
      requires Valid() && pairTimer.UnflipTimer?
      modifies this
      ensures Valid()
      ensures flipped == old(flipped)[old(firstCard).value := false][old(secondCard).value := false]
      ensures matched == old(matched) && cards == old(cards)
      ensures score == old(score) && matchedCount == old(matchedCount)
      ensures firstCard.None? && secondCard.None? && !lockBoard && pairTimer.NoTimer?
      ensures currentLevel == old(currentLevel) && screen == old(screen) && levelTimer == old(levelTimer)
      ensures background == old(background)
    {
      var f, s := firstCard.value, secondCard.value;
      flipped := flipped[f := false][s := false];
      pairTimer := NoTimer;
      ResetBoard();
    }

    /** The part of `loadLevel(level)` that runs once the card list `data`
        has arrived: the level's cards are chosen and voted on for the
        background, the deck of pairs is built and shuffled, and
        `generateCards` lays it out face down with score and
        `matchedCount` at zero. */
    method LoadLevel(data: seq<Card>)
      requires firstCard.None? && secondCard.None? && !lockBoard
      requires pairTimer.NoTimer? && !levelTimer
      requires screen == GameScreen && 1 <= currentLevel <= TotalLevels
      modifies this
      ensures fresh(cards) && FreshDeal(data)
      ensures currentLevel == old(currentLevel) && screen == old(screen)
    {
      var levelCards := SelectLevelCards(currentLevel, data);
      var chosen := Background.ApplyBackgroundForLevel(levelCards);
      var deck := Deal(levelCards);
      DealtDeckHoldsPairs(currentLevel, data, deck[..]);
      background, cards := chosen, deck;
      GenerateCards();
    }

    /** `cards = [...levelCards, ...levelCards]` followed by
        `shuffleCards()`: a fresh array holding the level's deck in some
        order. */
    static method Deal(levelCards: seq<Card>) returns (deck: array<Card>)
      ensures fresh(deck)
      ensures deck.Length == 2 * |levelCards|
      ensures multiset(deck[..]) == multiset(Deck(levelCards))
    {
      var pairs := levelCards + levelCards;
      deck := new Card[|pairs|](i requires 0 <= i < |pairs| => pairs[i]);
      assert deck[..] == Deck(levelCards);
      Shuffle.ShuffleCards(deck);
    }

    /** The state reset of `generateCards`: every card face down and
        unmatched, score and `matchedCount` back to zero. */
    method GenerateCards()
      requires firstCard.None? && secondCard.None? && !lockBoard
      requires pairTimer.NoTimer? && !levelTimer
      requires screen == GameScreen && 1 <= currentLevel <= TotalLevels
      modifies this
      ensures Valid()
      ensures forall j :: 0 <= j < cards.Length ==> !flipped[j] && !matched[j]
      ensures score == 0 && matchedCount == 0
      ensures cards == old(cards) && firstCard.None? && secondCard.None? && !lockBoard
      ensures pairTimer.NoTimer? && !levelTimer
      ensures currentLevel == old(currentLevel) && screen == old(screen) && background == old(background)
    {
      matchedCount := 0;
      score := 0;
      flipped := seq(cards.Length, _ => false);
      matched := seq(cards.Length, _ => false);
      CountTrueNone(cards.Length);
    }

    /** `startGame`, the start button: show the game screen and load the
        current level. */
    method StartGame(data: seq<Card>)
      requires Valid() && screen == StartScreen
      modifies this
      ensures fresh(cards) && FreshDeal(data) && screen == GameScreen
      ensures currentLevel == old(currentLevel)
    {
      screen := GameScreen;
      LoadLevel(data);
    }

    /** `endGame`: show the end screen with the score. */
    method EndGame()
      requires Valid() && levelTimer
      modifies this
      ensures Valid() && screen == EndScreen && !levelTimer
      ensures cards == old(cards) && score == old(score) && currentLevel == old(currentLevel)
      ensures flipped == old(flipped) && matched == old(matched) && matchedCount == old(matchedCount)
      ensures background == old(background)
    {
      levelTimer := false;
      screen := EndScreen;
    }

    /** The callback `nextLevel` schedules once every card is matched:
        below the last level, advance the level and load it from `data`;
        at the last level, end the game, keeping the score, which counts
        the pairs of that last deck only. */
    method NextLevel(data: seq<Card>)
      requires Valid() && levelTimer
      modifies this
      ensures Valid() && !levelTimer
      ensures old(currentLevel) < TotalLevels ==>
        && currentLevel == old(currentLevel) + 1 && screen == GameScreen && fresh(cards)
        && FreshDeal(data)
      ensures old(currentLevel) >= TotalLevels ==>
        && currentLevel == old(currentLevel) && screen == EndScreen
        && cards == old(cards) && score == old(score) && background == old(background)
        && 2 * score == cards.Length
    {
      CompletedLevel(this);
      if currentLevel < TotalLevels {
        levelTimer := false;
        currentLevel := currentLevel + 1;
        LoadLevel(data);
      } else {
        EndGame();
      }
    }

    /** `restartGame`, the restart button: back to the start screen at
        level one. */
    method RestartGame()
      requires Valid() && screen == EndScreen
      modifies this
      ensures Valid() && screen == StartScreen && currentLevel == 1
      ensures cards == old(cards) && score == old(score) && matchedCount == old(matchedCount)
      ensures flipped == old(flipped) && matched == old(matched) && background == old(background)
    {
      screen := StartScreen;
      currentLevel := 1;
    }
  }
}
