# Memory card game: game logic in Dafny

This project models the game logic of a browser memory-matching game for
children, written in `index.js`. The game has three levels. Each level is
a deck holding every one of the level's animal cards twice. The player
turns over two cards at a time. A pair with equal names stays face up and
scores a point. A mismatching pair turns back face down. When every card
is matched, the next level loads; after level three the end screen shows
the score.

The model has six modules:

- `Cards`: the card record (`name`, `image`, optional `habitat`) and
  facts about name sets and name counts.
- `Habitat`: `detectHabitatForAnimal`. It normalises the name, then does
  ordered substring matching against the air, water and land keyword
  lists. A name matching none of them is `other`.
- `Selection`: the level builder.
  - `groupUniqueByHabitat` and `pickUniqueCards`, both loops over a
    `seen` set.
  - The per-level choice in `loadLevel`: land, water, or air followed by
    other, with a fallback to the first 4, 6 or 9 unique cards.
  - The deck of pairs.
- `Background`: the plurality vote of `applyBackgroundForLevel`.
- `Shuffle`: `shuffleCards`, an in-place Fisher–Yates shuffle over an
  `array`. The random draw is an arbitrary choice of `j` in `[0, i]`.
- `Game`: the game's globals as the fields of a `Game` object, and its
  handlers as methods.
  - Cards are named by their index in the deck.
  - Each `setTimeout` callback is an explicit step, enabled only while it
    is scheduled. The fields `pairTimer` and `levelTimer` record what is
    scheduled.
  - The invariant `Valid()` always holds. At most the two selected cards
    are face up without being matched. The board is locked exactly while
    a pair waits for its callback. `matchedCount` counts the matched
    cards and equals twice the score.

The loops of the source that build a result are methods with loop
invariants, each proved against a reference function or property:

- `GroupUniqueByHabitat` (the `seen` loop of `groupUniqueByHabitat`)
  returns exactly `Group(data, h)` for each habitat `h`, that is
  `UniqueByName` filtered by habitat.
- `PickUniqueCards` returns a prefix of `UniqueByName(data)` whose
  length is given by `PickLength`.
- `SelectLevelCards` combines the two and returns exactly `LevelCards`.
- `CountVotes` (the counting loop of `applyBackgroundForLevel`) returns
  the number of votes for each key of `VoteKeys`, with keys in order of
  first vote. The scan that follows it, in `ApplyBackgroundForLevel`,
  ends on the plurality key, `IsPlurality`.
- `ShuffleCards` (the loop of `shuffleCards`) is proved to leave a
  permutation of the array's contents.

The early-return keyword loops of `detectHabitatForAnimal` are the
recursive functions `FirstKeywordHit` and `Includes`. Each is proved
equivalent to an existential statement: some keyword occurs, or the
keyword occurs at some position. The deck `[...levelCards,
...levelCards]` is the function `Deck`. The properties the game relies on
are proved as lemmas about these reference functions.

## Model

| member | source | states |
|---|---|---|
| Habitat.HabitatName | index.js:185-190 | the classifier's result is one of the four keys `land`, `water`, `air`, `other` |
| Habitat.Norm | index.js:163-166 | the normalised name keeps no combining mark (U+0300..U+036F) and no ASCII capital, and is no longer than the name |
| Habitat.NormIdempotent | index.js:166-182 | normalising an already normalised string changes nothing |
| Habitat.Includes | index.js:185-187 | `s.includes(kw)` holds exactly when `kw` occurs in `s` at some position |
| Habitat.FirstKeywordHit | index.js:185-187 | the early-return keyword loop answers true exactly when some keyword of the list occurs in the name |
| Habitat.DetectHabitat | index.js:159-191 | air when an air keyword occurs; water when no air keyword but a water keyword occurs; land when only land keywords occur; other exactly when no keyword of any list occurs |
| Habitat.SturgeonKeywordNormalised | index.js:168-170 | the water keyword written `eršket` normalises to the listed `ersket`, so a name such as `Eršketas` contains a water keyword |
| Habitat.AirKeywordWins | index.js:184-185 | a name containing an air keyword is classified air, whatever water or land keywords it also contains |
| Habitat.DetectHabitatOfNormalised | index.js:181-182 | classifying the normalised name gives the same habitat as classifying the raw name |
| Selection.FirstsMembers | index.js:127-130 | a card is kept by the `seen` scan of a prefix exactly when it is the first card of its name at some position of that prefix |
| Selection.FirstsNames | index.js:125-130 | the kept cards have pairwise-distinct names, and exactly the names of the scanned prefix |
| Selection.FirstsPrefix | index.js:144-150 | scanning further only appends to the kept cards, so stopping early gives a prefix |
| Selection.UniqueByNameProperties | index.js:125-130 | the deduplicated list has distinct names, the same name set as the card list, one card per distinct name, and holds exactly the first occurrences |
| Selection.PickUniqueCards | index.js:141-154 | the result is a prefix of the deduplicated list, in list order, with distinct names; it has at most `count` cards (one card when `count` is not positive and the list is not empty), and fewer than `count` only when the list has no more distinct names |
| Selection.Place | index.js:131-135 | appending a card to its detected habitat's bucket grows only that bucket, by that card at the end, and leaves the other three unchanged |
| Selection.OfHabitatMembers | index.js:131-135 | a bucket holds exactly the cards whose detected habitat is the bucket's |
| Selection.OfHabitatPartition | index.js:131-135 | the four buckets together hold each card exactly as often as the list does |
| Selection.OfHabitatDistinct | index.js:129-135 | bucketing keeps names distinct |
| Selection.GroupUniqueByHabitat | index.js:124-138 | each returned bucket is, in list order, the first occurrences whose detected habitat is that bucket's |
| Selection.GroupsPartitionUnique | index.js:124-138 | every first occurrence lies in the bucket of its habitat and in no other; the buckets hold nothing else; each bucket has distinct names |
| Selection.LevelGroupMembers | index.js:98-107 | level 1's group is the land cards, level 2's the water cards, any other level's the air and other cards, all drawn from the deduplicated list |
| Selection.AirOtherDistinct | index.js:104-107 | the air bucket followed by the other bucket has distinct names |
| Selection.UniqueEmptyIff | index.js:109-113 | the deduplicated list is empty exactly when the card list is |
| Selection.LevelCardsContents | index.js:98-113 | a level's cards are its habitats' unique cards when that group is non-empty, and otherwise the first 4, 6 or 9 unique cards; they have distinct names and are empty exactly when the card list is |
| Selection.SelectLevelCards | index.js:93-113 | the grouping, the level choice and the fallback pick compute exactly the level's cards |
| Selection.Deck | index.js:117 | the deck is twice as long as the level's cards, is even, and holds each card twice as often as the level does, once in each half |
| Selection.DeckHoldsPairs | index.js:117 | with distinct names, every name of the level lies on exactly two cards of the deck and no other name on any |
| Selection.LevelDeckHoldsPairs | index.js:98-117 | every level's deck has even length and holds each of its names exactly twice |
| Background.VoteKey | index.js:197 | a card votes for its own `habitat` when that is a non-empty string, and otherwise for the habitat detected from its name, one of the four keys; the vote is never empty |
| Background.FirstIndexIsFirst | index.js:195-199 | no vote for a key comes before the key's first vote |
| Background.CountVotes | index.js:194-199 | `counts` maps exactly the voted keys, each to its number of votes, and the keys are visited in order of first vote |
| Background.ScanFindsPlurality | index.js:201-208 | the strictly-greater scan ends on a key with the most votes, which no key voted for before it ties |
| Background.ApplyBackgroundForLevel | index.js:193-208 | the chosen key is the plurality of the level's votes: `other` for an empty level; otherwise a voted key, with no key having more votes, and every key first voted before it having strictly fewer (ties go to the key counted first) |
| Background.PluralityUnique | index.js:201-208 | the plurality is unique: two keys that both satisfy it are the same key |
| Shuffle.Swap | index.js:220 | the two positions are exchanged, nothing else changes, and the contents are a permutation |
| Shuffle.ShuffleCards | index.js:217-222 | whatever index each step draws, the array's final contents are a permutation of its initial contents |
| Cards.NamesOfPermutation | index.js:217-222 | reordering the cards does not change how often each name occurs |
| Cards.DistinctNamesOccurOnce | index.js:117 | with distinct names, each name of the level occurs once in its name list |
| Game.DealtDeckHoldsPairs | index.js:117-118 | after any shuffle, every name of the level lies on exactly two dealt cards and no other name on any |
| Game.CountTrueRaise | index.js:273-279 | matching one unmatched card raises the number of matched cards by one |
| Game.CountTrueFull | index.js:283 | the number of matched cards equals the deck length exactly when every card is matched |
| Game.CompletedLevel | index.js:278-283 | when the next level is pending, every card is matched and the score is the number of pairs in the deck |
| Game.Game.constructor | index.js:8-14 | the initial globals: level 1, score and matched count zero, no selection, unlocked, nothing scheduled |
| Game.Game.ResetBoard | index.js:295-297 | the selection is cleared and the board unlocked; nothing else changes |
| Game.Game.CheckForMatch | index.js:266-269 | the matching callback is scheduled exactly when the two selected cards carry the same name, otherwise the mismatching one |
| Game.Game.FlipCard | index.js:249-264 | a click on a matched card, while locked, or on the first selected card changes nothing; otherwise the card turns face up and becomes the first selection (unlocked), or the second (locked, with the match or mismatch callback scheduled as the names say), while the deck, the matched cards, the score, the level, the screen and the background stay as they were; the invariant is kept |
| Game.Game.DisableCards | index.js:271-285 | both cards become matched, score rises by 1 and matched count by 2, the board is reset, and the next level is scheduled exactly when the matched count reaches the deck length, that is when every card is matched |
| Game.Game.UnflipCards | index.js:287-293 | both cards turn face down, the board is reset, and score and matched count stay unchanged |
| Game.Game.Deal | index.js:117-118 | the dealt array is fresh, twice as long as the level's cards, and a permutation of the level's deck |
| Game.Game.GenerateCards | index.js:224-247 | every card face down and unmatched, score and matched count zero |
| Game.Game.LoadLevel | index.js:87-121 | the current level's deck is dealt shuffled into a fresh array, every name of the level lies on exactly two cards, every card is face down and unmatched, nothing is selected or scheduled, the score is zero, and the background is the plurality vote over the level's cards; the invariant holds, and level and screen are unchanged |
| Game.Game.StartGame | index.js:82-85 | the game screen shows the current level freshly dealt, with every fact `LoadLevel` states: pairs, all face down, no selection or callback, score zero, the voted background |
| Game.Game.EndGame | index.js:315-318 | the end screen shows, with the score, the deck, the matched cards, the level and the background kept |
| Game.Game.NextLevel | index.js:304-313 | below the last level, the level advances and is dealt with every fact `LoadLevel` states; at the last level the game ends with the score, the deck and the background kept, the score equal to the pairs of the last deck |
| Game.Game.RestartGame | index.js:320-323 | back to the start screen at level 1, with the deck, the card states, the score and the background kept until the next deal |

## Left out

- Rendering and the DOM are not modelled; the state is kept in fields only. This covers the card elements, screen panels, score and level-title text, grid column widths and CSS classes.
- The preloader `showLoadingThenStart` (index.js:26-80) is left out: image loading, `Date.now` and its 3000/8000 ms timers. The `Game` constructor starts at the state the start screen is shown in.
- `fetch` of the card list is I/O and is left out. The card list is a parameter `data` of the methods that load a level. The request and its callback are collapsed into one step, `LoadLevel`. In the source, between the two, the previous deck remains on screen, but all of its cards are matched and so not clickable. A failed request, which leaves the level unloaded, is not modelled.
- The 400, 1000 and 800 ms delays are not modelled. Each fired callback is an explicit method, enabled while it is scheduled.
- Habitat.DetectHabitat: the keyword lists are given in their normalised form, diacritics removed and lower case, in the source's order. The source writes them with Lithuanian letters and normalises them at run time. That its spelling normalises to the listed string is proved for `eršket` only (`SturgeonKeywordNormalised`), not for the other keywords.
- Habitat.Norm: only NFD decomposition and mark removal for the letters of the Lithuanian alphabet are modelled (ą č ę ė į š ų ū ž and capitals); lower-casing covers only ASCII capitals. Other Unicode letters pass through unchanged, because the Unicode tables are outside the model.
- Background.ApplyBackgroundForLevel: `for (h in counts)` is modelled as visiting keys in insertion order. JavaScript visits integer-like keys (such as `"7"`) first, in numeric order; an explicit `habitat` field holding such a value is not modelled. Nor is one that names a member of `Object.prototype`, such as `"constructor"`, `"toString"` or `"__proto__"`. In the source, `counts[h] || 0` reads the inherited member, so the count becomes a string, or for `__proto__` is not stored at all. Such a key then never passes `counts[h] > max`, so the source never chooses it, while the model counts it like any other key.
- Cards: `name` and `habitat` are strings, and a missing name is the empty string. That matches the classifier, where `(item.name || '')` makes it empty. The match test differs: it compares `dataset.name` (index.js:267), set by `setAttribute("data-name", card.name)` (index.js:237), where a missing name becomes the string `undefined`. In the source a nameless card and a card named `undefined` therefore match; in the model they do not. A habitat that is not a string, and is made one by `toString()`, is not modelled.
- Shuffle.ShuffleCards: the uniform distribution of `Math.random` is not modelled. Only the range of each draw is.
- Game.Game.StartGame and Game.Game.RestartGame require the start and the end screen respectively. Their buttons live on those screens, and the page's markup is not part of this model.
- `restart` (index.js:299-302) and `skipToEnd` (index.js:325-329) are never called and are left out.
- Where the background image is set (index.js:209-214) is left out. The key the vote chooses is kept in the field `background`.
- The score is reset to zero in `generateCards` at every level load (index.js:227), so the end screen shows the pairs of the last level only. The model follows the code.
