/** The level builder: deduplication of the card list by name, bucketing
    the unique cards by habitat, picking the first unique cards, choosing a
    level's cards, and building a level's deck of pairs. */
module Selection {
  import opened Cards
  import opened Habitat

  function Min(a: int, b: int): int { if a <= b then a else b }

  // ---------------------------------------------------------------------
  // First occurrences by name: the reference for every "seen" loop.

  /** `data[i]` is the first card of `data` that carries its name. */
  predicate IsFirst(data: seq<Card>, i: int)
    requires 0 <= i < |data|
  {
    forall j :: 0 <= j < i ==> data[j].name != data[i].name
  }

  /** The loops' test `!seen.has(name)`, with `seen` the names of the
      prefix before `i`, is exactly the first-occurrence test. */
  lemma IsFirstIffUnseen(data: seq<Card>, i: int)
    requires 0 <= i < |data|
    ensures IsFirst(data, i) <==> data[i].name !in NameSet(data[..i])
  {
    if !IsFirst(data, i) {
      var j :| 0 <= j < i && data[j].name == data[i].name;
      assert data[..i][j] == data[j];
    }
  }

  lemma NameSetPrefixStep(data: seq<Card>, i: int)
    requires 0 <= i < |data|
    ensures NameSet(data[..i + 1]) == NameSet(data[..i]) + {data[i].name}
  {
    assert data[..i + 1] == data[..i] + [data[i]];
    NameSetAppend(data[..i], data[i]);
  }

  /** The first card of each name among `data[..n]`, in their order in
      `data`. */
  function FirstsUpTo(data: seq<Card>, n: nat): seq<Card>
    requires n <= |data|
  {
    if n == 0 then [] else FirstsUpTo(data, n - 1) + (if IsFirst(data, n - 1) then [data[n - 1]] else [])
  }

  /** A card is among the first occurrences of `data[..n]` exactly when it
      is the first card of its name at some position below `n`. */
  lemma {:induction false} FirstsMembers(data: seq<Card>, n: nat)
    requires n <= |data|
    ensures forall c :: c in FirstsUpTo(data, n) <==>
      exists i :: 0 <= i < n && data[i] == c && IsFirst(data, i)
  {
    if n > 0 {
      FirstsMembers(data, n - 1);
      var p := FirstsUpTo(data, n - 1);
      if IsFirst(data, n - 1) {
        assert FirstsUpTo(data, n) == p + [data[n - 1]];
      } else {
        assert FirstsUpTo(data, n) == p;
      }
    }
  }

  /** The card list deduplicated by name, keeping first occurrences. */
  function UniqueByName(data: seq<Card>): seq<Card>
  {
    FirstsUpTo(data, |data|)
  }

  /** The first occurrences carry pairwise-distinct names, and exactly the
      names of the prefix they are drawn from. */
  lemma {:induction false} FirstsNames(data: seq<Card>, n: nat)
    requires n <= |data|
    ensures DistinctNames(FirstsUpTo(data, n))
    ensures NameSet(FirstsUpTo(data, n)) == NameSet(data[..n])
  {
    if n > 0 {
      FirstsNames(data, n - 1);
      NameSetPrefixStep(data, n - 1);
      IsFirstIffUnseen(data, n - 1);
      var p := FirstsUpTo(data, n - 1);
      if IsFirst(data, n - 1) {
        NameSetAppend(p, data[n - 1]);
        var q := p + [data[n - 1]];
        assert FirstsUpTo(data, n) == q;
        forall i, j | 0 <= i < j < |q| ensures q[i].name != q[j].name {
          if j == |p| {
            assert q[i] == p[i];
            assert q[i].name in NameSet(p);
          } else {
            assert q[i] == p[i] && q[j] == p[j];
          }
        }
      } else {
        assert FirstsUpTo(data, n) == p;
      }
    }
  }

  /** Scanning further only appends: the first occurrences of a shorter
      prefix are a prefix of those of a longer one. */
  lemma {:induction false} FirstsPrefix(data: seq<Card>, m: nat, n: nat)
    requires m <= n <= |data|
    ensures FirstsUpTo(data, m) <= FirstsUpTo(data, n)
  {
    if m < n {
      FirstsPrefix(data, m, n - 1);
    }
  }

  /** The deduplicated list has one card per distinct name of `data`, and
      a card of `data` is in it exactly when it is a first occurrence. */
  lemma UniqueByNameProperties(data: seq<Card>)
    ensures DistinctNames(UniqueByName(data))
    ensures NameSet(UniqueByName(data)) == NameSet(data)
    ensures |UniqueByName(data)| == |NameSet(data)|
    ensures forall c :: c in UniqueByName(data) <==>
      exists i :: 0 <= i < |data| && data[i] == c && IsFirst(data, i)
  {
    FirstsNames(data, |data|);
    FirstsMembers(data, |data|);
    assert data[..|data|] == data;
    DistinctNamesCardinality(UniqueByName(data));
  }

  // ---------------------------------------------------------------------
  // pickUniqueCards

  /** How many cards `pickUniqueCards` returns from `u` distinct names: the
      card is pushed before the `count` test, so a non-positive `count`
      still yields one card when there is one. */
  function PickLength(u: nat, count: int): nat
  {
    if u == 0 then 0 else if count <= 1 then 1 else Min(u, count)
  }

  /** `pickUniqueCards(data, count)`: the first cards of distinct names, in
      their order in `data`, stopping once `count` are collected. */
  method PickUniqueCards(data: seq<Card>, count: int) returns (result: seq<Card>)
    ensures result <= UniqueByName(data)
    ensures |result| == PickLength(|NameSet(data)|, count)
    ensures DistinctNames(result)
    ensures count >= 1 ==> |result| <= count
    ensures |result| < count ==> |result| == |NameSet(data)|
  {
    result := [];
    var seen: set<string> := {};
    var i := 0;
    while i < |data|
      invariant 0 <= i <= |data|
      invariant result == FirstsUpTo(data, i)
      invariant seen == NameSet(data[..i])
      invariant result == [] || |result| < count
    {
      var n := data[i].name;
      IsFirstIffUnseen(data, i);
      NameSetPrefixStep(data, i);
      if n !in seen {
        result := result + [data[i]];
        seen := seen + {n};
        if |result| >= count {
          FirstsPrefix(data, i + 1, |data|);
          break;
        }
      }
      i := i + 1;
    }
    UniqueByNameProperties(data);
    FirstsNames(data, |data|);
    if i == |data| || |result| < count {
      FirstsPrefix(data, i, |data|);
    }
    assert DistinctNames(UniqueByName(data));
    assert forall a, b :: 0 <= a < b < |result| ==> result[a] == UniqueByName(data)[a] && result[b] == UniqueByName(data)[b];
  }

  // ---------------------------------------------------------------------
  // groupUniqueByHabitat

  /** The four habitat buckets. */
  datatype Groups = Groups(land: seq<Card>, water: seq<Card>, air: seq<Card>, other: seq<Card>)

  /** The cards of `s` that the classifier puts in habitat `h`, in order. */
  function OfHabitat(s: seq<Card>, h: Habitat): (r: seq<Card>)
    ensures |r| <= |s|
  {
    if s == [] then []
    else
      var p := s[..|s| - 1];
      assert s == p + [s[|s| - 1]];
      OfHabitat(p, h) + (if DetectHabitat(s[|s| - 1].name) == h then [s[|s| - 1]] else [])
  }

  /** The bucket holds exactly the cards of `s` of habitat `h`. */
  lemma {:induction false} OfHabitatMembers(s: seq<Card>, h: Habitat)
    ensures forall c :: c in OfHabitat(s, h) <==> c in s && DetectHabitat(c.name) == h
  {
    if s != [] {
      var p := s[..|s| - 1];
      assert s == p + [s[|s| - 1]];
      OfHabitatMembers(p, h);
    }
  }

  lemma OfHabitatSnoc(s: seq<Card>, c: Card, h: Habitat)
    ensures OfHabitat(s + [c], h) == OfHabitat(s, h) + (if DetectHabitat(c.name) == h then [c] else [])
  {
    assert (s + [c])[..|s|] == s;
  }

  /** The bucket of habitat `h` that `groupUniqueByHabitat` builds. */
  function Group(data: seq<Card>, h: Habitat): seq<Card>
  {
    OfHabitat(UniqueByName(data), h)
  }

  /** Filtering keeps names distinct. */
  lemma {:induction false} OfHabitatDistinct(s: seq<Card>, h: Habitat)
    requires DistinctNames(s)
    ensures DistinctNames(OfHabitat(s, h))
  {
    if s != [] {
      var p := s[..|s| - 1];
      var c := s[|s| - 1];
      assert DistinctNames(p);
      OfHabitatDistinct(p, h);
      OfHabitatMembers(p, h);
      var q := OfHabitat(p, h);
      if DetectHabitat(c.name) == h {
        var r := q + [c];
        forall i, j | 0 <= i < j < |r| ensures r[i].name != r[j].name {
          assert r[i] == q[i] && r[i] in p;
          var k :| 0 <= k < |p| && p[k] == r[i];
          if j == |q| {
            assert s[k] == p[k] && s[|s| - 1] == c;
          } else {
            assert r[j] == q[j];
          }
        }
      }
    }
  }

  /** The four buckets split `s`: together they hold every card of `s`
      exactly as often as `s` does. */
  lemma {:induction false} OfHabitatPartition(s: seq<Card>)
    ensures multiset(OfHabitat(s, Land)) + multiset(OfHabitat(s, Water))
          + multiset(OfHabitat(s, Air)) + multiset(OfHabitat(s, Other)) == multiset(s)
  {
    if s != [] {
      var p := s[..|s| - 1];
      assert s == p + [s[|s| - 1]];
      OfHabitatPartition(p);
    }
  }

  /** The buckets are those of the cards `u`. */
  ghost predicate Grouped(groups: Groups, u: seq<Card>)
  {
    && groups.land == OfHabitat(u, Land)
    && groups.water == OfHabitat(u, Water)
    && groups.air == OfHabitat(u, Air)
    && groups.other == OfHabitat(u, Other)
  }

  /** The bucket of habitat `h`. */
  function Bucket(groups: Groups, h: Habitat): seq<Card>
  {
    match h
    case Land => groups.land
    case Water => groups.water
    case Air => groups.air
    case Other => groups.other
  }

  /** The if-chain of `groupUniqueByHabitat`: push `item` onto the bucket
      of its detected habitat. That bucket grows by `item` at its end and
      the other three are unchanged. */
  function Place(groups: Groups, item: Card): (r: Groups)
    ensures forall h :: (Bucket(r, h) ==
      if h == DetectHabitat(item.name) then Bucket(groups, h) + [item] else Bucket(groups, h))
  {
    var h := DetectHabitat(item.name);
    if h == Land then groups.(land := groups.land + [item])
    else if h == Water then groups.(water := groups.water + [item])
    else if h == Air then groups.(air := groups.air + [item])
    else groups.(other := groups.other + [item])
  }

  /** Placing one more card keeps the buckets those of the extended list. */
  lemma PlaceSnoc(groups: Groups, u: seq<Card>, item: Card)
    requires Grouped(groups, u)
    ensures Grouped(Place(groups, item), u + [item])
  {
    OfHabitatSnoc(u, item, Land);
    OfHabitatSnoc(u, item, Water);
    OfHabitatSnoc(u, item, Air);
    OfHabitatSnoc(u, item, Other);
  }

  /** One iteration of the loop of `groupUniqueByHabitat`: `seen` gains
      the card's name, and the card is placed exactly when it is the first
      of its name. */
  lemma GroupStep(data: seq<Card>, i: nat, seen: set<string>, groups: Groups)
    requires i < |data| && seen == NameSet(data[..i]) && Grouped(groups, FirstsUpTo(data, i))
    ensures seen + {data[i].name} == NameSet(data[..i + 1])
    ensures data[i].name !in seen ==> Grouped(Place(groups, data[i]), FirstsUpTo(data, i + 1))
    ensures data[i].name in seen ==> Grouped(groups, FirstsUpTo(data, i + 1))
  {
    IsFirstIffUnseen(data, i);
    NameSetPrefixStep(data, i);
    if data[i].name !in seen {
      assert FirstsUpTo(data, i + 1) == FirstsUpTo(data, i) + [data[i]];
      PlaceSnoc(groups, FirstsUpTo(data, i), data[i]);
    } else {
      assert FirstsUpTo(data, i + 1) == FirstsUpTo(data, i);
    }
  }

  /** Before the loop: no name seen, four empty buckets. */
  lemma GroupStart(data: seq<Card>)
    ensures NameSet(data[..0]) == {}
    ensures Grouped(Groups([], [], [], []), FirstsUpTo(data, 0))
  {
  }

  /** `groupUniqueByHabitat(data)`: each bucket holds, in list order, the
      first occurrences whose name the classifier puts in that habitat. */
  method GroupUniqueByHabitat(data: seq<Card>) returns (groups: Groups)
    ensures groups.land == Group(data, Land)
    ensures groups.water == Group(data, Water)
    ensures groups.air == Group(data, Air)
    ensures groups.other == Group(data, Other)
  {
    var seen: set<string> := {};
    groups := Groups([], [], [], []);
    GroupStart(data);
    var i := 0;
    while i < |data|
      invariant 0 <= i <= |data|
      invariant seen == NameSet(data[..i])
      invariant Grouped(groups, FirstsUpTo(data, i))
    {
      var item := data[i];
      GroupStep(data, i, seen, groups);
      if item.name !in seen {
        groups := Place(groups, item);
      }
      seen := seen + {item.name};
      i := i + 1;
    }
  }

  /** Every unique card is in exactly one bucket, the one of its habitat;
      the buckets hold nothing else, and hold each card once. */
  lemma GroupsPartitionUnique(data: seq<Card>)
    ensures forall c, h :: c in Group(data, h) <==> c in UniqueByName(data) && DetectHabitat(c.name) == h
    ensures multiset(Group(data, Land)) + multiset(Group(data, Water))
          + multiset(Group(data, Air)) + multiset(Group(data, Other)) == multiset(UniqueByName(data))
    ensures forall h :: DistinctNames(Group(data, h))
  {
    OfHabitatPartition(UniqueByName(data));
    UniqueByNameProperties(data);
    forall h ensures forall c :: c in Group(data, h) <==> c in UniqueByName(data) && DetectHabitat(c.name) == h {
      OfHabitatMembers(UniqueByName(data), h);
    }
    forall h ensures DistinctNames(Group(data, h)) {
      OfHabitatDistinct(UniqueByName(data), h);
    }
  }

  // ---------------------------------------------------------------------
  // Level selection in `loadLevel`

  /** How many unique cards a level falls back to when its group is empty. */
  function FallbackCount(level: int): nat
  {
    if level == 1 then 4 else if level == 2 then 6 else 9
  }

  /** The habitats a level draws its cards from. */
  function LevelHabitats(level: int): set<Habitat>
  {
    if level == 1 then {Land} else if level == 2 then {Water} else {Air, Other}
  }

  /** The buckets of `u` a level takes: land, water, or air followed by
      other. */
  function LevelGroupOf(level: int, u: seq<Card>): seq<Card>
  {
    if level == 1 then OfHabitat(u, Land)
    else if level == 2 then OfHabitat(u, Water)
    else OfHabitat(u, Air) + OfHabitat(u, Other)
  }

  /** The group a level takes from the unique cards. */
  function LevelGroup(level: int, data: seq<Card>): seq<Card>
  {
    LevelGroupOf(level, UniqueByName(data))
  }

  /** The unique cards of a level: its group, or the first unique cards of
      the whole list when the group is empty. */
  function LevelCards(level: int, data: seq<Card>): seq<Card>
  {
    var g := LevelGroup(level, data);
    if |g| > 0 then g
    else UniqueByName(data)[..Min(|UniqueByName(data)|, FallbackCount(level))]
  }

  /** Air and other buckets never share a name, so their concatenation,
      level 3's group, has distinct names. */
  lemma AirOtherDistinct(data: seq<Card>)
    ensures DistinctNames(Group(data, Air) + Group(data, Other))
  {
    GroupsPartitionUnique(data);
    var a, o := Group(data, Air), Group(data, Other);
    var ao: seq<Card> := a + o;
    forall i, j | 0 <= i < j < |ao| ensures ao[i].name != ao[j].name {
      if i < |a| && j >= |a| {
        assert ao[i] == a[i] && ao[j] == o[j - |a|];
        assert DetectHabitat(ao[i].name) == Air && DetectHabitat(ao[j].name) == Other;
      } else if i < |a| {
        assert ao[i] == a[i] && ao[j] == a[j];
      } else {
        assert ao[i] == o[i - |a|] && ao[j] == o[j - |a|];
      }
    }
  }

  /** A prefix of the deduplicated list keeps distinct names and first
      occurrences only. */
  lemma UniquePrefix(data: seq<Card>, k: nat)
    requires k <= |UniqueByName(data)|
    ensures DistinctNames(UniqueByName(data)[..k])
    ensures forall c :: c in UniqueByName(data)[..k] ==> c in UniqueByName(data)
  {
    UniqueByNameProperties(data);
    var u := UniqueByName(data);
    var r := u[..k];
    forall i, j | 0 <= i < j < |r| ensures r[i].name != r[j].name {
      assert r[i] == u[i] && r[j] == u[j];
    }
  }

  /** The deduplicated list is empty exactly when the card list is. */
  lemma UniqueEmptyIff(data: seq<Card>)
    ensures |UniqueByName(data)| == 0 <==> |data| == 0
  {
    UniqueByNameProperties(data);
    if |data| > 0 {
      assert data[0] == data[0] && IsFirst(data, 0);
      assert data[0] in UniqueByName(data);
    }
  }

  /** The level's buckets of `u` hold exactly the cards of `u` whose
      habitat is one of the level's. */
  lemma LevelGroupOfMembers(level: int, u: seq<Card>, c: Card)
    ensures c in LevelGroupOf(level, u) <==> c in u && DetectHabitat(c.name) in LevelHabitats(level)
  {
    if level == 1 {
      OfHabitatMembers(u, Land);
    } else if level == 2 {
      OfHabitatMembers(u, Water);
    } else {
      OfHabitatMembers(u, Air);
      OfHabitatMembers(u, Other);
      assert LevelHabitats(level) == {Air, Other};
    }
  }

  /** A level's group holds exactly the unique cards of its habitats. */
  lemma LevelGroupMembers(level: int, data: seq<Card>, c: Card)
    ensures c in LevelGroup(level, data) <==>
      c in UniqueByName(data) && DetectHabitat(c.name) in LevelHabitats(level)
  {
    LevelGroupOfMembers(level, UniqueByName(data), c);
  }

  /** What a level is made of: when its group is non-empty, exactly the
      unique cards of the level's habitats; otherwise the first 4, 6 or 9
      unique cards; in both cases distinct names drawn from the unique
      cards, and non-empty exactly when the card list is. */
  lemma LevelCardsContents(level: int, data: seq<Card>)
    ensures |LevelGroup(level, data)| > 0 ==>
      forall c :: c in LevelCards(level, data) <==>
        c in UniqueByName(data) && DetectHabitat(c.name) in LevelHabitats(level)
    ensures |LevelGroup(level, data)| == 0 ==>
      LevelCards(level, data) == UniqueByName(data)[..Min(|UniqueByName(data)|, FallbackCount(level))]
    ensures DistinctNames(LevelCards(level, data))
    ensures forall c :: c in LevelCards(level, data) ==> c in UniqueByName(data)
    ensures |LevelCards(level, data)| == 0 <==> |data| == 0
  {
    GroupsPartitionUnique(data);
    UniqueEmptyIff(data);
    forall c ensures c in LevelGroup(level, data) <==>
      c in UniqueByName(data) && DetectHabitat(c.name) in LevelHabitats(level) {
      LevelGroupMembers(level, data, c);
    }
    if |LevelGroup(level, data)| == 0 {
      UniquePrefix(data, Min(|UniqueByName(data)|, FallbackCount(level)));
    } else if level != 1 && level != 2 {
      AirOtherDistinct(data);
    }
  }

  /** Level selection in `loadLevel(level)`: the grouping and picking
      loops compute exactly `LevelCards(level, data)`. */
  method SelectLevelCards(level: int, data: seq<Card>) returns (levelCards: seq<Card>)
    ensures levelCards == LevelCards(level, data)
  {
    var groups := GroupUniqueByHabitat(data);
    if level == 1 {
      levelCards := groups.land;
    } else if level == 2 {
      levelCards := groups.water;
    } else {
      levelCards := groups.air + groups.other;
    }
    if |levelCards| == 0 {
      levelCards := PickUniqueCards(data, FallbackCount(level));
      UniqueByNameProperties(data);
    }
  }

  // ---------------------------------------------------------------------
  // Deck building: `cards = [...levelCards, ...levelCards]`

  /** A level's deck: its unique cards followed by the same cards again. */
  function Deck(levelCards: seq<Card>): (deck: seq<Card>)
    ensures |deck| == 2 * |levelCards| && |deck| % 2 == 0
    ensures multiset(deck) == multiset(levelCards) + multiset(levelCards)
    ensures forall k :: 0 <= k < |levelCards| ==> deck[k] == levelCards[k] && deck[k + |levelCards|] == levelCards[k]
  {
    levelCards + levelCards
  }

  /** When the level's names are distinct, every name of the level occurs
      exactly twice in the deck and no other name occurs at all: each card
      has exactly one partner. */
  lemma DeckHoldsPairs(levelCards: seq<Card>)
    requires DistinctNames(levelCards)
    ensures forall n :: multiset(NamesOf(Deck(levelCards)))[n] == (if n in NameSet(levelCards) then 2 else 0)
  {
    DistinctNamesOccurOnce(levelCards);
    var d := Deck(levelCards);
    assert NamesOf(d) == NamesOf(levelCards) + NamesOf(levelCards);
  }

  /** A level's deck pairs up every card: the level's cards have distinct
      names, so each name in the deck occurs exactly twice. */
  lemma LevelDeckHoldsPairs(level: int, data: seq<Card>)
    ensures |Deck(LevelCards(level, data))| % 2 == 0
    ensures forall n :: (multiset(NamesOf(Deck(LevelCards(level, data))))[n] ==
      if n in NameSet(LevelCards(level, data)) then 2 else 0)
  {
    LevelCardsContents(level, data);
    DeckHoldsPairs(LevelCards(level, data));
  }
}
