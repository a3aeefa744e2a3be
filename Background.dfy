/** The level background: a plurality vote over the habitats of a level's
    cards; ties go to the habitat counted first. Only the vote is modelled,
    not the image it selects. */
module Background {
  import opened Cards
  import opened Habitat

  /** The key a card votes with: its explicit habitat when it has a
      non-empty one, otherwise the name of its detected habitat. */
  function VoteKey(c: Card): (k: string)
    ensures k != ""
    ensures c.habitat.Some? && c.habitat.value != "" ==> k == c.habitat.value
    ensures c.habitat.None? || c.habitat.value == "" ==> k in {"land", "water", "air", "other"}
  {
    if c.habitat.Some? && c.habitat.value != "" then c.habitat.value
    else HabitatName(DetectHabitat(c.name))
  }

  /** The votes of a level, in card order. */
  function VoteKeys(cards: seq<Card>): (keys: seq<string>)
    ensures |keys| == |cards|
  {
    seq(|cards|, i requires 0 <= i < |cards| => VoteKey(cards[i]))
  }

  /** The position of the first occurrence of `x` in `s`. */
  function FirstIndex(s: seq<string>, x: string): (i: nat)
    requires x in s
    ensures i < |s| && s[i] == x
  {
    if s[0] == x then 0 else 1 + FirstIndex(s[1..], x)
  }

  /** No occurrence of `x` comes before its first one. */
  lemma {:induction false} FirstIndexIsFirst(s: seq<string>, x: string, j: int)
    requires 0 <= j < |s| && s[j] == x
    ensures FirstIndex(s, x) <= j
  {
    if s[0] != x {
      FirstIndexIsFirst(s[1..], x, j - 1);
    }
  }

  /** The scan over the counted keys in counting order, taking strictly
      larger counts only, ends on a plurality key that no earlier key
      ties. */
  lemma ScanFindsPlurality(keys: seq<string>, counts: map<string, nat>, order: seq<string>, m: nat)
    requires forall h :: h in counts <==> h in keys
    requires forall h :: h in counts ==> counts[h] == multiset(keys)[h]
    requires forall h :: h in order <==> h in counts
    requires forall a :: 0 <= a < |order| ==> order[a] in keys
    requires forall a, b :: 0 <= a < b < |order| ==> FirstIndex(keys, order[a]) < FirstIndex(keys, order[b])
    requires m < |order|
    requires forall a :: 0 <= a < |order| ==> counts[order[a]] <= counts[order[m]]
    requires forall a :: 0 <= a < m ==> counts[order[a]] < counts[order[m]]
    ensures order[m] in keys
    ensures forall k :: k in keys ==> multiset(keys)[k] <= multiset(keys)[order[m]]
    ensures forall n :: 0 <= n < FirstIndex(keys, order[m]) ==> multiset(keys)[keys[n]] < multiset(keys)[order[m]]
  {
    var chosen := order[m];
    forall k | k in keys ensures multiset(keys)[k] <= multiset(keys)[chosen] {
      var a :| 0 <= a < |order| && order[a] == k;
    }
    forall n | 0 <= n < FirstIndex(keys, chosen)
      ensures multiset(keys)[keys[n]] < multiset(keys)[chosen]
    {
      assert keys[n] in keys && keys[n] in counts && keys[n] in order;
      var a :| 0 <= a < |order| && order[a] == keys[n];
      FirstIndexIsFirst(keys, keys[n], n);
      assert a < m;
    }
  }

  /** After the first `i` votes: `counts` maps each key met so far to its
      number of votes, and `order` lists those keys by first appearance. */
  ghost predicate Tally(keys: seq<string>, i: nat, counts: map<string, nat>, order: seq<string>)
    requires i <= |keys|
  {
    && (forall h :: h in counts <==> h in keys[..i])
    && (forall h :: h in counts ==> counts[h] == multiset(keys[..i])[h])
    && (forall h :: h in order <==> h in counts)
    && (forall a :: 0 <= a < |order| ==> order[a] in keys && order[a] in counts)
    && (forall a, b :: 0 <= a < b < |order| ==> FirstIndex(keys, order[a]) < FirstIndex(keys, order[b]))
    && (forall a :: 0 <= a < |order| ==> FirstIndex(keys, order[a]) < i)
  }

  /** A vote for a key already counted adds one to its count. */
  lemma TallySeen(keys: seq<string>, i: nat, counts: map<string, nat>, order: seq<string>)
    requires i < |keys| && Tally(keys, i, counts, order) && keys[i] in counts
    ensures Tally(keys, i + 1, counts[keys[i] := counts[keys[i]] + 1], order)
  {
    var h := keys[i];
    assert keys[..i + 1] == keys[..i] + [h];
    assert multiset(keys[..i + 1]) == multiset(keys[..i]) + multiset{h};
  }

  /** A vote for a new key counts it once and appends it to the order. */
  lemma TallyNew(keys: seq<string>, i: nat, counts: map<string, nat>, order: seq<string>)
    requires i < |keys| && Tally(keys, i, counts, order) && keys[i] !in counts
    ensures Tally(keys, i + 1, counts[keys[i] := 1], order + [keys[i]])
  {
    var h := keys[i];
    assert keys[..i + 1] == keys[..i] + [h];
    assert multiset(keys[..i + 1]) == multiset(keys[..i]) + multiset{h};
    assert h !in keys[..i];
    assert FirstIndex(keys, h) == i by {
      FirstIndexIsFirst(keys, h, i);
    }
    var o := order + [h];
    assert forall a :: 0 <= a < |order| ==> o[a] == order[a];
    assert o[|order|] == h;
  }

  /** The first loop of `applyBackgroundForLevel`: `counts` maps each
      key to its number of votes, and `order` lists the keys in the order
      they were inserted, which is the order `for (h in counts)` visits
      them: by first appearance among the votes. */
  method CountVotes(levelCards: seq<Card>) returns (counts: map<string, nat>, order: seq<string>)
    ensures forall h :: h in counts <==> h in VoteKeys(levelCards)
    ensures forall h :: h in counts ==> counts[h] == multiset(VoteKeys(levelCards))[h]
    ensures forall h :: h in order <==> h in counts
    ensures forall a :: 0 <= a < |order| ==> order[a] in VoteKeys(levelCards) && order[a] in counts
    ensures forall a, b :: 0 <= a < b < |order| ==>
      FirstIndex(VoteKeys(levelCards), order[a]) < FirstIndex(VoteKeys(levelCards), order[b])
    ensures |levelCards| > 0 ==> |order| > 0
  {
    var keys := VoteKeys(levelCards);
    counts := map[];
    order := [];
    var i := 0;
    while i < |keys|
      invariant 0 <= i <= |keys|
      invariant Tally(keys, i, counts, order)
    {
      var h := keys[i];
      if h in counts {
        TallySeen(keys, i, counts, order);
        counts := counts[h := counts[h] + 1];
      } else {
        TallyNew(keys, i, counts, order);
        counts := counts[h := 1];
        order := order + [h];
      }
      i := i + 1;
    }
    assert keys[..i] == keys;
    if |levelCards| > 0 {
      assert keys[0] in counts;
    }
  }

  /** The result the vote promises for the votes `keys`: `"other"` when
      there are none; otherwise a voted key that no key outnumbers and that
      every key first voted before it trails strictly. */
  ghost predicate IsPlurality(keys: seq<string>, chosen: string)
  {
    if |keys| == 0 then chosen == "other"
    else
      && chosen in keys
      && (forall k :: k in keys ==> multiset(keys)[k] <= multiset(keys)[chosen])
      && (forall i :: 0 <= i < FirstIndex(keys, chosen) ==> multiset(keys)[keys[i]] < multiset(keys)[chosen])
  }

  /** The promise pins the key down: at most one key meets it. */
  lemma PluralityUnique(keys: seq<string>, a: string, b: string)
    requires IsPlurality(keys, a) && IsPlurality(keys, b)
    ensures a == b
  {
    if |keys| > 0 {
      var ia, ib := FirstIndex(keys, a), FirstIndex(keys, b);
      assert keys[ia] == a && keys[ib] == b;
      assert !(ia < ib);
      assert !(ib < ia);
    }
  }

  /** The scan's state after visiting the first `j` keys of `order`:
      `chosen`, at position `m`, has the largest count `max` seen so far,
      and every key before it has strictly less; before any key is
      visited, `chosen` is `"other"` with `max` zero. Every visited key
      has at least one vote. */
  ghost predicate Scanned(counts: map<string, nat>, order: seq<string>, j: int, m: int, chosen: string, max: nat)
  {
    && 0 <= m <= j <= |order|
    && (forall a :: 0 <= a < |order| ==> order[a] in counts && counts[order[a]] > 0)
    && (j == 0 ==> chosen == "other" && max == 0)
    && (j > 0 ==> m < j && chosen == order[m] && max == counts[chosen])
    && (forall a :: 0 <= a < j ==> counts[order[a]] <= max)
    && (forall a :: 0 <= a < m ==> counts[order[a]] < max)
  }

  /** A key whose count is not larger leaves the choice as it is. */
  lemma ScanKeep(counts: map<string, nat>, order: seq<string>, j: int, m: int, chosen: string, max: nat)
    requires Scanned(counts, order, j, m, chosen, max) && j < |order|
    requires counts[order[j]] <= max
    ensures Scanned(counts, order, j + 1, m, chosen, max)
  {
  }

  /** A key with a strictly larger count becomes the choice. */
  lemma ScanRaise(counts: map<string, nat>, order: seq<string>, j: int, m: int, chosen: string, max: nat)
    requires Scanned(counts, order, j, m, chosen, max) && j < |order|
    requires counts[order[j]] > max
    ensures Scanned(counts, order, j + 1, j, order[j], counts[order[j]])
  {
  }

  /** `applyBackgroundForLevel` (the vote): the chosen key is `"other"` for
      an empty level; otherwise it is one of the level's keys, no key has
      more votes, and every key met before it has strictly fewer. */
  method ApplyBackgroundForLevel(levelCards: seq<Card>) returns (chosen: string)
    ensures IsPlurality(VoteKeys(levelCards), chosen)
  {
    var counts, order := CountVotes(levelCards);
    chosen := "other";
    var max := 0;
    var j := 0;
    ghost var m := 0;
    while j < |order|
      invariant Scanned(counts, order, j, m, chosen, max)
    {
      var h := order[j];
      if counts[h] > max {
        ScanRaise(counts, order, j, m, chosen, max);
        max := counts[h];
        chosen := h;
        m := j;
      } else {
        ScanKeep(counts, order, j, m, chosen, max);
      }
      j := j + 1;
    }

    if |levelCards| > 0 {
      ScanFindsPlurality(VoteKeys(levelCards), counts, order, m);
    }
  }
}
