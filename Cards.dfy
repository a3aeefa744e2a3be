/** Card definitions as they come from the game's card list, and the
    name-based notions (set of names, distinct names) that the level
    builder and the match state machine rely on. */
module Cards {

  datatype Option<+T> = None | Some(value: T)

  /** One entry of the card list: a name (the card's identity), an image
      path and an optional explicit habitat. */
  datatype Card = Card(name: string, image: string, habitat: Option<string>)

  /** The set of names occurring in a card sequence. */
  function NameSet(s: seq<Card>): set<string>
  {
    set k | 0 <= k < |s| :: s[k].name
  }

  /** The names of a card sequence, in order. */
  function NamesOf(s: seq<Card>): (r: seq<string>)
    ensures |r| == |s|
    ensures forall k :: 0 <= k < |s| ==> r[k] == s[k].name
  {
    if s == [] then [] else NamesOf(s[..|s| - 1]) + [s[|s| - 1].name]
  }

  /** No two positions of the sequence carry the same name. */
  predicate DistinctNames(s: seq<Card>)
  {
    forall i, j :: 0 <= i < j < |s| ==> s[i].name != s[j].name
  }

  lemma NameSetAppend(s: seq<Card>, c: Card)
    ensures NameSet(s + [c]) == NameSet(s) + {c.name}
  {
    var t := s + [c];
    assert t[|s|] == c;
    forall n | n in NameSet(t) ensures n in NameSet(s) + {c.name} {
      var k :| 0 <= k < |t| && t[k].name == n;
      if k < |s| { assert s[k] == t[k]; }
    }
    forall n | n in NameSet(s) ensures n in NameSet(t) {
      var k :| 0 <= k < |s| && s[k].name == n;
      assert t[k] == s[k];
    }
  }

  /** A sequence with distinct names has exactly as many names as cards. */
  lemma {:induction false} DistinctNamesCardinality(s: seq<Card>)
    requires DistinctNames(s)
    ensures |NameSet(s)| == |s|
  {
    if s != [] {
      var p := s[..|s| - 1];
      var c := s[|s| - 1];
      assert s == p + [c];
      assert DistinctNames(p);
      DistinctNamesCardinality(p);
      NameSetAppend(p, c);
      assert c.name !in NameSet(p);
    }
  }

  /** With distinct names, every name occurs at most once in the name list. */
  lemma {:induction false} DistinctNamesOccurOnce(s: seq<Card>)
    requires DistinctNames(s)
    ensures forall n :: multiset(NamesOf(s))[n] == (if n in NameSet(s) then 1 else 0)
  {
    if s != [] {
      var p := s[..|s| - 1];
      var c := s[|s| - 1];
      assert s == p + [c];
      assert DistinctNames(p);
      DistinctNamesOccurOnce(p);
      NameSetAppend(p, c);
      assert NamesOf(s) == NamesOf(p) + [c.name];
      assert c.name !in NameSet(p);
    }
  }

  /** The name list of a concatenation is the concatenation of name lists. */
  lemma NamesOfConcat(u: seq<Card>, v: seq<Card>)
    ensures NamesOf(u + v) == NamesOf(u) + NamesOf(v)
  {
    var w := u + v;
    assert forall k :: 0 <= k < |u| ==> w[k] == u[k];
    assert forall k :: |u| <= k < |w| ==> w[k] == v[k - |u|];
  }

  /** Reordering the cards does not change how often each name occurs. */
  lemma {:induction false} NamesOfPermutation(a: seq<Card>, b: seq<Card>)
    requires multiset(a) == multiset(b)
    ensures multiset(NamesOf(a)) == multiset(NamesOf(b))
    decreases |a|
  {
    if a == [] {
      assert |b| == |multiset(b)| == 0;
    } else {
      var p := a[..|a| - 1];
      var x := a[|a| - 1];
      assert a == p + [x];
      assert x in multiset(b);
      var i :| 0 <= i < |b| && b[i] == x;
      var l, r := b[..i], b[i + 1..];
      assert b == l + [x] + r;
      assert multiset(b) == multiset(l + r) + multiset{x};
      assert multiset(a) == multiset(p) + multiset{x};
      assert multiset(l + r) == multiset(b) - multiset{x};
      assert multiset(p) == multiset(a) - multiset{x};
      NamesOfPermutation(p, l + r);
      NamesOfConcat(p, [x]);
      NamesOfConcat(l, r);
      NamesOfConcat(l + [x], r);
      NamesOfConcat(l, [x]);
    }
  }
}
