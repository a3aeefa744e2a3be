/** The habitat classifier: a card name is normalised (case and diacritics
    removed) and matched by substring against three ordered keyword lists,
    air first, then water, then land; a name matching none is `Other`. */
module Habitat {

  datatype Habitat = Land | Water | Air | Other

  /** The key under which a habitat is counted and named (`'land'`, ...). */
  function HabitatName(h: Habitat): (r: string)
    ensures r in {"land", "water", "air", "other"}
  {
    match h
    case Land => "land"
    case Water => "water"
    case Air => "air"
    case Other => "other"
  }

  // ---------------------------------------------------------------------
  // Normalisation: canonical decomposition, removal of combining marks,
  // lower-casing.

  /** A combining diacritical mark (the range U+0300..U+036F). */
  predicate IsMark(c: char)
  {
    '\U{0300}' <= c <= '\U{036F}'
  }

  predicate IsUpper(c: char)
  {
    'A' <= c <= 'Z'
  }

  /** One character after decomposition, mark removal and lower-casing:
      ASCII capitals and the precomposed letters of the Lithuanian
      alphabet map to their lower-case base letter. */
  function Fold(c: char): (r: char)
    requires !IsMark(c)
    ensures !IsMark(r) && !IsUpper(r)
  {
    if IsUpper(c) then (c as int + 32) as char
    else if c == 'ą' || c == 'Ą' then 'a'
    else if c == 'č' || c == 'Č' then 'c'
    else if c == 'ę' || c == 'Ę' || c == 'ė' || c == 'Ė' then 'e'
    else if c == 'į' || c == 'Į' then 'i'
    else if c == 'š' || c == 'Š' then 's'
    else if c == 'ų' || c == 'Ų' || c == 'ū' || c == 'Ū' then 'u'
    else if c == 'ž' || c == 'Ž' then 'z'
    else c
  }

  /** The normalised form of a string. */
  function Norm(s: string): (r: string)
    ensures |r| <= |s|
    ensures forall k :: 0 <= k < |r| ==> !IsMark(r[k]) && !IsUpper(r[k])
  {
    if s == [] then []
    else if IsMark(s[0]) then Norm(s[1..])
    else [Fold(s[0])] + Norm(s[1..])
  }

  lemma FoldIdempotent(c: char)
    requires !IsMark(c)
    ensures Fold(Fold(c)) == Fold(c)
  {
  }

  /** Normalising twice is normalising once. */
  lemma {:induction false} NormIdempotent(s: string)
    ensures Norm(Norm(s)) == Norm(s)
  {
    if s != [] {
      NormIdempotent(s[1..]);
      if !IsMark(s[0]) {
        var t := [Fold(s[0])] + Norm(s[1..]);
        assert t[0] == Fold(s[0]) && t[1..] == Norm(s[1..]);
        FoldIdempotent(s[0]);
      }
    }
  }

  // ---------------------------------------------------------------------
  // Substring search (`String.prototype.includes`).

  /** `kw` occurs in `s` starting at position `i`. */
  predicate OccursAt(s: string, kw: string, i: int)
  {
    0 <= i && i + |kw| <= |s| && s[i..i + |kw|] == kw
  }

  /** `s.includes(kw)`, searching from the left. */
  function Includes(s: string, kw: string): (r: bool)
    ensures r <==> exists i :: OccursAt(s, kw, i)
  {
    if kw <= s then
      assert OccursAt(s, kw, 0);
      true
    else if s == [] then
      assert forall i :: !OccursAt(s, kw, i);
      false
    else
      var r := Includes(s[1..], kw);
      assert forall i :: OccursAt(s, kw, i + 1) <==> OccursAt(s[1..], kw, i) by {
        forall i ensures OccursAt(s, kw, i + 1) <==> OccursAt(s[1..], kw, i) {
          if 0 <= i && i + 1 + |kw| <= |s| {
            var t := s[1..];
            var a, b := s[i + 1..i + 1 + |kw|], t[i..i + |kw|];
            assert forall j :: 0 <= j < |kw| ==> a[j] == b[j];
            assert a == b;
          }
        }
      }
      assert !OccursAt(s, kw, 0);
      assert r <==> exists i :: OccursAt(s, kw, i) by {
        if r {
          var i :| OccursAt(s[1..], kw, i);
          assert OccursAt(s, kw, i + 1);
        }
        if exists i :: OccursAt(s, kw, i) {
          var i :| OccursAt(s, kw, i);
          assert i != 0;
          assert OccursAt(s[1..], kw, i - 1);
        }
      }
      r
  }

  /** Some keyword of the list occurs in `s`. */
  predicate MatchesAny(s: string, kws: seq<string>)
  {
    exists k :: 0 <= k < |kws| && Includes(s, kws[k])
  }

  /** The early-return loop `for (const kw of kws) if (s.includes(kw)) ...`. */
  function FirstKeywordHit(s: string, kws: seq<string>): (r: bool)
    ensures r <==> MatchesAny(s, kws)
  {
    if kws == [] then false
    else if Includes(s, kws[0]) then true
    else
      var r := FirstKeywordHit(s, kws[1..]);
      assert MatchesAny(s, kws) ==> MatchesAny(s, kws[1..]) by {
        if MatchesAny(s, kws) {
          var k :| 0 <= k < |kws| && Includes(s, kws[k]);
          assert k != 0 && kws[1..][k - 1] == kws[k];
        }
      }
      assert MatchesAny(s, kws[1..]) ==> MatchesAny(s, kws) by {
        if MatchesAny(s, kws[1..]) {
          var k :| 0 <= k < |kws| - 1 && Includes(s, kws[1..][k]);
          assert kws[k + 1] == kws[1..][k];
        }
      }
      r
  }

  // ---------------------------------------------------------------------
  // Keyword lists. The source writes them with Lithuanian letters and
  // normalises each the way it normalises the name; they are given here
  // in that normalised form (diacritics removed, lower case), in the
  // source's order.

  const WaterKeywords: seq<string> :=
    ["udra", "vezl", "vezlys", "raja", "ersket", "stingray", "sturgeon", "otter", "turtle"]

  const AirKeywords: seq<string> :=
    ["papuga", "tukan", "skraid", "bite", "siksnosparnis", "tukanas", "papuga", "toucan", "parrot"]

  const LandKeywords: seq<string> :=
    ["vista", "kalkunas", "ozka", "avis", "triusis", "kate", "perline", "pitonas", "driezas", "smeline",
     "ziurk", "tarakon", "lemuras", "liutas", "surikata", "sarvuotis", "salamandra", "kurapka", "sheep"]

  /** The sturgeon keyword, written `eršket`, normalises to the fifth
      water keyword, so a name such as `Eršketas` contains it. */
  lemma SturgeonKeywordNormalised()
    ensures Norm("eršket") == WaterKeywords[4]
  {
    assert Norm("eršket") == "ersket";
  }

  /** `detectHabitatForAnimal`: a total classification in which air
      keywords take precedence over water keywords, water over land, and
      `Other` is returned exactly when no keyword of any list occurs in the
      normalised name. */
  function DetectHabitat(name: string): (r: Habitat)
    ensures r == Air <==> MatchesAny(Norm(name), AirKeywords)
    ensures r == Water <==>
      !MatchesAny(Norm(name), AirKeywords) && MatchesAny(Norm(name), WaterKeywords)
    ensures r == Land <==>
      !MatchesAny(Norm(name), AirKeywords) && !MatchesAny(Norm(name), WaterKeywords)
      && MatchesAny(Norm(name), LandKeywords)
    ensures r == Other <==>
      !MatchesAny(Norm(name), AirKeywords) && !MatchesAny(Norm(name), WaterKeywords)
      && !MatchesAny(Norm(name), LandKeywords)
  {
    var n := Norm(name);
    if FirstKeywordHit(n, AirKeywords) then Air
    else if FirstKeywordHit(n, WaterKeywords) then Water
    else if FirstKeywordHit(n, LandKeywords) then Land
    else Other
  }

  /** Air precedence: a name containing an air keyword is `Air`, whatever
      water or land keywords it also contains. */
  lemma AirKeywordWins(name: string, kw: string)
    requires kw in AirKeywords && Includes(Norm(name), kw)
    ensures DetectHabitat(name) == Air
  {
    var k :| 0 <= k < |AirKeywords| && AirKeywords[k] == kw;
  }

  /** Classifying an already normalised name gives the same habitat as
      classifying the raw name. */
  lemma DetectHabitatOfNormalised(name: string)
    ensures DetectHabitat(Norm(name)) == DetectHabitat(name)
  {
    NormIdempotent(name);
  }
}
