/** The name rewrite of "prepare the return trip": `name.replace(/ - (A|B|...)$/, '')` followed
    by `" - "` and the current language's suffix. */
module ReturnTrip {
  import opened Basics
  import opened I18n

  const Sep: string := " - "

  /** The regular expression ` - (alt0|alt1|...)$` matches `name` from position `i`. */
  predicate MatchAt(name: string, alts: seq<string>, i: int) {
    0 <= i <= |name| && exists k :: 0 <= k < |alts| && name[i..] == Sep + alts[k]
  }

  /** The leftmost position at or after `i` where the expression matches. */
  function FirstMatch(name: string, alts: seq<string>, i: nat): (r: Option<nat>)
    ensures r.Some? ==> i <= r.value <= |name| && MatchAt(name, alts, r.value)
    ensures r.Some? ==> forall j :: i <= j < r.value ==> !MatchAt(name, alts, j)
    ensures r.None? ==> forall j :: i <= j <= |name| ==> !MatchAt(name, alts, j)
    decreases |name| - i
  {
    if i > |name| then None
    else if MatchAt(name, alts, i) then Some(i)
    else FirstMatch(name, alts, i + 1)
  }

  /** `String.prototype.replace` with that expression and `''`: the first match is removed. */
  function Strip(name: string, alts: seq<string>): (r: string)
    ensures |r| <= |name| && r == name[..|r|]
  {
    match FirstMatch(name, alts, 0)
    case Some(i) => name[..i]
    case None => name
  }

  /** None of the alternatives holds a hyphen. */
  predicate HyphenFree(alts: seq<string>) {
    forall k :: 0 <= k < |alts| ==> '-' !in alts[k]
  }

  /** With hyphen-free alternatives the expression matches at most one position. */
  lemma MatchUnique(name: string, alts: seq<string>, i: int, j: int)
    requires HyphenFree(alts)
    requires MatchAt(name, alts, i) && MatchAt(name, alts, j)
    ensures i == j
  {
    MatchShape(name, alts, i);
    MatchShape(name, alts, j);
  }

  /** Where the expression matches, the name continues with `" - "` and then no hyphen. */
  lemma MatchShape(name: string, alts: seq<string>, i: int)
    requires HyphenFree(alts) && MatchAt(name, alts, i)
    ensures i + 3 <= |name| && name[i + 1] == '-' && name[i + 2] == ' '
    ensures forall m :: i + 3 <= m < |name| ==> name[m] != '-'
  {
    var k :| 0 <= k < |alts| && name[i..] == Sep + alts[k];
    assert name[i + 1] == name[i..][1];
    assert name[i + 2] == name[i..][2];
    forall m | i + 3 <= m < |name| ensures name[m] != '-' {
      assert name[m] == alts[k][m - i - 3];
    }
  }

  /** The strip removes exactly one trailing `" - alt"` when the name ends with one. */
  lemma StripTail(base: string, alts: seq<string>, k: int)
    requires HyphenFree(alts) && 0 <= k < |alts|
    ensures Strip(base + Sep + alts[k], alts) == base
  {
    var name := base + Sep + alts[k];
    assert name[|base|..] == Sep + alts[k];
    assert MatchAt(name, alts, |base|);
    var r := FirstMatch(name, alts, 0);
    if r.Some? {
      MatchUnique(name, alts, r.value, |base|);
      assert name[..|base|] == base;
    }
  }

  /** A name that does not end with `" - alt"` for any alternative is left as it is. */
  lemma StripNoTail(name: string, alts: seq<string>)
    requires forall i, k :: 0 <= i <= |name| && 0 <= k < |alts| ==> name[i..] != Sep + alts[k]
    ensures Strip(name, alts) == name
  {
  }

  /** The strip leaves the name, or the name without one trailing `" - alt"`. */
  lemma StripShape(name: string, alts: seq<string>)
    ensures var s := Strip(name, alts);
      s == name || exists k :: 0 <= k < |alts| && name == s + Sep + alts[k]
  {
    var r := FirstMatch(name, alts, 0);
    if r.Some? {
      var k :| 0 <= k < |alts| && name[r.value..] == Sep + alts[k];
      assert name == name[..r.value] + name[r.value..];
    }
  }

  /** The bundled revision: strip any language's suffix, then add the current one. */
  function ReturnName(name: string, lang: Language): (r: string)
    ensures var t := Sep + ReturnTripSuffix(lang);
      && |t| <= |r| <= |name| + |t| && r[|r| - |t|..] == t
      && r[..|r| - |t|] == name[..|r| - |t|]
  {
    SuffixAppended(Strip(name, AllReturnSuffixes()), ReturnTripSuffix(lang), name);
    Strip(name, AllReturnSuffixes()) + Sep + ReturnTripSuffix(lang)
  }

  /** A prefix of `name` followed by `" - "` and a suffix. */
  lemma SuffixAppended(s: string, suffix: string, name: string)
    requires |s| <= |name| && s == name[..|s|]
    ensures var r, t := s + Sep + suffix, Sep + suffix;
      && |t| <= |r| <= |name| + |t| && r[|r| - |t|..] == t
      && r[..|r| - |t|] == name[..|r| - |t|]
  {
    var r, t := s + Sep + suffix, Sep + suffix;
    assert r == s + t;
    assert r[|r| - |t|..] == t && r[..|r| - |t|] == s;
  }

  lemma AllSuffixesHyphenFree()
    ensures HyphenFree(AllReturnSuffixes())
  {
    forall k | 0 <= k < |AllReturnSuffixes()| ensures '-' !in AllReturnSuffixes()[k] {
      SuffixShape(AllReturnSuffixes()[k]);
    }
  }

  /** Preparing a return twice names it as preparing it once (in the second language): the name
      carries exactly one suffix. */
  lemma ReturnNameTwice(name: string, first: Language, second: Language)
    ensures ReturnName(ReturnName(name, first), second) == ReturnName(name, second)
  {
    AllSuffixesHyphenFree();
    SuffixListed(first);
    var k :| 0 <= k < |AllReturnSuffixes()| && AllReturnSuffixes()[k] == ReturnTripSuffix(first);
    StripTail(Strip(name, AllReturnSuffixes()), AllReturnSuffixes(), k);
  }

  /** The standalone form strips only the French and English suffixes. */
  function StandaloneSuffixes(): seq<string> {
    [ReturnTripSuffix(Fr), ReturnTripSuffix(En)]
  }

  function ReturnNameStandalone(name: string, lang: Language): (r: string)
    ensures var t := Sep + ReturnTripSuffix(lang);
      && |t| <= |r| <= |name| + |t| && r[|r| - |t|..] == t
      && r[..|r| - |t|] == name[..|r| - |t|]
  {
    SuffixAppended(Strip(name, StandaloneSuffixes()), ReturnTripSuffix(lang), name);
    Strip(name, StandaloneSuffixes()) + Sep + ReturnTripSuffix(lang)
  }

  /** With French or English active the standalone rewrite keeps one suffix. */
  lemma StandaloneTwiceFrEn(name: string, lang: Language)
    requires lang == Fr || lang == En
    ensures ReturnNameStandalone(ReturnNameStandalone(name, lang), lang) == ReturnNameStandalone(name, lang)
  {
    var alts := StandaloneSuffixes();
    StripTail(Strip(name, alts), alts, if lang == Fr then 0 else 1);
  }

  /** With German, Italian or Dutch active the standalone rewrite piles up suffixes. */
  lemma StandaloneTwiceAccumulates(name: string, lang: Language)
    requires lang == De || lang == It || lang == Nl
    ensures ReturnNameStandalone(ReturnNameStandalone(name, lang), lang)
         == ReturnNameStandalone(name, lang) + Sep + ReturnTripSuffix(lang)
  {
    var once := ReturnNameStandalone(name, lang);
    var alts := StandaloneSuffixes();
    var suffix := ReturnTripSuffix(lang);
    assert once[|once| - 1] == suffix[|suffix| - 1];
    forall i, k | 0 <= i <= |once| && 0 <= k < |alts| ensures once[i..] != Sep + alts[k] {
    }
    StripNoTail(once, alts);
  }

  lemma GermanAccumulationExample()
    ensures ReturnNameStandalone(ReturnNameStandalone("X", De), De) == "X - Rückfahrt - Rückfahrt"
  {
    var alts := StandaloneSuffixes();
    StripNoTail("X", alts);
    var once := ReturnNameStandalone("X", De);
    assert once == "X" + Sep + ReturnTripSuffix(De);
    StandaloneTwiceAccumulates("X", De);
    assert ReturnTripSuffix(De) == "Rückfahrt";
  }

  /** Only one trailing suffix is removed: `"A - Return - Return"` is stripped to `"A - Return"`. */
  lemma StripsOnlyOne()
    ensures Strip("A - Return - Return", StandaloneSuffixes()) == "A - Return"
  {
    assert "A - Return - Return" == "A - Return" + Sep + StandaloneSuffixes()[1];
    StripTail("A - Return", StandaloneSuffixes(), 1);
  }
}
