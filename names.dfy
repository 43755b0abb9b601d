/**
 * Club-name reconciliation: the fixed alias table, the exact whole-value
 * lookup applied to the membership and session sheets, and the removal of
 * the word "community" applied to all three sheets.
 */
module Names {

  /** The word removed from every club name for display; matched case-sensitively. */
  const Word: string := "community"

  /** Variant spellings found in the membership and session sheets, mapped to the roster spelling. */
  const ClubNameMapping: map<string, string> := map[
    "Mankranso" := "Mankranso community reading club",
    "Boatenkrom" := "Boatengkrom community reading club",
    "Potrikrom" := "Potrikrom community reading club",
    "Dunyan Nkwanta" := "Dunyan Nkanta community reading club",
    "Kunsu" := "Kunsu community reading club",
    "Abesewa" := "Abesewa community reading club",
    "Asempaneye" := "Asempaneye community reading club",
    "Asuadei" := "Asuadei community reading club",
    "Barniekrom" := "Barniekrom community reading clubs",
    "Biemso No.1" := "Biemso no.1 community reading club"
  ]

  /** No mapped value is itself a key. */
  predicate NoChains(m: map<string, string>)
  {
    forall k :: k in m ==> m[k] !in m
  }

  /** Whole-value replacement, as `Series.replace(dict)` does: a name is
      replaced only when it equals a key. */
  function Alias(m: map<string, string>, s: string): (r: string)
    ensures r == s || r in m.Values
    ensures NoChains(m) ==> r !in m
  {
    if s in m then m[s] else s
  }

  /** Left-to-right removal of non-overlapping occurrences of `Word`, as
      `str.replace("community", "", regex=False)` does. */
  function Strip(s: string): (r: string)
    ensures |r| <= |s|
  {
    if |s| < |Word| then s
    else if s[..|Word|] == Word then Strip(s[|Word|..])
    else [s[0]] + Strip(s[1..])
  }

  /** The name used for the membership and session sheets: alias, then strip. */
  function Normalize(m: map<string, string>, s: string): (r: string)
    ensures |r| <= |Alias(m, s)|
    ensures !Contains(Alias(m, s)) ==> r == Alias(m, s)
  {
    StripFixedPoint(Alias(m, s));
    Strip(Alias(m, s))
  }

  /** `Word` starts at index `i` of `s`. */
  predicate OccursAt(s: string, i: nat)
  {
    i + |Word| <= |s| && s[i..i + |Word|] == Word
  }

  ghost predicate Contains(s: string)
  {
    exists i: nat :: OccursAt(s, i)
  }

  // ---------------------------------------------------------------------
  // Alias lookup

  /** The lookup changes a name only when the whole name is a key. */
  lemma AliasOnlyWholeKeys(m: map<string, string>, s: string)
    ensures Alias(m, s) != s ==> s in m && Alias(m, s) == m[s]
  {
  }

  /** With no chains in the table, a second lookup changes nothing. */
  lemma AliasIdempotent(m: map<string, string>, s: string)
    requires NoChains(m)
    ensures Alias(m, Alias(m, s)) == Alias(m, s)
  {
  }

  /** The alias table of the dashboard has no chains. */
  lemma MappingHasNoChains()
    ensures NoChains(ClubNameMapping)
  {
  }

  /** Only whole names are replaced: a canonical spelling that contains a key,
      or a key with a trailing blank, passes through unchanged. */
  lemma AliasIsWholeValue()
    ensures Alias(ClubNameMapping, "Dunyan Nkwanta") == "Dunyan Nkanta community reading club"
    ensures Alias(ClubNameMapping, "Kunsu community reading club") == "Kunsu community reading club"
    ensures Alias(ClubNameMapping, "Kunsu ") == "Kunsu "
  {
  }

  /** A variant spelling and its canonical spelling both normalize to the
      stripped canonical spelling, which is what the roster sheet holds. */
  lemma VariantMeetsCanonical(m: map<string, string>, k: string)
    requires NoChains(m)
    requires k in m
    ensures Normalize(m, k) == Strip(m[k])
    ensures Normalize(m, m[k]) == Strip(m[k])
  {
  }

  // ---------------------------------------------------------------------
  // Strip

  lemma ShiftOccurs(s: string, i: nat)
    requires |s| > 0
    ensures OccursAt(s[1..], i) <==> OccursAt(s, i + 1)
  {
    if i + 1 + |Word| <= |s| {
      assert s[1..][i..i + |Word|] == s[i + 1..i + 1 + |Word|];
    }
  }

  /** One step of the scan past a character that does not start `Word`. */
  lemma StripKeep(s: string)
    requires |s| >= |Word| && !OccursAt(s, 0)
    ensures Strip(s) == [s[0]] + Strip(s[1..])
  {
    assert s[..|Word|] != Word;
  }

  /** One step of the scan over an occurrence of `Word`. */
  lemma StripDrop(s: string)
    requires OccursAt(s, 0)
    ensures Strip(s) == Strip(s[|Word|..])
  {
    assert s[..|Word|] == Word;
  }

  /** A name is left unchanged exactly when it does not contain `Word`. */
  lemma {:induction false} StripFixedPoint(s: string)
    ensures Strip(s) == s <==> !Contains(s)
    decreases |s|
  {
    if |s| < |Word| {
      assert forall i: nat :: !OccursAt(s, i);
    } else if s[..|Word|] == Word {
      assert OccursAt(s, 0);
    } else {
      assert !OccursAt(s, 0);
      StripFixedPoint(s[1..]);
      forall i: nat ensures OccursAt(s[1..], i) <==> OccursAt(s, i + 1) {
        ShiftOccurs(s, i);
      }
      if Contains(s) {
        var i: nat :| OccursAt(s, i);
        assert i > 0;
        assert OccursAt(s[1..], i - 1);
      }
      if Contains(s[1..]) {
        var i: nat :| OccursAt(s[1..], i);
        assert OccursAt(s, i + 1);
      }
      if Strip(s) == s {
        assert Strip(s[1..]) == ([s[0]] + Strip(s[1..]))[1..];
      }
      if Strip(s[1..]) == s[1..] {
        assert s == [s[0]] + s[1..];
      }
    }
  }

  lemma ConsPrefix(s: string, i: nat, rest: string)
    requires 0 < i <= |s|
    ensures [s[0]] + (s[1..][..i - 1] + rest) == s[..i] + rest
  {
    assert [s[0]] + s[1..][..i - 1] == s[..i];
  }

  /** The step of `StripLeftmost` past a first character that does not start `Word`. */
  lemma StripLeftmostStep(s: string, i: nat)
    requires 0 < i && i + |Word| <= |s| && !OccursAt(s, 0)
    requires Strip(s[1..]) == s[1..][..i - 1] + Strip(s[1..][i - 1 + |Word|..])
    ensures Strip(s) == s[..i] + Strip(s[i + |Word|..])
  {
    StripKeep(s);
    assert s[1..][i - 1 + |Word|..] == s[i + |Word|..];
    ConsPrefix(s, i, Strip(s[i + |Word|..]));
  }

  /** The scan removes the leftmost occurrence and resumes right after it. */
  lemma {:induction false} StripLeftmost(s: string, i: nat)
    requires OccursAt(s, i)
    requires forall j: nat :: j < i ==> !OccursAt(s, j)
    ensures Strip(s) == s[..i] + Strip(s[i + |Word|..])
    decreases i
  {
    if i == 0 {
      StripDrop(s);
    } else {
      ShiftOccurs(s, i - 1);
      forall j: nat | j < i - 1 ensures !OccursAt(s[1..], j) {
        ShiftOccurs(s, j);
      }
      StripLeftmost(s[1..], i - 1);
      StripLeftmostStep(s, i);
    }
  }

  lemma StripShort(s: string)
    requires |s| < |Word|
    ensures Strip(s) == s
  {
  }

  /** `StripSplit` when the part before `x` is shorter than `Word`: every
      window that starts before `x` covers it. */
  lemma {:induction false} StripSplitShort(a: string, x: char, b: string)
    requires x !in Word
    requires |a| < |Word|
    ensures Strip(a + [x] + b) == a + [x] + Strip(b)
    decreases |a|
  {
    var s := a + [x] + b;
    if |s| < |Word| {
      StripShort(s);
      StripShort(b);
    } else {
      assert s[|a|] == x;
      assert !OccursAt(s, 0) by {
        var w := s[..|Word|];
        assert w[|a|] == x;
        assert Word[|a|] in Word;
        assert Word[|a|] != x;
        assert w != Word;
      }
      StripKeep(s);
      if a == [] {
        assert s == [x] + b;
        assert s[1..] == b;
      } else {
        assert s[1..] == a[1..] + [x] + b;
        StripSplitShort(a[1..], x, b);
        assert s[0] == a[0];
        calc {
          Strip(s);
          [a[0]] + Strip(a[1..] + [x] + b);
          [a[0]] + (a[1..] + [x] + Strip(b));
          { assert a == [a[0]] + a[1..]; }
          a + [x] + Strip(b);
        }
      }
    }
  }

  /** Regrouping a concatenation around one character. */
  lemma ConsAround(p: string, q: string, x: char, r: string)
    ensures p + (q + [x] + r) == (p + q) + [x] + r
  {
  }

  /** No occurrence of `Word` spans a character that `Word` does not contain. */
  lemma {:induction false} StripSplit(a: string, x: char, b: string)
    requires x !in Word
    ensures Strip(a + [x] + b) == Strip(a) + [x] + Strip(b)
    decreases |a|
  {
    var s := a + [x] + b;
    if |a| < |Word| {
      StripSplitShort(a, x, b);
      StripShort(a);
    } else if OccursAt(a, 0) {
      assert s[..|Word|] == a[..|Word|];
      StripDrop(s);
      StripDrop(a);
      assert s[|Word|..] == a[|Word|..] + [x] + b;
      StripSplit(a[|Word|..], x, b);
      assert Strip(s) == Strip(a[|Word|..]) + [x] + Strip(b);
    } else {
      assert s[..|Word|] == a[..|Word|];
      StripKeep(s);
      StripKeep(a);
      assert s[1..] == a[1..] + [x] + b;
      StripSplit(a[1..], x, b);
      var head, left, right := [a[0]], Strip(a[1..]), Strip(b);
      assert Strip(s) == head + (left + [x] + right);
      ConsAround(head, left, x, right);
    }
  }

  /** Case-sensitive: a capitalised "Community" is kept. */
  lemma StripIsCaseSensitive()
    ensures Strip("Community") == "Community"
    ensures Strip("community") == ""
  {
  }

  lemma NoEarlyOccurrence()
    ensures forall j: nat :: j < 4 ==> !OccursAt("commcommunityunity", j)
  {
    var s := "commcommunityunity";
    forall j: nat | j < 4 ensures !OccursAt(s, j) {
      var w := s[j..j + |Word|];
      if j == 0 {
        assert w[4] == 'c';
      } else {
        assert w[0] == s[j] != 'c';
      }
    }
  }

  /** One pass does not make every name free of `Word`: two halves joined by a
      removed occurrence form a new one. */
  lemma StripOnePass()
    ensures Strip("commcommunityunity") == "community"
    ensures Contains(Strip("commcommunityunity"))
  {
    var s := "commcommunityunity";
    assert OccursAt(s, 4) by {
      assert s[4..4 + |Word|] == Word;
    }
    NoEarlyOccurrence();
    StripLeftmost(s, 4);
    assert s[..4] == "comm" && s[4 + |Word|..] == "unity";
    StripShort("unity");
    assert "comm" + "unity" == Word;
    assert OccursAt(Word, 0);
  }

  /** A canonical spelling: a name, "community", "reading" and a last word,
      separated by blanks. */
  function Canonical(p: string, c: string): string
  {
    p + [' '] + (Word + [' '] + ("reading" + [' '] + c))
  }

  /** What the roster shows for `Canonical(p, c)`: the word is gone and the
      two blanks around it remain. */
  function Shown(p: string, c: string): string
  {
    p + [' '] + ([' '] + ("reading" + [' '] + c))
  }

  lemma StripReadingTail(c: string)
    requires |c| < |Word|
    ensures Strip("reading" + [' '] + c) == "reading" + [' '] + c
  {
    StripSplitShort("reading", ' ', c);
    StripShort(c);
  }

  lemma StripBlank(r: string)
    ensures Strip([' '] + r) == [' '] + Strip(r)
  {
    assert [' '] + r == [] + [' '] + r;
    StripSplitShort([], ' ', r);
  }

  lemma StripWordTail(r: string)
    ensures Strip(Word + [' '] + r) == [' '] + Strip(r)
  {
    StripSplit(Word, ' ', r);
    StripDrop(Word);
    StripShort([]);
  }

  /** Stripping a canonical spelling removes exactly the one "community", and
      what remains contains no "community". */
  lemma CanonicalStrip(p: string, c: string)
    requires Strip(p) == p
    requires |c| < |Word|
    ensures Strip(Canonical(p, c)) == Shown(p, c)
    ensures !Contains(Shown(p, c))
  {
    var tail := "reading" + [' '] + c;
    StripReadingTail(c);
    StripWordTail(tail);
    StripSplit(p, ' ', Word + [' '] + tail);
    StripBlank(tail);
    StripSplit(p, ' ', [' '] + tail);
    StripFixedPoint(Shown(p, c));
  }

  /** One alias key whose canonical spelling is `Canonical(p, c)` normalizes clean. */
  lemma CleanKey(k: string, p: string, c: string)
    requires k in ClubNameMapping && ClubNameMapping[k] == Canonical(p, c)
    requires Strip(p) == p && |c| < |Word|
    ensures !Contains(Normalize(ClubNameMapping, k))
  {
    CanonicalStrip(p, c);
  }

  /** For each alias key: its value written as a `Canonical` spelling. */
  lemma CleanKeyMankranso()
    ensures !Contains(Normalize(ClubNameMapping, "Mankranso"))
  {
    assert ClubNameMapping["Mankranso"] == Canonical("Mankranso", "club");
    CleanKey("Mankranso", "Mankranso", "club");
  }

  lemma CleanKeyBoatengkrom()
    ensures !Contains(Normalize(ClubNameMapping, "Boatenkrom"))
  {
    assert ClubNameMapping["Boatenkrom"] == Canonical("Boatengkrom", "club");
    CleanKey("Boatenkrom", "Boatengkrom", "club");
  }

  lemma CleanKeyPotrikrom()
    ensures !Contains(Normalize(ClubNameMapping, "Potrikrom"))
  {
    assert ClubNameMapping["Potrikrom"] == Canonical("Potrikrom", "club");
    CleanKey("Potrikrom", "Potrikrom", "club");
  }

  lemma CleanKeyDunyanNkanta()
    ensures !Contains(Normalize(ClubNameMapping, "Dunyan Nkwanta"))
  {
    assert ClubNameMapping["Dunyan Nkwanta"] == Canonical("Dunyan Nkanta", "club");
    assert "Dunyan Nkanta" == "Dunyan" + [' '] + "Nkanta";
    StripSplitShort("Dunyan", ' ', "Nkanta");
    CleanKey("Dunyan Nkwanta", "Dunyan Nkanta", "club");
  }

  lemma CleanKeyKunsu()
    ensures !Contains(Normalize(ClubNameMapping, "Kunsu"))
  {
    assert ClubNameMapping["Kunsu"] == Canonical("Kunsu", "club");
    CleanKey("Kunsu", "Kunsu", "club");
  }

  lemma CleanKeyAbesewa()
    ensures !Contains(Normalize(ClubNameMapping, "Abesewa"))
  {
    assert ClubNameMapping["Abesewa"] == Canonical("Abesewa", "club");
    CleanKey("Abesewa", "Abesewa", "club");
  }

  lemma CleanKeyAsempaneye()
    ensures !Contains(Normalize(ClubNameMapping, "Asempaneye"))
  {
    assert ClubNameMapping["Asempaneye"] == Canonical("Asempaneye", "club");
    CleanKey("Asempaneye", "Asempaneye", "club");
  }

  lemma CleanKeyAsuadei()
    ensures !Contains(Normalize(ClubNameMapping, "Asuadei"))
  {
    assert ClubNameMapping["Asuadei"] == Canonical("Asuadei", "club");
    CleanKey("Asuadei", "Asuadei", "club");
  }

  lemma CleanKeyBarniekrom()
    ensures !Contains(Normalize(ClubNameMapping, "Barniekrom"))
  {
    assert ClubNameMapping["Barniekrom"] == Canonical("Barniekrom", "clubs");
    CleanKey("Barniekrom", "Barniekrom", "clubs");
  }

  lemma CleanKeyBiemsoNo1()
    ensures !Contains(Normalize(ClubNameMapping, "Biemso No.1"))
  {
    assert ClubNameMapping["Biemso No.1"] == Canonical("Biemso no.1", "club");
    CleanKey("Biemso No.1", "Biemso no.1", "club");
  }

  /** The alias table has exactly these ten keys: the variant spellings it
      corrects. */
  lemma MappingKeys(k: string)
    ensures k in ClubNameMapping <==>
      (k == "Mankranso" || k == "Boatenkrom" || k == "Potrikrom" || k == "Dunyan Nkwanta"
       || k == "Kunsu" || k == "Abesewa" || k == "Asempaneye" || k == "Asuadei"
       || k == "Barniekrom" || k == "Biemso No.1")
  {
  }

  lemma CleanListedKey(k: string)
    requires k == "Mankranso" || k == "Boatenkrom" || k == "Potrikrom" || k == "Dunyan Nkwanta"
      || k == "Kunsu" || k == "Abesewa" || k == "Asempaneye" || k == "Asuadei"
      || k == "Barniekrom" || k == "Biemso No.1"
    ensures !Contains(Normalize(ClubNameMapping, k))
  {
    if k == "Mankranso" {
      CleanKeyMankranso();
    } else if k == "Boatenkrom" {
      CleanKeyBoatengkrom();
    } else if k == "Potrikrom" {
      CleanKeyPotrikrom();
    } else if k == "Dunyan Nkwanta" {
      CleanKeyDunyanNkanta();
    } else if k == "Kunsu" {
      CleanKeyKunsu();
    } else if k == "Abesewa" {
      CleanKeyAbesewa();
    } else if k == "Asempaneye" {
      CleanKeyAsempaneye();
    } else if k == "Asuadei" {
      CleanKeyAsuadei();
    } else if k == "Barniekrom" {
      CleanKeyBarniekrom();
    } else {
      CleanKeyBiemsoNo1();
    }
  }

  /** Every canonical spelling, once normalized, is free of `Word`: the join
      keys of the membership and session sheets are stripped clean. */
  lemma CanonicalNamesClean(k: string)
    requires k in ClubNameMapping
    ensures !Contains(Normalize(ClubNameMapping, k))
  {
    MappingKeys(k);
    CleanListedKey(k);
  }
}
