/**
 Every bullet is accounted for: by the parser, when breaking changes are pulled together, and in the
 rendered block.
 */
module ChangelogBlock {
  import opened Sequences
  import opened Changelog

  // ----- Conservation in the parser -----

  function SkippedCount(bullets: seq<Bullet>): nat {
    |Filter((b: Bullet) => b.kind == Skipped, bullets)|
  }

  /** Items whose normal form their section had already. */
  function DuplicateCount(p: Patterns, bullets: seq<Bullet>): nat {
    if bullets == [] then 0
    else
      var front, b := bullets[..|bullets| - 1], bullets[|bullets| - 1];
      DuplicateCount(p, front) + if b.kind.Item? && !IsKept(p, front, b) then 1 else 0
  }

  /** Noise bullets of the first `n` labels. */
  function TotalNoise(bullets: seq<Bullet>, n: nat): nat
    requires n <= |NOISE_LABELS|
  {
    if n == 0 then 0 else TotalNoise(bullets, n - 1) + NoiseCount(bullets, NOISE_LABELS[n - 1])
  }

  function TotalKept(p: Patterns, bullets: seq<Bullet>, names: seq<string>): nat {
    if names == [] then 0 else TotalKept(p, bullets, names[..|names| - 1]) + |Kept(p, bullets, names[|names| - 1])|
  }

  lemma {:induction false} TotalNoiseStep(bullets: seq<Bullet>, b: Bullet, n: nat)
    requires n <= |NOISE_LABELS|
    ensures TotalNoise(bullets + [b], n) == TotalNoise(bullets, n) + if b.kind.Noise? && b.kind.text in NOISE_LABELS[..n] then 1 else 0
  {
    if n > 0 {
      TotalNoiseStep(bullets, b, n - 1);
      NoiseStep(bullets, b, NOISE_LABELS[n - 1]);
      LabelsAreDistinct();
      assert NOISE_LABELS[..n] == NOISE_LABELS[..n - 1] + [NOISE_LABELS[n - 1]];
    }
  }

  lemma LabelsAreDistinct()
    ensures Distinct(NOISE_LABELS)
  {
  }

  lemma {:induction false} TotalKeptStep(p: Patterns, bullets: seq<Bullet>, b: Bullet, names: seq<string>)
    requires Distinct(names)
    ensures TotalKept(p, bullets + [b], names) ==
            TotalKept(p, bullets, names) + if b.section in names && IsKept(p, bullets, b) then 1 else 0
  {
    if names != [] {
      var front, s := names[..|names| - 1], names[|names| - 1];
      assert names == front + [s];
      DistinctStep(front, s);
      TotalKeptStep(p, bullets, b, front);
      KeptStep(p, bullets, b, s);
    }
  }

  /** Every bullet is counted exactly once: skipped, noise, duplicate or kept. */
  lemma {:induction false} EveryBulletCountedOnce(p: Patterns, bullets: seq<Bullet>, names: seq<string>)
    requires Distinct(names)
    requires forall b :: b in bullets ==> b.section in names && (b.kind.Noise? ==> b.kind.text in NOISE_LABELS)
    ensures |bullets| ==
            SkippedCount(bullets) + TotalNoise(bullets, |NOISE_LABELS|) + DuplicateCount(p, bullets) + TotalKept(p, bullets, names)
  {
    if bullets == [] {
      NoBullets(p, names, |NOISE_LABELS|);
    } else {
      var front, b := bullets[..|bullets| - 1], bullets[|bullets| - 1];
      assert bullets == front + [b];
      assert b in bullets;
      EveryBulletCountedOnce(p, front, names);
      TotalNoiseStep(front, b, |NOISE_LABELS|);
      TotalKeptStep(p, front, b, names);
      FilterStep((b: Bullet) => b.kind == Skipped, front, b);
      assert NOISE_LABELS[..|NOISE_LABELS|] == NOISE_LABELS;
    }
  }

  lemma {:induction false} NoBullets(p: Patterns, names: seq<string>, n: nat)
    requires n <= |NOISE_LABELS|
    ensures TotalKept(p, [], names) == 0 && TotalNoise([], n) == 0
    decreases |names| + n
  {
    if n > 0 {
      NoBullets(p, names, n - 1);
    } else if names != [] {
      NoBullets(p, names[..|names| - 1], n);
    }
  }

  /** Kept items have distinct normal forms, and every item's normal form is kept once. */
  lemma {:induction false} KeptAreDistinct(p: Patterns, bullets: seq<Bullet>, s: string)
    ensures Distinct(Map(p.normalize, Kept(p, bullets, s))) && Elems(Map(p.normalize, Kept(p, bullets, s))) == Seen(p, bullets, s)
  {
    if bullets == [] {
    } else {
      var front, b := bullets[..|bullets| - 1], bullets[|bullets| - 1];
      assert bullets == front + [b];
      KeptAreDistinct(p, front, s);
      SeenStep(p, front, b, s);
      KeptStep(p, front, b, s);
      if b.section == s && IsKept(p, front, b) {
        MapStep(p.normalize, Kept(p, front, s), b.kind.text);
        DistinctStep(Map(p.normalize, Kept(p, front, s)), p.normalize(b.kind.text));
        ElemsStep(Map(p.normalize, Kept(p, front, s)), p.normalize(b.kind.text));
      } else {
        assert Kept(p, front, s) + [] == Kept(p, front, s);
      }
    }
  }

  /** The bullets of a changelog meet the conditions of the count. */
  lemma {:induction false} BulletsAreSorted(p: Patterns, lines: seq<string>, i: nat)
    requires p.Valid() && i <= |lines|
    ensures Distinct(SectionNames(p, lines, i))
    ensures forall b :: b in Bullets(p, lines, i) ==>
      b.section in SectionNames(p, lines, i) && (b.kind.Noise? ==> b.kind.text in NOISE_LABELS)
  {
    if i > 0 {
      hide *;
      BulletsAreSorted(p, lines, i - 1);
      LineStep(p, lines, i - 1);
      SectionOnlyInTarget(p, lines, i - 1);
      if IsBullet(p, lines, i - 1) { BulletUnfolds(p, lines, i - 1); }
      if p.subsection(lines[i - 1]).Some? { DistinctStep(SectionNames(p, lines, i - 1), p.subsection(lines[i - 1]).value); }
    } else {
      assert SectionNames(p, lines, i) == [] && Bullets(p, lines, i) == [];
    }
  }

  // ----- Breaking changes -----

  const BREAKING := "Breaking Changes"

  /** Which bullets carry the tag, and trailing white space removed from a string. */
  datatype Marker = Marker(isBreaking: string -> bool, rstrip: string -> string)
  {
    function Moved(bullet: string): string {
      rstrip(if "- " <= bullet then bullet else "- " + bullet)
    }

    /** What a bullet becomes. */
    function Mark(bullet: string): string {
      if isBreaking(bullet) then Moved(bullet) else bullet
    }

    function Tagged(bullets: seq<string>): seq<string> {
      Filter(isBreaking, bullets)
    }

    function Untagged(bullets: seq<string>): seq<string> {
      Filter((b: string) => !isBreaking(b), bullets)
    }

    /** The tagged bullets as they will stand under their own heading. */
    function MovedFrom(bullets: seq<string>): seq<string> {
      Map((b: string) => Moved(b), Tagged(bullets))
    }

    lemma OneBullet(bullets: seq<string>, b: string)
      ensures MovedFrom(bullets + [b]) == if isBreaking(b) then MovedFrom(bullets) + [Moved(b)] else MovedFrom(bullets)
      ensures Untagged(bullets + [b]) == if isBreaking(b) then Untagged(bullets) else Untagged(bullets) + [b]
    {
    }

    lemma MovedConcat(a: seq<string>, b: seq<string>)
      ensures MovedFrom(a + b) == MovedFrom(a) + MovedFrom(b)
    {
      FilterConcat(isBreaking, a, b);
      MapConcat((b: string) => Moved(b), Tagged(a), Tagged(b));
    }
  }

  /** The section names but the breaking one. */
  function OtherNames(keys: seq<string>): seq<string> {
    Filter((k: string) => k != BREAKING, keys)
  }

  lemma OtherNamesStep(keys: seq<string>, k: string)
    ensures OtherNames(keys + [k]) == if k != BREAKING then OtherNames(keys) + [k] else OtherNames(keys)
  {
  }

  /** All bullets of the listed sections. */
  function AllBullets(items: map<string, seq<string>>, keys: seq<string>): seq<string>
    requires Elems(keys) <= items.Keys
  {
    if keys == [] then []
    else
      assert keys[|keys| - 1] in Elems(keys);
      assert forall k :: k in keys[..|keys| - 1] ==> k in keys;
      AllBullets(items, keys[..|keys| - 1]) + items[keys[|keys| - 1]]
  }

  /** The untagged bullets of every section that has been gone through. */
  function UntaggedItems(m: Marker, items: map<string, seq<string>>, done: set<string>): map<string, seq<string>> {
    map k | k in items :: if k in done then m.Untagged(items[k]) else items[k]
  }

  /** Tagged bullets first, under their own heading; a section of that name keeps nothing else. */
  function Split(m: Marker, sections: Sections): Sections
    requires Elems(sections.keys) <= sections.items.Keys
  {
    var moved := m.MovedFrom(AllBullets(sections.items, sections.keys));
    var untagged := UntaggedItems(m, sections.items, Elems(sections.keys));
    if moved == [] then Sections(sections.keys, untagged)
    else Sections([BREAKING] + OtherNames(sections.keys), untagged[BREAKING := moved])
  }

  method SplitBreaking(m: Marker, sections: Sections) returns (r: Sections)
    requires sections.Valid()
    ensures Elems(sections.keys) <= sections.items.Keys && r == Split(m, sections)
  {
    hide *;
    var keys := sections.keys;
    var items := sections.items;
    var breaking: seq<string> := [];
    NothingSplit(m, sections);
    for i := 0 to |keys|
      invariant Elems(keys[..i]) <= sections.items.Keys
      invariant items == UntaggedItems(m, sections.items, Elems(keys[..i]))
      invariant breaking == m.MovedFrom(AllBullets(sections.items, keys[..i]))
    {
      SectionSplit(m, sections, i);
      var moved, kept := Partition(m, items[keys[i]]);
      items := items[keys[i] := kept];
      breaking := breaking + moved;
    }
    SplitUnfolds(m, sections);
    assert keys[..|keys|] == keys;
    if breaking != [] {
      var ordered := [BREAKING];
      assert keys[..0] == [];
      NoOtherNames();
      for i := 0 to |keys|
        invariant ordered == [BREAKING] + OtherNames(keys[..i])
      {
        assert keys[..i + 1] == keys[..i] + [keys[i]];
        OtherNamesStep(keys[..i], keys[i]);
        if keys[i] != BREAKING {
          ordered := ordered + [keys[i]];
        }
      }
      return Sections(ordered, items[BREAKING := breaking]);
    }
    return Sections(keys, items);
  }

  lemma NothingSplit(m: Marker, sections: Sections)
    requires sections.Valid()
    ensures Elems(sections.keys) <= sections.items.Keys
    ensures Elems(sections.keys[..0]) <= sections.items.Keys
    ensures sections.items == UntaggedItems(m, sections.items, Elems(sections.keys[..0]))
    ensures m.MovedFrom(AllBullets(sections.items, sections.keys[..0])) == []
  {
  }

  lemma NoOtherNames()
    ensures OtherNames([]) == []
  {
  }

  lemma SectionSplit(m: Marker, sections: Sections, i: nat)
    requires sections.Valid() && i < |sections.keys|
    ensures var k, before, after := sections.keys[i], Elems(sections.keys[..i]), Elems(sections.keys[..i + 1]);
            && before <= sections.items.Keys && after <= sections.items.Keys
            && k in UntaggedItems(m, sections.items, before)
            && UntaggedItems(m, sections.items, before)[k] == sections.items[k]
            && UntaggedItems(m, sections.items, after) ==
               UntaggedItems(m, sections.items, before)[k := m.Untagged(sections.items[k])]
            && m.MovedFrom(AllBullets(sections.items, sections.keys[..i + 1])) ==
               m.MovedFrom(AllBullets(sections.items, sections.keys[..i])) + m.MovedFrom(sections.items[k])
  {
    hide *;
    var keys, k := sections.keys, sections.keys[i];
    KeysFacts(sections, i);
    ElemsStep(keys[..i], k);
    UntaggedStep(m, sections.items, Elems(keys[..i]), k);
    AllBulletsStep(sections.items, keys[..i], k);
    m.MovedConcat(AllBullets(sections.items, keys[..i]), sections.items[k]);
  }

  lemma KeysFacts(sections: Sections, i: nat)
    requires sections.Valid() && i < |sections.keys|
    ensures sections.keys[..i + 1] == sections.keys[..i] + [sections.keys[i]]
    ensures sections.keys[i] !in Elems(sections.keys[..i]) && sections.keys[i] in sections.items
    ensures Elems(sections.keys[..i]) <= sections.items.Keys
  {
  }

  lemma UntaggedStep(m: Marker, items: map<string, seq<string>>, done: set<string>, k: string)
    requires k in items && k !in done
    ensures k in UntaggedItems(m, items, done) && UntaggedItems(m, items, done)[k] == items[k]
    ensures UntaggedItems(m, items, done + {k}) == UntaggedItems(m, items, done)[k := m.Untagged(items[k])]
  {
  }

  lemma AllBulletsStep(items: map<string, seq<string>>, keys: seq<string>, k: string)
    requires Elems(keys) <= items.Keys && k in items
    ensures Elems(keys + [k]) <= items.Keys && AllBullets(items, keys + [k]) == AllBullets(items, keys) + items[k]
  {
  }

  lemma SplitUnfolds(m: Marker, sections: Sections)
    requires sections.Valid()
    ensures Elems(sections.keys) <= sections.items.Keys
    ensures var moved := m.MovedFrom(AllBullets(sections.items, sections.keys));
            var untagged := UntaggedItems(m, sections.items, Elems(sections.keys));
            Split(m, sections) ==
            if moved == [] then Sections(sections.keys, untagged)
            else Sections([BREAKING] + OtherNames(sections.keys), untagged[BREAKING := moved])
  {
  }

  /** Goes through one section's bullets. */
  method Partition(m: Marker, bullets: seq<string>) returns (moved: seq<string>, kept: seq<string>)
    ensures moved == m.MovedFrom(bullets) && kept == m.Untagged(bullets)
  {
    hide Marker.MovedFrom, Marker.Untagged;
    moved, kept := [], [];
    NothingMarked(m);
    assert bullets[..0] == [];
    for i := 0 to |bullets|
      invariant moved == m.MovedFrom(bullets[..i]) && kept == m.Untagged(bullets[..i])
    {
      var b := bullets[i];
      assert bullets[..i + 1] == bullets[..i] + [b];
      m.OneBullet(bullets[..i], b);
      if m.isBreaking(b) {
        moved := moved + [m.rstrip(if "- " <= b then b else "- " + b)];
      } else {
        kept := kept + [b];
      }
    }
    assert bullets[..|bullets|] == bullets;
  }

  /** All bullets, the tagged ones as they will stand after the split. */
  function MarkAll(m: Marker, bullets: seq<string>): seq<string> {
    Map((b: string) => m.Mark(b), bullets)
  }

  lemma {:induction false} MarkedParts(m: Marker, bullets: seq<string>)
    ensures multiset(MarkAll(m, bullets)) == multiset(m.MovedFrom(bullets)) + multiset(m.Untagged(bullets))
  {
    if bullets != [] {
      var front, b := bullets[..|bullets| - 1], bullets[|bullets| - 1];
      assert bullets == front + [b];
      MarkedParts(m, front);
      m.OneBullet(front, b);
      MapStep((b: string) => m.Mark(b), front, b);
    }
  }

  /** The untagged bullets of the sections, apart from those under the breaking heading. */
  lemma {:induction false} UntaggedParts(m: Marker, sections: Sections, keys: seq<string>, items: map<string, seq<string>>)
    requires Distinct(keys) && Elems(keys) <= sections.items.Keys
    requires Elems(OtherNames(keys)) <= items.Keys
    requires forall k :: k in keys && k != BREAKING ==> k in items && items[k] == m.Untagged(sections.items[k])
    ensures multiset(m.Untagged(AllBullets(sections.items, keys))) ==
            multiset(AllBullets(items, OtherNames(keys))) +
            multiset(if BREAKING in keys then m.Untagged(sections.items[BREAKING]) else [])
  {
    if keys != [] {
      var front, k := keys[..|keys| - 1], keys[|keys| - 1];
      assert keys == front + [k];
      DistinctStep(front, k);
      ElemsStep(front, k);
      OtherNamesStep(front, k);
      if k != BREAKING { ElemsStep(OtherNames(front), k); }
      UntaggedParts(m, sections, front, items);
      FilterConcat((b: string) => !m.isBreaking(b), AllBullets(sections.items, front), sections.items[k]);
      assert m.Untagged(AllBullets(sections.items, keys)) == m.Untagged(AllBullets(sections.items, front)) + m.Untagged(sections.items[k]);
      if k != BREAKING {
        assert AllBullets(items, OtherNames(keys)) == AllBullets(items, OtherNames(front)) + items[k] by {
          assert OtherNames(keys)[..|OtherNames(front)|] == OtherNames(front);
        }
      }
    }
  }

  lemma {:induction false} OtherNamesFacts(keys: seq<string>)
    requires Distinct(keys)
    ensures Distinct(OtherNames(keys)) && forall k :: k in OtherNames(keys) <==> k in keys && k != BREAKING
  {
    if keys != [] {
      var front, k := keys[..|keys| - 1], keys[|keys| - 1];
      assert keys == front + [k];
      DistinctStep(front, k);
      OtherNamesFacts(front);
      OtherNamesStep(front, k);
      DistinctStep(OtherNames(front), k);
    }
  }

  /** Without tagged bullets nothing is filtered out. */
  lemma {:induction false} UntaggedIsAll(m: Marker, bullets: seq<string>)
    requires m.MovedFrom(bullets) == []
    ensures m.Untagged(bullets) == bullets == MarkAll(m, bullets)
  {
    if bullets != [] {
      var front, b := bullets[..|bullets| - 1], bullets[|bullets| - 1];
      assert bullets == front + [b];
      m.OneBullet(front, b);
      UntaggedIsAll(m, front);
      MapStep((b: string) => m.Mark(b), front, b);
    }
  }

  lemma {:induction false} NothingMovedAnywhere(m: Marker, items: map<string, seq<string>>, keys: seq<string>)
    requires Elems(keys) <= items.Keys && m.MovedFrom(AllBullets(items, keys)) == []
    ensures forall k :: k in keys ==> m.Untagged(items[k]) == items[k]
  {
    if keys != [] {
      var front, k := keys[..|keys| - 1], keys[|keys| - 1];
      assert keys == front + [k];
      m.MovedConcat(AllBullets(items, front), items[k]);
      NothingMovedAnywhere(m, items, front);
      UntaggedIsAll(m, items[k]);
    }
  }

  lemma {:induction false} AllBulletsPrefixed(items: map<string, seq<string>>, k: string, keys: seq<string>)
    requires k in items && Elems(keys) <= items.Keys
    ensures Elems([k] + keys) <= items.Keys && AllBullets(items, [k] + keys) == items[k] + AllBullets(items, keys)
  {
    if keys == [] {
      assert ([k] + keys)[..0] == [] && [k] + keys == [k];
      assert AllBullets(items, [k]) == AllBullets(items, [k][..0]) + items[k];
    } else {
      var front, last := keys[..|keys| - 1], keys[|keys| - 1];
      assert ([k] + keys)[..|keys|] == [k] + front;
      assert forall x :: x in front ==> x in keys;
      AllBulletsPrefixed(items, k, front);
    }
  }

  lemma {:induction false} AllBulletsAgree(a: map<string, seq<string>>, b: map<string, seq<string>>, keys: seq<string>)
    requires Elems(keys) <= a.Keys && Elems(keys) <= b.Keys && forall k :: k in keys ==> a[k] == b[k]
    ensures AllBullets(a, keys) == AllBullets(b, keys)
  {
    if keys != [] {
      assert forall x :: x in keys[..|keys| - 1] ==> x in keys;
      AllBulletsAgree(a, b, keys[..|keys| - 1]);
    }
  }

  /**
   Pulling breaking changes together loses no bullet exactly when nothing is tagged or no untagged
   bullet stands under the breaking heading already.
   */
  lemma SplitConserves(m: Marker, sections: Sections)
    requires sections.Valid()
    ensures var r := Split(m, sections);
            && r.Valid()
            && (multiset(AllBullets(r.items, r.keys)) == multiset(MarkAll(m, AllBullets(sections.items, sections.keys))) <==>
                || m.MovedFrom(AllBullets(sections.items, sections.keys)) == []
                || BREAKING !in sections.keys
                || m.Untagged(sections.items[BREAKING]) == [])
  {
    hide *;
    var keys, items := sections.keys, sections.items;
    ValidFacts(m, sections);
    SplitUnfolds(m, sections);
    var all := AllBullets(items, keys);
    var moved, untagged := m.MovedFrom(all), UntaggedItems(m, items, Elems(keys));
    var r := Split(m, sections);
    if moved == [] {
      NothingMovedAnywhere(m, items, keys);
      AllBulletsAgree(untagged, items, keys);
      UntaggedIsAll(m, all);
    } else {
      OtherNamesFacts(keys);
      MarkedParts(m, all);
      SplitIsValid(m, sections);
      UntaggedParts(m, sections, keys, untagged);
      AllBulletsPrefixed(r.items, BREAKING, OtherNames(keys));
      AllBulletsAgree(r.items, untagged, OtherNames(keys));
      var lost := if BREAKING in keys then m.Untagged(items[BREAKING]) else [];
      assert |multiset(lost)| == |lost|;
    }
  }

  lemma ValidFacts(m: Marker, sections: Sections)
    requires sections.Valid()
    ensures Distinct(sections.keys) && sections.items.Keys == Elems(sections.keys)
    ensures Elems(sections.keys) <= UntaggedItems(m, sections.items, Elems(sections.keys)).Keys
    ensures Split(m, sections).Valid()
    ensures forall k :: k in sections.keys ==>
      && k in UntaggedItems(m, sections.items, Elems(sections.keys)) && k in sections.items
      && UntaggedItems(m, sections.items, Elems(sections.keys))[k] == m.Untagged(sections.items[k])
  {
    hide Marker.Untagged, Marker.MovedFrom, AllBullets, OtherNames, Distinct;
    OtherNamesFacts(sections.keys);
    DistinctPrefixed(BREAKING, OtherNames(sections.keys));
  }

  lemma DistinctPrefixed(k: string, keys: seq<string>)
    requires Distinct(keys) && k !in keys
    ensures Distinct([k] + keys)
  {
  }

  lemma SplitIsValid(m: Marker, sections: Sections)
    requires sections.Valid()
    ensures Elems(OtherNames(sections.keys)) <= UntaggedItems(m, sections.items, Elems(sections.keys)).Keys
    ensures Elems(OtherNames(sections.keys)) <= Split(m, sections).items.Keys
  {
    hide Marker.Untagged, Marker.MovedFrom, AllBullets, OtherNames, Distinct;
    OtherNamesFacts(sections.keys);
  }

  /** With a tagged bullet elsewhere, an untagged one under the breaking heading is lost. */
  lemma UntaggedBreakingIsLost(m: Marker, tagged: string, plain: string)
    requires m.isBreaking(tagged) && !m.isBreaking(plain)
    ensures var sections := Sections(["Fixed", BREAKING], map["Fixed" := [tagged], BREAKING := [plain]]);
            && sections.Valid()
            && var r := Split(m, sections);
               && r.Valid()
               && multiset(AllBullets(r.items, r.keys)) != multiset(MarkAll(m, AllBullets(sections.items, sections.keys)))
  {
    assert |"Fixed"| != |BREAKING|;
    BreakingIsLost(m, "Fixed", tagged, plain);
  }

  lemma BreakingIsLost(m: Marker, other: string, tagged: string, plain: string)
    requires m.isBreaking(tagged) && !m.isBreaking(plain) && other != BREAKING
    ensures var sections := Sections([other, BREAKING], map[other := [tagged], BREAKING := [plain]]);
            && sections.Valid()
            && var r := Split(m, sections);
               && r.Valid()
               && multiset(AllBullets(r.items, r.keys)) != multiset(MarkAll(m, AllBullets(sections.items, sections.keys)))
  {
    hide *;
    var sections := Sections([other, BREAKING], map[other := [tagged], BREAKING := [plain]]);
    TwoSections(other, tagged, plain);
    BothBullets(sections.items, other, BREAKING, tagged, plain);
    m.OneBullet([], tagged);
    m.OneBullet([tagged], plain);
    m.OneBullet([], plain);
    NothingMarked(m);
    assert [] + [tagged] == [tagged] && [tagged] + [plain] == [tagged, plain] && [] + [plain] == [plain];
    SplitConserves(m, sections);
  }

  lemma NothingMarked(m: Marker)
    ensures m.MovedFrom([]) == [] && m.Untagged([]) == []
  {
  }

  lemma TwoSections(other: string, tagged: string, plain: string)
    requires other != BREAKING
    ensures var sections := Sections([other, BREAKING], map[other := [tagged], BREAKING := [plain]]);
            sections.Valid() && sections.keys == [other] + [BREAKING]
  {
  }

  lemma BothBullets(items: map<string, seq<string>>, a: string, b: string, x: string, y: string)
    requires a in items && b in items && items[a] == [x] && items[b] == [y]
    ensures Elems([a] + [b]) <= items.Keys && AllBullets(items, [a] + [b]) == [x, y]
  {
    AllBulletsPrefixed(items, a, [b]);
    AllBulletsPrefixed(items, b, []);
    assert [b] + [] == [b];
  }
}
