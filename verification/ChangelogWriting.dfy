/** What the script cuts, orders and writes, character by character. */
module ChangelogWriting {
  import opened Wrappers
  import opened Sequences
  import opened Changelog
  import opened ChangelogReading
  import opened ChangelogBlock
  import opened ChangelogRender
  import opened ChangelogInject
  import opened ChangelogAggregate
  import opened ChangelogReread

  // ----- Where lines end -----

  /** Line feed, vertical tab, form feed, three separators, next line, line and paragraph separator. */
  const ENDS := {'\n', '\U{000B}', '\U{000C}', '\U{001C}', '\U{001D}', '\U{001E}', '\U{0085}', '\U{2028}', '\U{2029}'}

  /** The first line of a text goes through its first line-ending character, or is all of it; the others follow alike. */
  lemma FirstLineExactly(s: string)
    requires s != ""
    ensures var lines := KeepLines(s); var first := lines[0];
            && first != "" && s == first + s[|first|..] && lines[1..] == KeepLines(s[|first|..])
            && (forall i :: 0 <= i < |first| - 1 ==> first[i] !in ENDS)
            && (first == s || first[|first| - 1] in ENDS)
  {
    hide *;
    var n := FirstLen(s);
    KeepLinesUnfolds(s);
    FirstLenFacts(s);
    assert s == s[..n] + s[n..];
    forall i | 0 <= i < n ensures IsBreak(s[..n][i]) <==> s[..n][i] in ENDS { EndsExactly(s[..n][i]); }
  }

  lemma EndsExactly(c: char)
    ensures IsBreak(c) <==> c in ENDS
  {
  }

  lemma FirstLenFacts(s: string)
    requires s != ""
    ensures var n := FirstLen(s);
            0 < n <= |s| && (IsBreak(s[n - 1]) || n == |s|) && forall i :: 0 <= i < n - 1 ==> !IsBreak(s[i])
  {
    hide IsBreak;
  }

  // ----- The tagged bullets -----

  /** A tagged bullet is moved, as a bullet line without white space at its end, under a first section of its own. */
  lemma TaggedBulletMoves(m: Marker, sections: Sections, k: string, b: string)
    requires sections.Valid() && k in sections.keys && b in sections.items[k] && m.isBreaking(b)
    ensures Elems(sections.keys) <= sections.items.Keys
    ensures var r := Split(m, sections);
            && r.keys == ["Breaking Changes"] + Filter((x: string) => x != "Breaking Changes", sections.keys)
            && "Breaking Changes" in r.items
            && m.rstrip(if IsDashed(b) then b else ['-', ' '] + b) in r.items["Breaking Changes"]
            && (k != "Breaking Changes" ==> k in r.keys && k in r.items && b !in r.items[k])
  {
    LinesByCharacters(b);
    hide Split, Marker.MovedFrom, AllBullets, Marker.Untagged;
    MovedMember(m, sections, k, b);
    SplitOf(m, sections);
    FilterMembers((x: string) => x != BREAKING, sections.keys, k);
    SameFilter((x: string) => x != BREAKING, (x: string) => x != "Breaking Changes", sections.keys);
    OtherNamesAre(sections.keys);
    UntaggedMember(m, sections.items[k], b);
  }

  lemma OtherNamesAre(keys: seq<string>)
    ensures OtherNames(keys) == Filter((x: string) => x != BREAKING, keys)
  {
    SameFilter((k: string) => k != BREAKING, (x: string) => x != BREAKING, keys);
  }

  /** An untagged bullet stays where it is, unless that is where the tagged ones go. */
  lemma UntaggedBulletStays(m: Marker, sections: Sections, k: string, b: string)
    requires sections.Valid() && k in sections.keys && b in sections.items[k] && !m.isBreaking(b)
    requires k != "Breaking Changes"
    ensures Elems(sections.keys) <= sections.items.Keys
    ensures var r := Split(m, sections); k in r.keys && k in r.items && b in r.items[k]
  {
    hide Split, Marker.MovedFrom, AllBullets, Marker.Untagged;
    SplitOf(m, sections);
    FilterMembers((k: string) => k != BREAKING, sections.keys, k);
    UntaggedMember(m, sections.items[k], b);
  }

  lemma SplitOf(m: Marker, sections: Sections)
    requires sections.Valid()
    ensures Elems(sections.keys) <= sections.items.Keys
    ensures var moved := m.MovedFrom(AllBullets(sections.items, sections.keys));
            var untagged := UntaggedItems(m, sections.items, Elems(sections.keys));
            Split(m, sections) == if moved == [] then Sections(sections.keys, untagged)
                                  else Sections([BREAKING] + OtherNames(sections.keys), untagged[BREAKING := moved])
  {
  }

  lemma UntaggedMember(m: Marker, bullets: seq<string>, b: string)
    ensures b in m.Untagged(bullets) <==> b in bullets && !m.isBreaking(b)
  {
    FilterMembers((b: string) => !m.isBreaking(b), bullets, b);
  }

  lemma MovedMember(m: Marker, sections: Sections, k: string, b: string)
    requires sections.Valid() && k in sections.keys && b in sections.items[k] && m.isBreaking(b)
    ensures Elems(sections.keys) <= sections.items.Keys
    ensures m.rstrip(if "- " <= b then b else "- " + b) in m.MovedFrom(AllBullets(sections.items, sections.keys))
  {
    var all := AllBullets(sections.items, sections.keys);
    InAllBullets(sections.items, sections.keys, k, b);
    FilterMembers(m.isBreaking, all, b);
    var i :| 0 <= i < |m.Tagged(all)| && m.Tagged(all)[i] == b;
    assert m.MovedFrom(all)[i] == m.Moved(b);
  }

  lemma {:induction false} InAllBullets(items: map<string, seq<string>>, keys: seq<string>, k: string, b: string)
    requires Elems(keys) <= items.Keys && k in keys && b in items[k]
    ensures b in AllBullets(items, keys)
  {
    var n := |keys| - 1;
    assert keys == keys[..n] + [keys[n]];
    if keys[n] != k {
      assert Elems(keys[..n]) <= Elems(keys);
      InAllBullets(items, keys[..n], k, b);
    }
  }

  // ----- The block -----

  /** The sections with bullets are written in this order, and any others behind, in their own. */
  lemma WrittenOrder(sections: Sections)
    ensures var known := ["Breaking Changes", "Added", "Changed", "Deprecated", "Removed", "Fixed", "Security",
                          "Performance", "Documentation", "Maintenance", "Testing", "Styling", "Reverted", "Other"];
            var written := (k: string) => k in sections.items && sections.items[k] != [];
            RenderOrder(sections) == Filter(written, known) + Filter((k: string) => written(k) && k !in known, sections.keys)
  {
    var known := SECTION_ORDER;
    var written := (k: string) => k in sections.items && sections.items[k] != [];
    SameFilter((k: string) => HasBullets(sections.items, k), written, known);
    SameFilter((k: string) => HasBullets(sections.items, k) && k !in SECTION_ORDER,
               (k: string) => written(k) && k !in known, sections.keys);
  }

  lemma {:induction false} SameFilter(p: string -> bool, q: string -> bool, s: seq<string>)
    requires forall x :: p(x) == q(x)
    ensures Filter(p, s) == Filter(q, s)
  {
    if s != [] { SameFilter(p, q, s[..|s| - 1]); }
  }

  /** A blank line, the heading, a blank line, and the bullets, each on lines of its own. */
  ghost function SectionsText(items: map<string, seq<string>>, order: seq<string>): string
    requires forall k :: k in order ==> k in items
  {
    if order == [] then ""
    else
      var k := order[|order| - 1];
      SectionsText(items, order[..|order| - 1]) + "\n### " + k + "\n\n" + WithFeeds(items[k]) + "\n"
  }

  lemma {:induction false} JoinMore(a: seq<string>, b: seq<string>)
    requires a != [] && b != []
    ensures WithFeeds(a + b) == WithFeeds(a) + "\n" + WithFeeds(b)
  {
    assert (a + b)[1..] == a[1..] + b;
    if |a| > 1 { JoinMore(a[1..], b); } else { assert (a + b)[1..] == b; }
  }

  lemma {:induction false} BlocksText(header: string, items: map<string, seq<string>>, order: seq<string>)
    requires forall k :: k in order ==> k in items && items[k] != []
    ensures WithFeeds([header, ""] + Blocks(items, order)) == header + "\n" + SectionsText(items, order)
  {
    hide *;
    if order == [] {
      NoBlocksText(header, items);
    } else {
      var n := |order| - 1;
      var k, front := order[n], [header, ""] + Blocks(items, order[..n]);
      BlocksText(header, items, order[..n]);
      BlocksUnfold(header, items, order);
      JoinMore(front, SectionBlock(k, items[k]));
      SectionText(k, items[k]);
      Regrouped(header, SectionsText(items, order[..n]), k, WithFeeds(items[k]));
    }
  }

  lemma NoBlocksText(header: string, items: map<string, seq<string>>)
    ensures WithFeeds([header, ""] + Blocks(items, [])) == header + "\n" + SectionsText(items, [])
  {
    assert [header, ""] + Blocks(items, []) == [header, ""] && [header, ""][1..] == [""];
    assert WithFeeds([header, ""]) == header + "\n" + "";
  }

  lemma BlocksUnfold(header: string, items: map<string, seq<string>>, order: seq<string>)
    requires order != [] && forall k :: k in order ==> k in items
    ensures var n := |order| - 1; var k := order[n];
            && k in items && SectionBlock(k, items[k]) != []
            && [header, ""] + Blocks(items, order) == ([header, ""] + Blocks(items, order[..n])) + SectionBlock(k, items[k])
            && SectionsText(items, order) == SectionsText(items, order[..n]) + "\n### " + k + "\n\n" + WithFeeds(items[k]) + "\n"
  {
    hide WithFeeds;
    assert order[|order| - 1] in order;
  }

  lemma Regrouped(header: string, text: string, k: string, bullets: string)
    ensures (header + "\n" + text) + "\n" + ("### " + k + "\n\n" + bullets + "\n")
            == header + "\n" + (text + "\n### " + k + "\n\n" + bullets + "\n")
  {
    assert "\n### " == "\n" + "### ";
  }

  lemma SectionText(k: string, bullets: seq<string>)
    requires bullets != []
    ensures WithFeeds(SectionBlock(k, bullets)) == "### " + k + "\n\n" + WithFeeds(bullets) + "\n"
  {
    var head := "### " + k;
    assert SectionBlock(k, bullets) == ([head] + ([""] + bullets)) + [""];
    JoinMore([head] + ([""] + bullets), [""]);
    JoinMore([head], [""] + bullets);
    JoinMore([""], bullets);
    assert WithFeeds([head]) == head && WithFeeds([""]) == "";
    assert "\n" + "" + "\n" == "\n\n";
  }

  /** The finished block is its header and its sections, when its last bullet does not end in white space. */
  lemma BlockText(isSpace: char -> bool, header: string, items: map<string, seq<string>>, order: seq<string>)
    requires order != [] && isSpace('\n') && forall k :: k in order ==> k in items && items[k] != []
    requires var last := LastBullet(items, order); last != "" && !isSpace(last[|last| - 1])
    ensures FinishBlock(isSpace, [header, ""] + Blocks(items, order)) == header + "\n" + SectionsText(items, order)
  {
    hide *;
    var out := [header, ""] + Blocks(items, order);
    JoinedWithFeeds(out);
    BlocksText(header, items, order);
    BlocksUnfold(header, items, order);
    var n := |order| - 1;
    var k := order[n];
    LastOf(items, order);
    FeedsEnd(items[k]);
    var front := header + "\n" + (SectionsText(items, order[..n]) + "\n### " + k + "\n\n");
    EndsAlike(front, WithFeeds(items[k]));
    assert header + "\n" + SectionsText(items, order) == front + WithFeeds(items[k]) + "\n";
    StripsOnly(isSpace, front + WithFeeds(items[k]));
    FinishOf(isSpace, out);
  }

  lemma FinishOf(isSpace: char -> bool, out: seq<string>)
    ensures FinishBlock(isSpace, out) == RStrip(isSpace, JoinLines(out)) + "\n" && NL == "\n"
  {
  }

  lemma EndsAlike(a: string, b: string)
    requires b != ""
    ensures a + b != "" && (a + b)[|a + b| - 1] == b[|b| - 1]
  {
  }

  lemma LastOf(items: map<string, seq<string>>, order: seq<string>)
    requires order != [] && forall k :: k in order ==> k in items && items[k] != []
    ensures var k := order[|order| - 1]; k in items && items[k] != [] && LastBullet(items, order) == items[k][|items[k]| - 1]
  {
    assert order[|order| - 1] in order;
  }

  lemma {:induction false} FeedsEnd(lines: seq<string>)
    requires lines != [] && lines[|lines| - 1] != ""
    ensures var t, last := WithFeeds(lines), lines[|lines| - 1]; t != "" && t[|t| - 1] == last[|last| - 1]
  {
    if |lines| > 1 { FeedsEnd(lines[1..]); }
  }

  // ----- Where the block goes -----

  /** The lines before `i` are not such lines, and line `i` is. */
  predicate IsFirstLine(f: string -> bool, lines: seq<string>, i: nat) {
    i < |lines| && f(lines[i]) && forall k :: 0 <= k < i ==> !f(lines[k])
  }

  lemma {:induction false} FirstIndexExactly(f: string -> bool, lines: seq<string>, i: nat)
    ensures FirstIndex(f, lines) == Some(i) <==> IsFirstLine(f, lines, i)
  {
  }

  /** The blank lines behind line `i` end before line `at`. */
  predicate BlankUpTo(h: Headers, lines: seq<string>, i: nat, at: nat) {
    i < at <= |lines| && (forall k :: i < k < at ==> h.isBlank(lines[k])) && (at == |lines| || !h.isBlank(lines[at]))
  }

  lemma {:induction false} SkipBlankExactly(h: Headers, lines: seq<string>, i: nat, j: nat)
    requires i <= |lines|
    ensures SkipBlank(h, lines, i) == j <==>
            i <= j <= |lines| && (forall k :: i <= k < j ==> h.isBlank(lines[k])) && (j == |lines| || !h.isBlank(lines[j]))
    decreases |lines| - i
  {
    if i < |lines| && h.isBlank(lines[i]) { SkipBlankExactly(h, lines, i + 1, j); }
  }

  /** What makes a blank line of the end of a text. */
  function Gap(prefix: string): string {
    if |prefix| >= 2 && prefix[|prefix| - 1] == '\n' && prefix[|prefix| - 2] == '\n' then ""
    else if |prefix| >= 1 && prefix[|prefix| - 1] == '\n' then "\n"
    else "\n\n"
  }

  lemma InsertedText(prefix: string, underHeading: bool, block: string, suffix: string)
    ensures prefix + Insertion(prefix, underHeading, block) + suffix ==
            prefix + Gap(prefix) + (if underHeading then "" else "## [Unreleased]\n\n") + block + "\n" + suffix
  {
    hide *;
    SeparatorAndIntro(prefix, underHeading);
    InsertionIs(prefix, underHeading, block);
    var s, i := Separator(prefix), Intro(underHeading);
    assert prefix + (s + i + block + "\n") + suffix == prefix + s + i + block + "\n" + suffix;
  }

  lemma SeparatorAndIntro(prefix: string, underHeading: bool)
    ensures Separator(prefix) == Gap(prefix) && Intro(underHeading) == if underHeading then "" else "## [Unreleased]\n\n"
  {
  }

  lemma InsertionIs(prefix: string, underHeading: bool, block: string)
    ensures Insertion(prefix, underHeading, block) == Separator(prefix) + Intro(underHeading) + block + "\n"
  {
  }

  /** The text before and from line `at` on. */
  ghost predicate CutAt(text: string, at: nat, prefix: string, suffix: string) {
    at <= |KeepLines(text)| && prefix == Concat(KeepLines(text)[..at]) && text == prefix + suffix
  }

  /**
   The block goes below the first `Unreleased` heading and its blank lines, behind a blank line; without such a
   heading it goes, with one of its own, before the first prerelease header.
   */
  lemma InjectedExactly(p: Patterns, h: Headers, text: string, block: string, at: nat, prefix: string, suffix: string)
    requires forall l :: l in TextLines(text) ==> !h.isStable(l)
    requires CutAt(text, at, prefix, suffix)
    ensures forall i: nat :: IsFirstLine(h.isUnreleased, TextLines(text), i) && BlankUpTo(h, TextLines(text), i, at) ==>
      Inject(p, h, text, block) == Ok(prefix + Gap(prefix) + block + "\n" + suffix)
    ensures (forall l :: l in TextLines(text) ==> !h.isUnreleased(l)) && IsFirstLine(p.isVersionHeader, TextLines(text), at) ==>
      Inject(p, h, text, block) == Ok(prefix + Gap(prefix) + "## [Unreleased]\n\n" + block + "\n" + suffix)
  {
    hide KeepLines, Concat, FirstIndex, SkipBlank, Chomp, Separator, Gap, Insertion;
    var lines := TextLines(text);
    InjectionPreservesText(text, at);
    assert Parts(text, at) == (prefix, suffix) by { SuffixIs(prefix, Parts(text, at).1, suffix); }
    forall i: nat | IsFirstLine(h.isUnreleased, lines, i) && BlankUpTo(h, lines, i, at)
      ensures Inject(p, h, text, block) == Ok(prefix + Gap(prefix) + block + "\n" + suffix)
    {
      FirstIndexExactly(h.isUnreleased, lines, i);
      SkipBlankExactly(h, lines, i + 1, at);
      InsertedText(prefix, true, block, suffix);
      assert prefix + Gap(prefix) + "" == prefix + Gap(prefix);
    }
    if IsFirstLine(p.isVersionHeader, lines, at) {
      FirstIndexExactly(p.isVersionHeader, lines, at);
      InsertedText(prefix, false, block, suffix);
    }
  }

  lemma SuffixIs(prefix: string, a: string, b: string)
    requires prefix + a == prefix + b
    ensures a == b
  {
    assert a == (prefix + a)[|prefix|..] && b == (prefix + b)[|prefix|..];
  }
}
