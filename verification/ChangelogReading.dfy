/** What the parser takes from a changelog, in terms of its lines and their characters. */
module ChangelogReading {
  import opened Wrappers
  import opened Sequences
  import opened Decimal
  import opened Changelog

  // ----- Lines -----

  predicate IsIndented(line: string) {
    |line| >= 2 && line[0] == ' ' && line[1] == ' '
  }

  predicate IsDashed(line: string) {
    |line| >= 2 && line[0] == '-' && line[1] == ' '
  }

  /** A heading of the second level. */
  predicate IsHeading(line: string) {
    |line| >= 3 && line[0] == '#' && line[1] == '#' && line[2] == ' '
  }

  lemma LinesByCharacters(line: string)
    ensures IsContinuation(line) <==> IsIndented(line)
    ensures "- " <= line <==> IsDashed(line)
    ensures "## " <= line <==> IsHeading(line)
  {
  }

  /** The lines, with a line feed between each and the next. */
  function WithFeeds(lines: seq<string>): string {
    if lines == [] then "" else if |lines| == 1 then lines[0] else lines[0] + ['\n'] + WithFeeds(lines[1..])
  }

  lemma {:induction false} FeedsAppend(lines: seq<string>, line: string)
    requires lines != []
    ensures WithFeeds(lines + [line]) == WithFeeds(lines) + ['\n'] + line
  {
    assert (lines + [line])[1..] == lines[1..] + [line];
    if |lines| > 1 { FeedsAppend(lines[1..], line); }
  }

  lemma {:induction false} JoinedWithFeeds(lines: seq<string>)
    ensures JoinLines(lines) == WithFeeds(lines)
  {
    if |lines| > 1 {
      var n := |lines| - 1;
      JoinedWithFeeds(lines[..n]);
      FeedsAppend(lines[..n], lines[n]);
      assert lines == lines[..n] + [lines[n]];
    }
  }

  // ----- Positions -----

  /** Positions in order, without repetition. */
  predicate Increasing(at: seq<nat>) {
    forall m, n :: 0 <= m < n < |at| ==> at[m] < at[n]
  }

  lemma IncreasingStep(at: seq<nat>, i: nat)
    requires Increasing(at) && forall n :: 0 <= n < |at| ==> at[n] < i
    ensures Increasing(at + [i])
  {
  }

  // ----- Sections -----

  /** Line `v` is the last prerelease header before line `i`, and no other heading of the second level follows it. */
  ghost predicate OpenedAt(p: Patterns, lines: seq<string>, v: nat, i: nat)
    requires i <= |lines|
  {
    v < i && p.isVersionHeader(lines[v]) && forall k :: v < k < i ==> !p.isVersionHeader(lines[k]) && !IsHeading(lines[k])
  }

  /** Line `i` stands in a prerelease block, below its last subsection heading, which names `s`. */
  ghost predicate InSection(p: Patterns, lines: seq<string>, i: nat, s: string)
    requires i <= |lines|
  {
    exists v: nat, h: nat :: v < h < i && OpenedAt(p, lines, v, i) && NamedAt(p, lines, h, i, s)
  }

  ghost predicate NamedAt(p: Patterns, lines: seq<string>, h: nat, i: nat, s: string)
    requires i <= |lines|
  {
    h < i && p.subsection(lines[h]) == Some(s) && forall k :: h < k < i ==> p.subsection(lines[k]).None?
  }

  lemma {:induction false} TargetExactly(p: Patterns, lines: seq<string>, i: nat)
    requires i <= |lines|
    ensures InTarget(p, lines, i) <==> exists v: nat :: OpenedAt(p, lines, v, i)
  {
    if i > 0 {
      TargetExactly(p, lines, i - 1);
      LinesByCharacters(lines[i - 1]);
      if p.isVersionHeader(lines[i - 1]) {
        assert OpenedAt(p, lines, i - 1, i);
      } else {
        if v: nat :| OpenedAt(p, lines, v, i) { assert OpenedAt(p, lines, v, i - 1); }
        if InTarget(p, lines, i - 1) && !IsHeading(lines[i - 1]) {
          var v: nat :| OpenedAt(p, lines, v, i - 1);
          assert OpenedAt(p, lines, v, i);
        }
      }
    } else {
      assert forall v: nat :: !OpenedAt(p, lines, v, 0);
    }
  }

  lemma {:induction false} SectionExactly(p: Patterns, lines: seq<string>, i: nat, s: string)
    requires p.Valid() && i <= |lines|
    ensures SectionAt(p, lines, i) == Some(s) <==> InSection(p, lines, i, s)
  {
    if i > 0 {
      var l := lines[i - 1];
      SectionExactly(p, lines, i - 1, s);
      LinesByCharacters(l);
      TargetExactly(p, lines, i - 1);
      SectionUnfolds(p, lines, i);
      hide Patterns.Valid, SectionAt, InTarget, OpenedAt, NamedAt;
      OpenedStep(p, lines, i);
      NamedStep(p, lines, i, s);
      Before(p, lines, i - 1, s);
      if p.subsection(l).None? && !IsHeading(l) && !p.isVersionHeader(l) {
        if InSection(p, lines, i - 1, s) {
          var v: nat, h: nat :| v < h < i - 1 && OpenedAt(p, lines, v, i - 1) && NamedAt(p, lines, h, i - 1, s);
          assert OpenedAt(p, lines, v, i) && NamedAt(p, lines, h, i, s);
        }
      } else if InTarget(p, lines, i - 1) && p.subsection(l) == Some(s) && !IsHeading(l) && !p.isVersionHeader(l) {
        var v: nat :| OpenedAt(p, lines, v, i - 1);
        assert OpenedAt(p, lines, v, i) && NamedAt(p, lines, i - 1, i, s);
      }
    }
  }

  lemma SectionUnfolds(p: Patterns, lines: seq<string>, i: nat)
    requires p.Valid() && 0 < i <= |lines|
    ensures var l := lines[i - 1];
            SectionAt(p, lines, i) == if p.isVersionHeader(l) || "## " <= l then None
                                      else if InTarget(p, lines, i - 1) && p.subsection(l).Some? then p.subsection(l)
                                      else SectionAt(p, lines, i - 1)
  {
  }

  lemma Before(p: Patterns, lines: seq<string>, i: nat, s: string)
    requires i <= |lines|
    ensures forall v: nat :: OpenedAt(p, lines, v, i) ==> v < i
    ensures forall h: nat :: NamedAt(p, lines, h, i, s) ==> h < i
  {
  }

  lemma OpenedStep(p: Patterns, lines: seq<string>, i: nat)
    requires 0 < i <= |lines|
    ensures var l := lines[i - 1];
            forall v: nat :: v < i - 1 ==>
              (OpenedAt(p, lines, v, i) <==> OpenedAt(p, lines, v, i - 1) && !p.isVersionHeader(l) && !IsHeading(l))
    ensures forall v: nat :: OpenedAt(p, lines, v, i) ==> v < i
  {
  }

  lemma NamedStep(p: Patterns, lines: seq<string>, i: nat, s: string)
    requires 0 < i <= |lines|
    ensures var l := lines[i - 1];
            forall h: nat :: h < i - 1 ==>
              (NamedAt(p, lines, h, i, s) <==> NamedAt(p, lines, h, i - 1, s) && p.subsection(l).None?)
    ensures NamedAt(p, lines, i - 1, i, s) <==> p.subsection(lines[i - 1]) == Some(s)
    ensures forall h: nat :: NamedAt(p, lines, h, i, s) ==> h < i
  {
  }

  /** Line `h` is a subsection heading of a prerelease block, and names `s`. */
  ghost predicate Names(p: Patterns, lines: seq<string>, h: nat, s: string) {
    h < |lines| && p.subsection(lines[h]) == Some(s) && exists v: nat :: OpenedAt(p, lines, v, h)
  }

  /** The names are those of the headings before line `i`, in order of first appearance: each first at its own line. */
  ghost predicate NamedInOrder(p: Patterns, lines: seq<string>, i: nat, at: seq<nat>, names: seq<string>) {
    && |at| == |names| && Increasing(at)
    && (forall n :: 0 <= n < |at| ==> at[n] < i && Names(p, lines, at[n], names[n]))
    && (forall n, h: nat :: 0 <= n < |at| && h < at[n] ==> !Names(p, lines, h, names[n]))
    && forall h: nat, s :: h < i && Names(p, lines, h, s) ==> s in names
  }

  /** The sections read are the named subsections of prerelease blocks, in order of first appearance. */
  lemma {:induction false} NamesExactly(p: Patterns, lines: seq<string>, i: nat) returns (at: seq<nat>)
    requires p.Valid() && i <= |lines|
    ensures NamedInOrder(p, lines, i, at, SectionNames(p, lines, i))
  {
    hide *;
    if i == 0 {
      at := [];
      NothingNamed(p, lines);
    } else {
      at := NamesExactly(p, lines, i - 1);
      var names := SectionNames(p, lines, i - 1);
      NamesUnfold(p, lines, i - 1);
      NamesOneMore(p, lines, i - 1, at, names);
      if p.subsection(lines[i - 1]).Some? && Names(p, lines, i - 1, p.subsection(lines[i - 1]).value)
         && p.subsection(lines[i - 1]).value !in names {
        at := at + [i - 1];
      }
    }
  }

  lemma NothingNamed(p: Patterns, lines: seq<string>)
    ensures NamedInOrder(p, lines, 0, [], SectionNames(p, lines, 0))
  {
  }

  lemma NamesUnfold(p: Patterns, lines: seq<string>, i: nat)
    requires p.Valid() && i < |lines|
    ensures var names, sub := SectionNames(p, lines, i), p.subsection(lines[i]);
            SectionNames(p, lines, i + 1) ==
            if sub.Some? && Names(p, lines, i, sub.value) && sub.value !in names then names + [sub.value] else names
  {
    TargetExactly(p, lines, i);
    hide OpenedAt, InTarget;
    var l := lines[i];
    assert "### " <= l ==> l[2] == '#';
    assert "## " <= l ==> l[2] == ' ';
  }

  lemma NamesOneMore(p: Patterns, lines: seq<string>, i: nat, at: seq<nat>, names: seq<string>)
    requires i < |lines| && NamedInOrder(p, lines, i, at, names)
    ensures var sub := p.subsection(lines[i]);
            if sub.Some? && Names(p, lines, i, sub.value) && sub.value !in names
            then NamedInOrder(p, lines, i + 1, at + [i], names + [sub.value])
            else NamedInOrder(p, lines, i + 1, at, names)
  {
    forall s ensures Names(p, lines, i, s) ==> p.subsection(lines[i]) == Some(s) {}
    hide Names;
    IncreasingStep(at, i);
  }

  // ----- Bullets -----

  /** A bullet line in a named subsection of a prerelease block. */
  ghost predicate StartsBullet(p: Patterns, lines: seq<string>, i: nat) {
    i < |lines| && IsDashed(lines[i]) && exists s :: s != "" && InSection(p, lines, i, s)
  }

  /** Lines `i` up to `j` are a bullet line and the indented lines directly below it, all of them. */
  predicate IsItem(lines: seq<string>, i: nat, j: nat) {
    && i < j <= |lines| && IsDashed(lines[i])
    && (forall k :: i < k < j ==> IsIndented(lines[k])) && (j == |lines| || !IsIndented(lines[j]))
  }

  /** What line `i` is read as: in its section, skipped, noise, or an item of its line and the indented ones below. */
  ghost predicate ReadAs(p: Patterns, lines: seq<string>, i: nat, b: Bullet) {
    && i < |lines| && IsDashed(lines[i]) && b.section != "" && InSection(p, lines, i, b.section)
    && if p.isSkipped(lines[i]) then b.kind == Skipped
       else if p.noise(lines[i]).Some? then b.kind == Noise(p.noise(lines[i]).value)
       else b.kind.Item? && exists j: nat :: IsItem(lines, i, j) && b.kind.text == WithFeeds(lines[i..j])
  }

  lemma ItemEnds(lines: seq<string>, i: nat, j: nat)
    requires i < |lines| && IsDashed(lines[i])
    ensures IsItem(lines, i, j) <==> j == BulletEnd(lines, i + 1)
  {
    hide *;
    EndFacts(lines, i);
    var e := BulletEnd(lines, i + 1);
    forall k | 0 <= k < |lines| ensures IsContinuation(lines[k]) <==> IsIndented(lines[k]) { LinesByCharacters(lines[k]); }
    ItemMeans(lines, i, j);
    ItemMeans(lines, i, e);
  }

  lemma ItemMeans(lines: seq<string>, i: nat, j: nat)
    ensures IsItem(lines, i, j) <==>
            && i < j <= |lines| && IsDashed(lines[i])
            && (forall k :: i < k < j ==> IsIndented(lines[k])) && (j == |lines| || !IsIndented(lines[j]))
  {
  }

  lemma EndFacts(lines: seq<string>, i: nat)
    requires i < |lines|
    ensures var j := BulletEnd(lines, i + 1);
            i < j <= |lines| && (j == |lines| || !IsContinuation(lines[j])) && forall k :: i < k < j ==> IsContinuation(lines[k])
  {
  }

  lemma BulletExactly(p: Patterns, lines: seq<string>, i: nat)
    requires p.Valid() && i < |lines|
    ensures IsBullet(p, lines, i) <==> StartsBullet(p, lines, i)
    ensures IsBullet(p, lines, i) ==> ReadAs(p, lines, i, BulletAt(p, lines, i))
  {
    BulletMeans(p, lines, i);
    hide Patterns.Valid, IsBullet, BulletAt, SectionAt, InSection, IsItem;
    LinesByCharacters(lines[i]);
    if StartsBullet(p, lines, i) {
      var s :| s != "" && InSection(p, lines, i, s);
      SectionExactly(p, lines, i, s);
    }
    if IsBullet(p, lines, i) {
      var s := SectionAt(p, lines, i).value;
      SectionExactly(p, lines, i, s);
      var j := BulletEnd(lines, i + 1);
      ItemEnds(lines, i, j);
      JoinedWithFeeds(lines[i..j]);
    }
  }

  lemma BulletMeans(p: Patterns, lines: seq<string>, i: nat)
    requires p.Valid() && i < |lines|
    ensures IsBullet(p, lines, i) <==>
            SectionAt(p, lines, i).Some? && SectionAt(p, lines, i).value != "" && "- " <= lines[i]
    ensures IsBullet(p, lines, i) ==>
      BulletAt(p, lines, i) == Bullet(
        SectionAt(p, lines, i).value,
        if p.isSkipped(lines[i]) then Skipped
        else if p.noise(lines[i]).Some? then Noise(p.noise(lines[i]).value)
        else Item(JoinLines(lines[i..BulletEnd(lines, i + 1)])))
  {
    var l := lines[i];
    assert "- " <= l ==> l[0] == '-';
    assert ("## " <= l ==> l[0] == '#') && ("### " <= l ==> l[0] == '#');
  }

  /** The bullets are those that start before line `i`, in order and each once, at the lines `at`. */
  ghost predicate ReadInOrder(p: Patterns, lines: seq<string>, i: nat, at: seq<nat>, bullets: seq<Bullet>) {
    && |at| == |bullets| && Increasing(at)
    && (forall n :: 0 <= n < |at| ==> at[n] < i && ReadAs(p, lines, at[n], bullets[n]))
    && forall k: nat :: k < i && StartsBullet(p, lines, k) ==> k in at
  }

  /**
   The bullets read are the bullet lines of named subsections of prerelease blocks, in order and each once, and
   each is read with the indented lines directly below it; no other line is part of any.
   */
  lemma {:induction false} BulletsExactly(p: Patterns, lines: seq<string>, i: nat) returns (at: seq<nat>)
    requires p.Valid() && i <= |lines|
    ensures ReadInOrder(p, lines, i, at, Bullets(p, lines, i))
  {
    hide *;
    if i == 0 {
      at := [];
      NothingRead(p, lines);
    } else {
      at := BulletsExactly(p, lines, i - 1);
      BulletsStep(p, lines, i - 1);
      BulletExactly(p, lines, i - 1);
      if IsBullet(p, lines, i - 1) {
        ReadOneMore(p, lines, i - 1, at, Bullets(p, lines, i - 1), BulletAt(p, lines, i - 1));
        at := at + [i - 1];
      } else {
        ReadNoMore(p, lines, i - 1, at, Bullets(p, lines, i - 1));
        assert Bullets(p, lines, i - 1) + [] == Bullets(p, lines, i - 1);
      }
    }
  }

  lemma NothingRead(p: Patterns, lines: seq<string>)
    ensures ReadInOrder(p, lines, 0, [], Bullets(p, lines, 0))
  {
  }

  lemma ReadOneMore(p: Patterns, lines: seq<string>, i: nat, at: seq<nat>, bullets: seq<Bullet>, b: Bullet)
    requires ReadInOrder(p, lines, i, at, bullets) && ReadAs(p, lines, i, b)
    ensures ReadInOrder(p, lines, i + 1, at + [i], bullets + [b])
  {
    hide ReadAs, StartsBullet;
    IncreasingStep(at, i);
    forall k: nat | k < i + 1 && StartsBullet(p, lines, k) ensures k in at + [i] {}
  }

  lemma ReadNoMore(p: Patterns, lines: seq<string>, i: nat, at: seq<nat>, bullets: seq<Bullet>)
    requires ReadInOrder(p, lines, i, at, bullets) && !StartsBullet(p, lines, i)
    ensures ReadInOrder(p, lines, i + 1, at, bullets)
  {
    hide ReadAs, StartsBullet;
    forall k: nat | k < i + 1 && StartsBullet(p, lines, k) ensures k in at {}
  }

  lemma BulletsStep(p: Patterns, lines: seq<string>, i: nat)
    requires i < |lines|
    ensures Bullets(p, lines, i + 1) == Bullets(p, lines, i) + if IsBullet(p, lines, i) then [BulletAt(p, lines, i)] else []
  {
    hide IsBullet, BulletAt;
  }

  /** Bullet `n` is the first of its section with its normal form. */
  predicate IsFirstOfItsKind(p: Patterns, bullets: seq<Bullet>, n: nat) {
    && n < |bullets| && bullets[n].kind.Item?
    && forall m :: 0 <= m < n && bullets[m].section == bullets[n].section && bullets[m].kind.Item? ==>
         p.normalize(bullets[m].kind.text) != p.normalize(bullets[n].kind.text)
  }

  /** The texts are the first items of their kind in section `s`, in order and each once, at the positions `at`. */
  ghost predicate FirstsInOrder(p: Patterns, bullets: seq<Bullet>, s: string, at: seq<nat>, texts: seq<string>) {
    && |at| == |texts| && Increasing(at)
    && (forall n :: 0 <= n < |at| ==>
          at[n] < |bullets| && bullets[at[n]] == Bullet(s, Item(texts[n])) && IsFirstOfItsKind(p, bullets, at[n]))
    && forall k: nat :: k < |bullets| && bullets[k].section == s && IsFirstOfItsKind(p, bullets, k) ==> k in at
  }

  /** A section keeps, in order, the first item of each normal form. */
  lemma {:induction false} KeptExactly(p: Patterns, bullets: seq<Bullet>, s: string) returns (at: seq<nat>)
    ensures FirstsInOrder(p, bullets, s, at, Kept(p, bullets, s))
  {
    hide *;
    if bullets == [] {
      at := [];
      NothingFirst(p, s);
    } else {
      var last := |bullets| - 1;
      var front, b := bullets[..last], bullets[last];
      assert bullets == front + [b];
      at := KeptExactly(p, front, s);
      FirstExactly(p, front, b);
      KeptStep(p, front, b, s);
      KeptIsItem(p, front, b);
      FirstsStep(p, front, b, s, at, Kept(p, front, s));
      if b.section == s && IsKept(p, front, b) {
        at := at + [last];
      } else {
        assert Kept(p, front, s) + [] == Kept(p, front, s);
      }
    }
  }

  lemma NothingFirst(p: Patterns, s: string)
    ensures FirstsInOrder(p, [], s, [], Kept(p, [], s))
  {
  }

  lemma KeptIsItem(p: Patterns, front: seq<Bullet>, b: Bullet)
    ensures IsKept(p, front, b) ==> b.kind.Item?
  {
  }

  lemma FirstsStep(p: Patterns, front: seq<Bullet>, b: Bullet, s: string, at: seq<nat>, texts: seq<string>)
    requires FirstsInOrder(p, front, s, at, texts)
    ensures if b.section == s && IsFirstOfItsKind(p, front + [b], |front|)
            then b.kind.Item? && FirstsInOrder(p, front + [b], s, at + [|front|], texts + [b.kind.text])
            else FirstsInOrder(p, front + [b], s, at, texts)
  {
    FirstInFront(p, front, b);
    hide IsFirstOfItsKind;
    IncreasingStep(at, |front|);
  }

  lemma FirstInFront(p: Patterns, front: seq<Bullet>, b: Bullet)
    ensures forall k: nat :: k < |front| ==> (IsFirstOfItsKind(p, front + [b], k) <==> IsFirstOfItsKind(p, front, k))
    ensures IsFirstOfItsKind(p, front + [b], |front|) ==> b.kind.Item?
  {
    var all := front + [b];
    assert all[|front|] == b && forall m :: 0 <= m < |front| ==> all[m] == front[m];
    forall k: nat | k < |front| ensures IsFirstOfItsKind(p, all, k) <==> IsFirstOfItsKind(p, front, k) {}
  }

  lemma FirstExactly(p: Patterns, front: seq<Bullet>, b: Bullet)
    ensures IsFirstOfItsKind(p, front + [b], |front|) <==> IsKept(p, front, b)
  {
    var all, n := front + [b], |front|;
    assert all[n] == b && forall m :: 0 <= m < n ==> all[m] == front[m];
    if b.kind.Item? {
      var form := p.normalize(b.kind.text);
      if form in Seen(p, front, b.section) {
        var m :| 0 <= m < n && front[m].section == b.section && front[m].kind.Item? && p.normalize(front[m].kind.text) == form;
        assert all[m].section == all[n].section && all[m].kind.Item?;
        assert p.normalize(all[m].kind.text) == p.normalize(all[n].kind.text);
      } else {
        forall m | 0 <= m < n && all[m].section == all[n].section && all[m].kind.Item?
          ensures p.normalize(all[m].kind.text) != p.normalize(all[n].kind.text)
        {
          assert front[m] == all[m];
        }
        assert IsFirstOfItsKind(p, all, n);
      }
    }
  }

  // ----- Counters -----

  /** The bullets with this noise. */
  function Occurrences(bullets: seq<Bullet>, noiseLabel: string): nat {
    if bullets == [] then 0
    else Occurrences(bullets[1..], noiseLabel) + if bullets[0].kind == Noise(noiseLabel) then 1 else 0
  }

  lemma {:induction false} CountsOccurrences(bullets: seq<Bullet>, noiseLabel: string)
    ensures NoiseCount(bullets, noiseLabel) == Occurrences(bullets, noiseLabel)
  {
    if bullets != [] {
      var first, rest := bullets[0], bullets[1..];
      CountsOccurrences(rest, noiseLabel);
      FilterConcat((b: Bullet) => b.kind == Noise(noiseLabel), [first], rest);
      assert bullets == [first] + rest && [first][..0] == [];
    }
  }

  /** The first bullet with this noise stands in section `s`. */
  ghost predicate FirstStandsIn(bullets: seq<Bullet>, noiseLabel: string, s: string) {
    exists n :: 0 <= n < |bullets| && bullets[n] == Bullet(s, Noise(noiseLabel))
                && forall m :: 0 <= m < n ==> bullets[m].kind != Noise(noiseLabel)
  }

  lemma {:induction false} HostExactly(bullets: seq<Bullet>, noiseLabel: string, s: string)
    ensures NoiseCount(bullets, noiseLabel) > 0 && NoiseHost(bullets, noiseLabel) == s <==> FirstStandsIn(bullets, noiseLabel, s)
  {
    if bullets != [] {
      var last := |bullets| - 1;
      var front, b := bullets[..last], bullets[last];
      HostExactly(front, noiseLabel, s);
      NoOccurrence(front, noiseLabel);
      NoiseStep(front, b, noiseLabel);
      assert bullets == front + [b];
      hide NoiseCount, NoiseHost;
      if FirstStandsIn(front, noiseLabel, s) {
        var n :| 0 <= n < |front| && front[n] == Bullet(s, Noise(noiseLabel))
                 && forall m :: 0 <= m < n ==> front[m].kind != Noise(noiseLabel);
        assert bullets[n] == front[n];
      }
      if n :| 0 <= n < |bullets| && bullets[n] == Bullet(s, Noise(noiseLabel))
              && forall m :: 0 <= m < n ==> bullets[m].kind != Noise(noiseLabel)
      {
        if n < last {
          assert front[n] == bullets[n];
        } else {
          assert forall m :: 0 <= m < last ==> front[m] == bullets[m];
        }
      }
    }
  }

  lemma {:induction false} NoOccurrence(bullets: seq<Bullet>, noiseLabel: string)
    ensures NoiseCount(bullets, noiseLabel) == 0 <==> forall n :: 0 <= n < |bullets| ==> bullets[n].kind != Noise(noiseLabel)
  {
    if bullets != [] {
      var last := |bullets| - 1;
      NoOccurrence(bullets[..last], noiseLabel);
      assert forall n :: 0 <= n < last ==> bullets[..last][n] == bullets[n];
    }
  }

  /** The counter of one label in a section: one line, where its first bullet stands. */
  ghost function Counter(bullets: seq<Bullet>, noiseLabel: string, s: string): seq<string> {
    if FirstStandsIn(bullets, noiseLabel, s)
    then ["- " + noiseLabel + " (consolidated across " + Print(Occurrences(bullets, noiseLabel)) + " occurrences)"]
    else []
  }

  /** The counters of a section, in the order of the labels. */
  lemma CountersExactly(bullets: seq<Bullet>, s: string)
    ensures |NOISE_LABELS| == 4
    ensures NoiseLines(bullets, 4, s) ==
            Counter(bullets, "apply CodeRabbit auto-fixes", s) + Counter(bullets, "apply Copilot review", s)
            + Counter(bullets, "address Copilot review feedback", s) + Counter(bullets, "address CodeRabbit review feedback", s)
  {
    hide FirstStandsIn, NoiseCount, NoiseHost, Occurrences;
    assert NoiseLines(bullets, 0, s) == [];
    forall n: nat | n < 4
      ensures NoiseLines(bullets, n + 1, s) == NoiseLines(bullets, n, s) + Counter(bullets, NOISE_LABELS[n], s)
    {
      CountsOccurrences(bullets, NOISE_LABELS[n]);
      HostExactly(bullets, NOISE_LABELS[n], s);
    }
    assert NoiseLines(bullets, 0 + 1, s) == [] + Counter(bullets, NOISE_LABELS[0], s);
    assert NoiseLines(bullets, 1 + 1, s) == NoiseLines(bullets, 1, s) + Counter(bullets, NOISE_LABELS[1], s);
    assert NoiseLines(bullets, 2 + 1, s) == NoiseLines(bullets, 2, s) + Counter(bullets, NOISE_LABELS[2], s);
    assert NoiseLines(bullets, 3 + 1, s) == NoiseLines(bullets, 3, s) + Counter(bullets, NOISE_LABELS[3], s);
  }
}
