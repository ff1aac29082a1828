/**
 Collecting the bullets of a changelog's prerelease blocks. The script's regular expressions are
 predicates on lines; a line carries no line ending.
 */
module Changelog {
  import opened Wrappers
  import opened Sequences
  import opened Decimal

  const NOISE_LABELS := [
    "apply CodeRabbit auto-fixes", "apply Copilot review",
    "address Copilot review feedback", "address CodeRabbit review feedback"]

  /** The characters at which a line ends; reading the file has turned carriage returns into line feeds. */
  predicate IsBreak(c: char) {
    || c == '\n' || c == '\U{000B}' || c == '\U{000C}' || c == '\U{001C}' || c == '\U{001D}' || c == '\U{001E}'
    || c == '\U{0085}' || c == '\U{2028}' || c == '\U{2029}'
  }

  predicate OneLine(s: string) {
    forall i :: 0 <= i < |s| ==> !IsBreak(s[i])
  }

  /** The regular expressions, and `normalize`: lower case, white space collapsed and stripped. */
  datatype Patterns = Patterns(
    isVersionHeader: string -> bool,
    subsection: string -> Option<string>,
    isSkipped: string -> bool,
    noise: string -> Option<string>,
    normalize: string -> string)
  {
    /** Headers begin as their expressions say; a noise expression reports one of the labels. */
    ghost predicate Valid() {
      && (forall l :: isVersionHeader(l) ==> "## " <= l)
      && (forall l :: subsection(l).Some? ==> "### " <= l && OneLine(subsection(l).value))
      && (forall l :: noise(l).Some? ==> noise(l).value in NOISE_LABELS)
    }
  }

  datatype Kind = Skipped | Noise(text: string) | Item(text: string)

  datatype Bullet = Bullet(section: string, kind: Kind)

  /** Sections in order of first appearance, and the lines of each. */
  datatype Sections = Sections(keys: seq<string>, items: map<string, seq<string>>)
  {
    ghost predicate Valid() {
      Distinct(keys) && items.Keys == Elems(keys)
    }
  }

  // ----- What the lines mean -----

  predicate IsContinuation(line: string) {
    "  " <= line
  }

  /** Whether line `i` lies in a prerelease block. */
  function InTarget(p: Patterns, lines: seq<string>, i: nat): bool
    requires i <= |lines|
  {
    if i == 0 then false
    else if p.isVersionHeader(lines[i - 1]) then true
    else if "## " <= lines[i - 1] then false
    else InTarget(p, lines, i - 1)
  }

  /** The subsection of a prerelease block that line `i` lies in. */
  function SectionAt(p: Patterns, lines: seq<string>, i: nat): Option<string>
    requires i <= |lines|
  {
    if i == 0 || p.isVersionHeader(lines[i - 1]) || "## " <= lines[i - 1] then None
    else if InTarget(p, lines, i - 1) && p.subsection(lines[i - 1]).Some? then p.subsection(lines[i - 1])
    else SectionAt(p, lines, i - 1)
  }

  predicate IsBullet(p: Patterns, lines: seq<string>, i: nat)
    requires i < |lines|
  {
    && !p.isVersionHeader(lines[i]) && p.subsection(lines[i]).None?
    && SectionAt(p, lines, i).Some? && SectionAt(p, lines, i).value != "" && "- " <= lines[i]
  }

  /** The line after the continuation lines that start at `i`. */
  function BulletEnd(lines: seq<string>, i: nat): (j: nat)
    requires i <= |lines|
    ensures i <= j <= |lines| && (j == |lines| || !IsContinuation(lines[j]))
    ensures forall k :: i <= k < j ==> IsContinuation(lines[k])
    decreases |lines| - i
  {
    if i < |lines| && IsContinuation(lines[i]) then BulletEnd(lines, i + 1) else i
  }

  function JoinLines(lines: seq<string>): string {
    if lines == [] then ""
    else if |lines| == 1 then lines[0]
    else JoinLines(lines[..|lines| - 1]) + "\n" + lines[|lines| - 1]
  }

  function BulletAt(p: Patterns, lines: seq<string>, i: nat): Bullet
    requires i < |lines| && IsBullet(p, lines, i)
  {
    var kind := if p.isSkipped(lines[i]) then Skipped
                else if p.noise(lines[i]).Some? then Noise(p.noise(lines[i]).value)
                else Item(JoinLines(lines[i..BulletEnd(lines, i + 1)]));
    Bullet(SectionAt(p, lines, i).value, kind)
  }

  /** The bullets that start before line `i`. */
  function Bullets(p: Patterns, lines: seq<string>, i: nat): seq<Bullet>
    requires i <= |lines|
  {
    if i == 0 then []
    else Bullets(p, lines, i - 1) + if IsBullet(p, lines, i - 1) then [BulletAt(p, lines, i - 1)] else []
  }

  /** The names of the subsections opened before line `i`, each once, in order. */
  function SectionNames(p: Patterns, lines: seq<string>, i: nat): seq<string>
    requires i <= |lines|
  {
    if i == 0 then []
    else
      var names := SectionNames(p, lines, i - 1);
      if !p.isVersionHeader(lines[i - 1]) && !("## " <= lines[i - 1]) && InTarget(p, lines, i - 1)
        && p.subsection(lines[i - 1]).Some? && p.subsection(lines[i - 1]).value !in names
      then names + [p.subsection(lines[i - 1]).value]
      else names
  }

  /** The normal forms of a section's items. */
  function Seen(p: Patterns, bullets: seq<Bullet>, s: string): set<string> {
    set i | 0 <= i < |bullets| && bullets[i].section == s && bullets[i].kind.Item? :: p.normalize(bullets[i].kind.text)
  }

  /** The items of a section whose normal form occurs for the first time, in order. */
  function Kept(p: Patterns, bullets: seq<Bullet>, s: string): seq<string> {
    if bullets == [] then []
    else
      var front, b := bullets[..|bullets| - 1], bullets[|bullets| - 1];
      Kept(p, front, s) + if b.section == s && IsKept(p, front, b) then [b.kind.text] else []
  }

  /** Whether `b` is an item not seen before in its section. */
  predicate IsKept(p: Patterns, before: seq<Bullet>, b: Bullet) {
    b.kind.Item? && p.normalize(b.kind.text) !in Seen(p, before, b.section)
  }

  function NoiseBullets(bullets: seq<Bullet>, noiseLabel: string): seq<Bullet> {
    Filter((b: Bullet) => b.kind == Noise(noiseLabel), bullets)
  }

  function NoiseCount(bullets: seq<Bullet>, noiseLabel: string): nat {
    |NoiseBullets(bullets, noiseLabel)|
  }

  /** The section of the first bullet with this noise. */
  function NoiseHost(bullets: seq<Bullet>, noiseLabel: string): string
    requires NoiseCount(bullets, noiseLabel) > 0
  {
    NoiseBullets(bullets, noiseLabel)[0].section
  }

  function NoiseLine(noiseLabel: string, count: nat): string {
    "- " + noiseLabel + " (consolidated across " + Print(count) + " occurrences)"
  }

  /** The counter lines that the first `n` labels leave in section `s`. */
  function NoiseLines(bullets: seq<Bullet>, n: nat, s: string): seq<string>
    requires n <= |NOISE_LABELS|
  {
    if n == 0 then []
    else
      var l := NOISE_LABELS[n - 1];
      var count := NoiseCount(bullets, l);
      NoiseLines(bullets, n - 1, s) + if count > 0 && NoiseHost(bullets, l) == s then [NoiseLine(l, count)] else []
  }

  // ----- Parsing -----

  lemma SeenStep(p: Patterns, bullets: seq<Bullet>, b: Bullet, s: string)
    ensures Seen(p, bullets + [b], s) ==
            Seen(p, bullets, s) + if b.section == s && b.kind.Item? then {p.normalize(b.kind.text)} else {}
  {
    var all := bullets + [b];
    assert all[|bullets|] == b;
    forall i | 0 <= i < |bullets| ensures all[i] == bullets[i] {}
    forall x | x in Seen(p, bullets, s) ensures x in Seen(p, all, s) {
      var i :| 0 <= i < |bullets| && bullets[i].section == s && bullets[i].kind.Item? && p.normalize(bullets[i].kind.text) == x;
      assert all[i] == bullets[i];
    }
  }

  lemma KeptStep(p: Patterns, bullets: seq<Bullet>, b: Bullet, s: string)
    ensures Kept(p, bullets + [b], s) == Kept(p, bullets, s) + if b.section == s && IsKept(p, bullets, b) then [b.kind.text] else []
  {
  }

  lemma NoiseStep(bullets: seq<Bullet>, b: Bullet, l: string)
    ensures NoiseCount(bullets + [b], l) == NoiseCount(bullets, l) + if b.kind == Noise(l) then 1 else 0
    ensures NoiseCount(bullets, l) > 0 ==> NoiseHost(bullets + [b], l) == NoiseHost(bullets, l)
    ensures NoiseCount(bullets, l) == 0 && b.kind == Noise(l) ==> NoiseHost(bullets + [b], l) == b.section
  {
  }

  /** Continuation lines open no section and start no bullet. */
  lemma {:induction false} ContinuationsChangeNothing(p: Patterns, lines: seq<string>, i: nat, j: nat)
    requires p.Valid() && i <= j <= |lines| && forall k :: i <= k < j ==> IsContinuation(lines[k])
    ensures InTarget(p, lines, j) == InTarget(p, lines, i) && SectionAt(p, lines, j) == SectionAt(p, lines, i)
    ensures Bullets(p, lines, j) == Bullets(p, lines, i) && SectionNames(p, lines, j) == SectionNames(p, lines, i)
    decreases j
  {
    if i < j {
      ContinuationsChangeNothing(p, lines, i, j - 1);
      assert lines[j - 1][0] == ' ';
    }
  }

  /** What the parser holds after the bullets so far: its sections, and the normal forms seen in each. */
  ghost predicate Collected(p: Patterns, bullets: seq<Bullet>, names: seq<string>, sections: Sections, seen: map<string, set<string>>) {
    && sections.keys == names && Distinct(names)
    && sections.items.Keys == Elems(names) && seen.Keys == Elems(names)
    && (forall s :: s in names ==> sections.items[s] == Kept(p, bullets, s) && seen[s] == Seen(p, bullets, s))
    && (forall b :: b in bullets ==> b.section in names)
  }

  ghost predicate NoiseCollected(bullets: seq<Bullet>, counts: map<string, nat>, hosts: map<string, string>) {
    && counts.Keys == Elems(NOISE_LABELS)
    && (forall l :: l in NOISE_LABELS ==> counts[l] == NoiseCount(bullets, l))
    && (forall l :: l in NOISE_LABELS ==> (l in hosts <==> NoiseCount(bullets, l) > 0))
    && (forall l :: l in NOISE_LABELS && l in hosts ==> hosts[l] == NoiseHost(bullets, l))
  }

  lemma OpenSection(p: Patterns, bullets: seq<Bullet>, names: seq<string>, sections: Sections, seen: map<string, set<string>>, s: string)
    requires Collected(p, bullets, names, sections, seen)
    ensures if s in names then Collected(p, bullets, names, sections, seen)
            else Collected(p, bullets, names + [s], Sections(sections.keys + [s], sections.items[s := []]), seen[s := {}])
  {
    if s !in names {
      DistinctStep(names, s);
      ElemsStep(names, s);
      NothingKept(p, bullets, s);
    }
  }

  lemma {:induction false} NothingKept(p: Patterns, bullets: seq<Bullet>, s: string)
    requires forall b :: b in bullets ==> b.section != s
    ensures Kept(p, bullets, s) == [] && Seen(p, bullets, s) == {}
  {
    if bullets != [] {
      NothingKept(p, bullets[..|bullets| - 1], s);
      assert bullets[|bullets| - 1] in bullets;
    }
  }

  /** A bullet that is no item changes nothing that is kept. */
  lemma CollectOther(p: Patterns, bullets: seq<Bullet>, names: seq<string>, sections: Sections, seen: map<string, set<string>>, b: Bullet)
    requires Collected(p, bullets, names, sections, seen) && b.section in names && !b.kind.Item?
    ensures Collected(p, bullets + [b], names, sections, seen)
  {
    forall s | s in names ensures Kept(p, bullets + [b], s) == Kept(p, bullets, s) && Seen(p, bullets + [b], s) == Seen(p, bullets, s) {
      KeptStep(p, bullets, b, s);
      SeenStep(p, bullets, b, s);
    }
  }

  lemma CollectItem(p: Patterns, bullets: seq<Bullet>, names: seq<string>, sections: Sections, seen: map<string, set<string>>, b: Bullet)
    requires Collected(p, bullets, names, sections, seen) && b.section in names && b.kind.Item?
    ensures var n := p.normalize(b.kind.text);
            if n in seen[b.section] then Collected(p, bullets + [b], names, sections, seen)
            else Collected(p, bullets + [b], names,
                           sections.(items := sections.items[b.section := sections.items[b.section] + [b.kind.text]]),
                           seen[b.section := seen[b.section] + {n}])
  {
    hide Kept, Seen, Distinct;
    forall s | s in names
      ensures Kept(p, bullets + [b], s) ==
              Kept(p, bullets, s) + if b.section == s && IsKept(p, bullets, b) then [b.kind.text] else []
      ensures Seen(p, bullets + [b], s) == Seen(p, bullets, s) + if b.section == s then {p.normalize(b.kind.text)} else {}
    {
      KeptStep(p, bullets, b, s);
      SeenStep(p, bullets, b, s);
    }
    forall s | s in names && !(b.section == s && IsKept(p, bullets, b)) ensures Kept(p, bullets + [b], s) == Kept(p, bullets, s) {
      assert Kept(p, bullets, s) + [] == Kept(p, bullets, s);
    }
  }

  lemma CountNoise(bullets: seq<Bullet>, counts: map<string, nat>, hosts: map<string, string>, b: Bullet)
    requires NoiseCollected(bullets, counts, hosts) && (b.kind.Noise? ==> b.kind.text in NOISE_LABELS)
    ensures if b.kind.Noise?
            then NoiseCollected(bullets + [b], counts[b.kind.text := counts[b.kind.text] + 1],
                                if b.kind.text in hosts then hosts else hosts[b.kind.text := b.section])
            else NoiseCollected(bullets + [b], counts, hosts)
  {
    hide NoiseCount, NoiseHost;
    forall l | l in NOISE_LABELS
      ensures NoiseCount(bullets + [b], l) == NoiseCount(bullets, l) + if b.kind == Noise(l) then 1 else 0
      ensures NoiseCount(bullets, l) > 0 ==> NoiseHost(bullets + [b], l) == NoiseHost(bullets, l)
      ensures NoiseCount(bullets, l) == 0 && b.kind == Noise(l) ==> NoiseHost(bullets + [b], l) == b.section
    {
      NoiseStep(bullets, b, l);
    }
  }

  /** The kept items of every section in order, then its noise counters. */
  ghost predicate Parsed(p: Patterns, lines: seq<string>, r: Sections) {
    var bullets := Bullets(p, lines, |lines|);
    && r.Valid() && r.keys == SectionNames(p, lines, |lines|)
    && forall s :: s in r.keys ==> r.items[s] == Kept(p, bullets, s) + NoiseLines(bullets, |NOISE_LABELS|, s)
  }

  /** How one line changes the parser's position and what has been read. */
  lemma LineStep(p: Patterns, lines: seq<string>, i: nat)
    requires p.Valid() && i < |lines|
    ensures var l, sub := lines[i], p.subsection(lines[i]);
            && (InTarget(p, lines, i + 1) == if p.isVersionHeader(l) then true else if "## " <= l then false else InTarget(p, lines, i))
            && (SectionAt(p, lines, i + 1) ==
                  if p.isVersionHeader(l) || "## " <= l then None
                  else if InTarget(p, lines, i) && sub.Some? then sub else SectionAt(p, lines, i))
            && (SectionNames(p, lines, i + 1) ==
                  var names := SectionNames(p, lines, i);
                  if !p.isVersionHeader(l) && !("## " <= l) && InTarget(p, lines, i) && sub.Some? && sub.value !in names
                  then names + [sub.value] else names)
            && (Bullets(p, lines, i + 1) ==
                  if IsBullet(p, lines, i) then Bullets(p, lines, i) + [BulletAt(p, lines, i)] else Bullets(p, lines, i))
            && (IsBullet(p, lines, i) <==>
                  && !p.isVersionHeader(l) && !("## " <= l) && InTarget(p, lines, i) && sub.None?
                  && SectionAt(p, lines, i).Some? && SectionAt(p, lines, i).value != "" && "- " <= l)
            && (p.noise(l).Some? ==> p.noise(l).value in NOISE_LABELS)
  {
    SectionOnlyInTarget(p, lines, i);
    assert "- " <= lines[i] ==> lines[i][0] == '-';
  }

  lemma {:induction false} SectionOnlyInTarget(p: Patterns, lines: seq<string>, i: nat)
    requires i <= |lines|
    ensures SectionAt(p, lines, i).Some? ==> InTarget(p, lines, i) && SectionAt(p, lines, i).value in SectionNames(p, lines, i)
  {
    if i > 0 { SectionOnlyInTarget(p, lines, i - 1); }
  }

  lemma BulletUnfolds(p: Patterns, lines: seq<string>, i: nat)
    requires i < |lines| && IsBullet(p, lines, i)
    ensures SectionAt(p, lines, i).Some?
    ensures BulletAt(p, lines, i) ==
            Bullet(SectionAt(p, lines, i).value,
                   if p.isSkipped(lines[i]) then Skipped
                   else if p.noise(lines[i]).Some? then Noise(p.noise(lines[i]).value)
                   else Item(JoinLines(lines[i..BulletEnd(lines, i + 1)])))
  {
  }

  lemma BulletEndStep(lines: seq<string>, j: nat)
    requires j <= |lines|
    ensures BulletEnd(lines, j) == if j < |lines| && IsContinuation(lines[j]) then BulletEnd(lines, j + 1) else j
  {
  }

  lemma NothingCollected(p: Patterns, lines: seq<string>)
    ensures Collected(p, Bullets(p, lines, 0), SectionNames(p, lines, 0), Sections([], map[]), map[])
    ensures NoiseCollected(Bullets(p, lines, 0), map l | l in Elems(NOISE_LABELS) :: 0, map[])
    ensures !InTarget(p, lines, 0) && SectionAt(p, lines, 0) == None
  {
  }

  lemma CollectedFacts(p: Patterns, bullets: seq<Bullet>, names: seq<string>, sections: Sections, seen: map<string, set<string>>,
                       counts: map<string, nat>, hosts: map<string, string>)
    requires Collected(p, bullets, names, sections, seen) && NoiseCollected(bullets, counts, hosts)
    ensures sections.keys == names
    ensures forall s :: s in names ==> s in sections.items && s in seen
    ensures forall l :: l in NOISE_LABELS ==> l in counts
  {
  }

  method ParseExistingSections(p: Patterns, lines: seq<string>) returns (sections: Sections)
    requires p.Valid()
    ensures Parsed(p, lines, sections)
  {
    hide *;
    sections := Sections([], map[]);
    var seen: map<string, set<string>> := map[];
    var noiseCounts := map l | l in Elems(NOISE_LABELS) :: 0;
    var noiseSection: map<string, string> := map[];
    var i: nat := 0;
    var inTarget := false;
    var current: Option<string> := None;
    NothingCollected(p, lines);
    while i < |lines|
      invariant i <= |lines|
      invariant inTarget == InTarget(p, lines, i) && current == SectionAt(p, lines, i)
      invariant Collected(p, Bullets(p, lines, i), SectionNames(p, lines, i), sections, seen)
      invariant NoiseCollected(Bullets(p, lines, i), noiseCounts, noiseSection)
    {
      var line := lines[i];
      LineStep(p, lines, i);
      CollectedFacts(p, Bullets(p, lines, i), SectionNames(p, lines, i), sections, seen, noiseCounts, noiseSection);
      if p.isVersionHeader(line) {
        inTarget, current, i := true, None, i + 1;
        continue;
      }
      if "## " <= line {
        inTarget, current, i := false, None, i + 1;
        continue;
      }
      if !inTarget {
        i := i + 1;
        continue;
      }
      var name := p.subsection(line);
      if name.Some? {
        OpenSection(p, Bullets(p, lines, i), SectionNames(p, lines, i), sections, seen, name.value);
        current := name;
        if name.value !in sections.keys {
          seen := seen[name.value := {}];
          sections := Sections(sections.keys + [name.value], sections.items[name.value := []]);
        }
        i := i + 1;
        continue;
      }
      if current.Some? && current.value != "" && "- " <= line {
        var s := current.value;
        ghost var b := BulletAt(p, lines, i);
        SectionOnlyInTarget(p, lines, i);
        BulletUnfolds(p, lines, i);
        CountNoise(Bullets(p, lines, i), noiseCounts, noiseSection, b);
        if p.isSkipped(line) {
          CollectOther(p, Bullets(p, lines, i), SectionNames(p, lines, i), sections, seen, b);
          i := i + 1;
          continue;
        }
        var noiseLabel := p.noise(line);
        if noiseLabel.Some? {
          CollectOther(p, Bullets(p, lines, i), SectionNames(p, lines, i), sections, seen, b);
          noiseCounts := noiseCounts[noiseLabel.value := noiseCounts[noiseLabel.value] + 1];
          if noiseLabel.value !in noiseSection {
            noiseSection := noiseSection[noiseLabel.value := s];
          }
          i := i + 1;
          continue;
        }
        var j: nat := i + 1;
        while j < |lines| && IsContinuation(lines[j])
          invariant i + 1 <= j <= |lines| && BulletEnd(lines, j) == BulletEnd(lines, i + 1)
        {
          BulletEndStep(lines, j);
          j := j + 1;
        }
        BulletEndStep(lines, j);
        var text := JoinLines(lines[i..j]);
        CollectItem(p, Bullets(p, lines, i), SectionNames(p, lines, i), sections, seen, b);
        var normalized := p.normalize(text);
        if normalized !in seen[s] {
          seen := seen[s := seen[s] + {normalized}];
          sections := sections.(items := sections.items[s := sections.items[s] + [text]]);
        }
        ContinuationsChangeNothing(p, lines, i + 1, j);
        i := j;
        continue;
      }
      i := i + 1;
    }
    sections := AddNoise(p, Bullets(p, lines, i), SectionNames(p, lines, i), sections, seen, noiseCounts, noiseSection);
    IsParsed(p, lines, sections);
  }

  /** Appends one counter line for each noise label that occurred, to the section where it first did. */
  method AddNoise(p: Patterns, ghost bullets: seq<Bullet>, ghost names: seq<string>, collected: Sections,
                  ghost seen: map<string, set<string>>, counts: map<string, nat>, hosts: map<string, string>)
    returns (sections: Sections)
    requires Collected(p, bullets, names, collected, seen) && NoiseCollected(bullets, counts, hosts)
    ensures WithNoise(p, bullets, names, sections, |NOISE_LABELS|)
  {
    hide *;
    sections := collected;
    NoNoise(p, bullets, names, collected, seen);
    for n := 0 to |NOISE_LABELS|
      invariant WithNoise(p, bullets, names, sections, n)
    {
      var l := NOISE_LABELS[n];
      NoiseFacts(p, bullets, names, collected, seen, counts, hosts, l);
      OneMoreLabel(p, bullets, names, sections, n);
      if counts[l] == 0 {
        continue;
      }
      var host := hosts[l];
      sections := sections.(items := sections.items[host := sections.items[host] + [NoiseLine(l, counts[l])]]);
    }
  }

  ghost predicate WithNoise(p: Patterns, bullets: seq<Bullet>, names: seq<string>, sections: Sections, n: nat)
    requires n <= |NOISE_LABELS|
  {
    && sections.Valid() && sections.keys == names
    && (forall s :: s in names ==> sections.items[s] == Kept(p, bullets, s) + NoiseLines(bullets, n, s))
  }

  lemma NoNoise(p: Patterns, bullets: seq<Bullet>, names: seq<string>, collected: Sections, seen: map<string, set<string>>)
    requires Collected(p, bullets, names, collected, seen)
    ensures WithNoise(p, bullets, names, collected, 0)
  {
  }

  lemma NoiseFacts(p: Patterns, bullets: seq<Bullet>, names: seq<string>, collected: Sections, seen: map<string, set<string>>,
                   counts: map<string, nat>, hosts: map<string, string>, l: string)
    requires Collected(p, bullets, names, collected, seen) && NoiseCollected(bullets, counts, hosts) && l in NOISE_LABELS
    ensures l in counts && counts[l] == NoiseCount(bullets, l)
    ensures counts[l] > 0 ==> l in hosts && hosts[l] == NoiseHost(bullets, l) && hosts[l] in names
  {
    if counts[l] > 0 {
      var first := NoiseBullets(bullets, l)[0];
      FilterMembers((b: Bullet) => b.kind == Noise(l), bullets, first);
    }
  }

  lemma OneMoreLabel(p: Patterns, bullets: seq<Bullet>, names: seq<string>, sections: Sections, n: nat)
    requires n < |NOISE_LABELS| && WithNoise(p, bullets, names, sections, n)
    requires NoiseCount(bullets, NOISE_LABELS[n]) > 0 ==> NoiseHost(bullets, NOISE_LABELS[n]) in names
    ensures var l := NOISE_LABELS[n];
            var count := NoiseCount(bullets, l);
            if count == 0 then WithNoise(p, bullets, names, sections, n + 1)
            else
              var host := NoiseHost(bullets, l);
              && host in sections.items
              && WithNoise(p, bullets, names,
                           sections.(items := sections.items[host := sections.items[host] + [NoiseLine(l, count)]]), n + 1)
  {
    hide Kept, NoiseCount, NoiseHost;
    var l := NOISE_LABELS[n];
    var line := if NoiseCount(bullets, l) == 0 then [] else [NoiseLine(l, NoiseCount(bullets, l))];
    forall s | s in names
      ensures NoiseLines(bullets, n + 1, s) ==
              NoiseLines(bullets, n, s) + if NoiseCount(bullets, l) > 0 && NoiseHost(bullets, l) == s then line else []
    {}
    hide NoiseLines;
    forall s | s in names
      ensures Kept(p, bullets, s) + (NoiseLines(bullets, n, s) + line) == Kept(p, bullets, s) + NoiseLines(bullets, n, s) + line
    {}
  }

  lemma IsParsed(p: Patterns, lines: seq<string>, sections: Sections)
    requires WithNoise(p, Bullets(p, lines, |lines|), SectionNames(p, lines, |lines|), sections, |NOISE_LABELS|)
    ensures Parsed(p, lines, sections)
  {
  }
}
