/** The whole run: collect, split, render, inject. */
module ChangelogAggregate {
  import opened Wrappers
  import opened Sequences
  import opened Decimal
  import opened Changelog
  import opened ChangelogBlock
  import opened ChangelogRender
  import opened ChangelogInject

  /** Trailing white space removed. */
  function RStrip(isSpace: char -> bool, s: string): (r: string)
    ensures r <= s && (r == "" || !isSpace(r[|r| - 1])) && forall i :: |r| <= i < |s| ==> isSpace(s[i])
  {
    if s != "" && isSpace(s[|s| - 1]) then RStrip(isSpace, s[..|s| - 1]) else s
  }

  function FinishBlock(isSpace: char -> bool, out: seq<string>): string {
    RStrip(isSpace, JoinLines(out)) + NL
  }

  // ----- A rendered block holds no header but its own -----

  /** No line of `s` starts like a version header. */
  ghost predicate NoHeaders(s: string) {
    forall i :: 0 <= i <= |s| && (i == 0 || IsBreak(s[i - 1])) ==> !("## " <= s[i..])
  }

  lemma PrefixNoHeaders(s: string, t: string)
    requires NoHeaders(s) && t <= s
    ensures NoHeaders(t)
  {
    forall i | 0 <= i <= |t| && (i == 0 || IsBreak(t[i - 1])) ensures !("## " <= t[i..]) {
      assert t[i..] <= s[i..];
      assert i == 0 || IsBreak(s[i - 1]);
    }
  }

  lemma JoinNoHeaders(a: string, b: string)
    requires NoHeaders(a) && NoHeaders(b)
    ensures NoHeaders(a + NL + b)
  {
    var t := a + NL + b;
    forall i | 0 <= i <= |t| && (i == 0 || IsBreak(t[i - 1])) ensures !("## " <= t[i..]) {
      if i <= |a| {
        assert i == 0 || IsBreak(a[i - 1]);
        assert !("## " <= a[i..]);
        if "## " <= t[i..] { HeaderInFirst(a[i..], NL + b); }
        assert t[i..] == a[i..] + (NL + b);
      } else {
        assert t[i..] == b[i - |a| - 1..];
        assert i - |a| - 1 == 0 || IsBreak(b[i - |a| - 2]);
      }
    }
  }

  /** A header does not span a line feed. */
  lemma HeaderInFirst(a: string, b: string)
    requires b != "" && IsBreak(b[0]) && "## " <= a + b
    ensures "## " <= a
  {
    var t := a + b;
    assert t[0] == '#' && t[1] == '#' && t[2] == ' ';
    assert IsBreak(t[|a|]);
    assert a == t[..|a|];
  }

  lemma OneLineNoHeaders(s: string)
    requires OneLine(s) && !("## " <= s)
    ensures NoHeaders(s)
  {
  }

  lemma {:induction false} JoinedLinesNoHeaders(lines: seq<string>)
    requires forall l :: l in lines ==> NoHeaders(l)
    ensures NoHeaders(JoinLines(lines))
  {
    hide NoHeaders;
    if |lines| <= 1 {
      OneLineNoHeaders("");
    } else {
      JoinedLinesNoHeaders(lines[..|lines| - 1]);
      JoinNoHeaders(JoinLines(lines[..|lines| - 1]), lines[|lines| - 1]);
    }
  }

  /** Read as lines, such a text has no version header. */
  lemma {:induction false} NoHeaderLines(s: string)
    requires NoHeaders(s)
    ensures forall l :: l in TextLines(s) ==> !("## " <= l)
    decreases |s|
  {
    hide *;
    NoLines();
    if s != "" {
      var n := FirstLen(s);
      StartsNoHeader(s);
      TextLinesCons(s);
      TailNoHeaders(s, n);
      if n < |s| { NoHeaderLines(s[n..]); } else { assert s[n..] == ""; }
      ChompIsPrefix(s, n);
      forall l | l in TextLines(s) ensures !("## " <= l) {
        assert l == Chomp(s[..n]) || l in TextLines(s[n..]);
      }
    }
  }

  lemma StartsNoHeader(s: string)
    requires NoHeaders(s)
    ensures !("## " <= s)
  {
    assert s[0..] == s;
  }

  lemma TextLinesCons(s: string)
    requires s != ""
    ensures TextLines(s) == [Chomp(s[..FirstLen(s)])] + TextLines(s[FirstLen(s)..])
  {
    var n := FirstLen(s);
    KeepLinesUnfolds(s);
    MapConcat(Chomp, [s[..n]], KeepLines(s[n..]));
    MapOne(s[..n]);
  }

  lemma ChompIsPrefix(s: string, n: nat)
    requires n <= |s|
    ensures "## " <= Chomp(s[..n]) ==> "## " <= s
  {
  }

  lemma TailNoHeaders(s: string, n: nat)
    requires NoHeaders(s) && 0 < n <= |s|
    ensures IsBreak(s[n - 1]) ==> NoHeaders(s[n..])
  {
  }

  lemma {:induction false} JoinLinesCons(first: string, rest: seq<string>)
    requires rest != []
    ensures JoinLines([first] + rest) == first + NL + JoinLines(rest)
  {
    var all := [first] + rest;
    if |rest| == 1 {
      assert all[..1] == [first];
    } else {
      assert all[..|all| - 1] == [first] + rest[..|rest| - 1];
      JoinLinesCons(first, rest[..|rest| - 1]);
    }
  }

  /** A header line over lines without headers makes a block, trailing white space stripped. */
  lemma FinishedIsBlock(p: Patterns, h: Headers, isSpace: char -> bool, header: string, rest: seq<string>)
    requires p.Valid() && h.Valid(p)
    requires h.isStable(header) && OneLine(header) && !isSpace(header[|header| - 1])
    requires rest != [] && forall l :: l in rest ==> NoHeaders(l)
    ensures IsBlock(p, h, FinishBlock(isSpace, [header] + rest))
  {
    hide *;
    JoinLinesCons(header, rest);
    JoinedLinesNoHeaders(rest);
    HeaderIsOneLine(p, h, header);
    var body := StrippedBody(isSpace, header, JoinLines(rest));
    PrefixNoHeaders(JoinLines(rest), body);
    FinishUnfolds(isSpace, header, rest);
    if RStrip(isSpace, header + NL + JoinLines(rest)) == header {
      assert header + NL + "" == header + NL;
      HeaderAndBody(p, h, header, "");
    } else {
      EndsWithLine(body);
      assert header + NL + body + NL == header + NL + (body + NL);
      HeaderAndBody(p, h, header, body + NL);
    }
  }

  lemma FinishUnfolds(isSpace: char -> bool, header: string, rest: seq<string>)
    requires JoinLines([header] + rest) == header + NL + JoinLines(rest)
    ensures FinishBlock(isSpace, [header] + rest) == RStrip(isSpace, header + NL + JoinLines(rest)) + NL
    ensures Ended("") && NoHeaders("")
  {
  }

  lemma HeaderIsOneLine(p: Patterns, h: Headers, header: string)
    requires p.Valid() && h.Valid(p) && h.isStable(header)
    ensures header != ""
  {
  }

  lemma EndsWithLine(body: string)
    requires NoHeaders(body)
    ensures Ended(body + NL) && NoHeaders(body + NL)
  {
    OneLineNoHeaders("");
    JoinNoHeaders(body, "");
    assert body + NL + "" == body + NL;
  }

  /** Stripping never reaches into a header that does not end in white space. */
  lemma StrippedBody(isSpace: char -> bool, header: string, rest: string) returns (body: string)
    requires header != "" && !isSpace(header[|header| - 1])
    ensures body <= rest
    ensures var r := RStrip(isSpace, header + NL + rest); r == header || r == header + NL + body
  {
    var text := header + NL + rest;
    var r := RStrip(isSpace, text);
    assert text[|header| - 1] == header[|header| - 1];
    assert |r| >= |header|;
    if |r| > |header| {
      body := rest[..|r| - |header| - 1];
      assert r == text[..|r|];
    } else {
      body := "";
      assert r == text[..|header|] == header;
    }
  }

  lemma HeaderAndBody(p: Patterns, h: Headers, header: string, body: string)
    requires p.Valid() && h.Valid(p) && h.isStable(header) && OneLine(header)
    requires Ended(body) && NoHeaders(body)
    ensures IsBlock(p, h, header + NL + body)
  {
    hide *;
    HeaderLine(header);
    TextLinesAppend(header + NL, body);
    NoHeaderLines(body);
    BlockFromLines(p, h, header, body);
  }

  lemma HeaderLine(header: string)
    requires OneLine(header)
    ensures TextLines(header + NL) == [header] && Ended(header + NL)
  {
    LastLine(header);
  }

  lemma BlockFromLines(p: Patterns, h: Headers, header: string, body: string)
    requires p.Valid() && h.Valid(p) && h.isStable(header) && Ended(body)
    requires TextLines(header + NL + body) == [header] + TextLines(body)
    requires forall l :: l in TextLines(body) ==> !("## " <= l)
    ensures IsBlock(p, h, header + NL + body)
  {
  }

  // ----- What the script writes -----

  /** The lines of a text hold no line feed. */
  ghost predicate Flat(lines: seq<string>) {
    forall l :: l in lines ==> OneLine(l)
  }

  lemma {:induction false} TextLinesAreFlat(s: string)
    ensures Flat(TextLines(s))
    decreases |s|
  {
    if s == "" {
      NoLines();
    } else {
      var n := FirstLen(s);
      TextLinesCons(s);
      TextLinesAreFlat(s[n..]);
      hide TextLines;
      assert OneLine(Chomp(s[..n]));
    }
  }

  /** A bullet with its continuation lines holds no header. */
  lemma {:induction false} BulletNoHeaders(lines: seq<string>, i: nat, j: nat)
    requires Flat(lines) && i < j <= |lines| && "- " <= lines[i] && forall k :: i < k < j ==> IsContinuation(lines[k])
    ensures NoHeaders(JoinLines(lines[i..j]))
  {
    forall l | l in lines[i..j] ensures NoHeaders(l) {
      var k :| i <= k < j && l == lines[k];
      assert lines[k][0] == '-' || lines[k][0] == ' ';
      OneLineNoHeaders(l);
    }
    JoinedLinesNoHeaders(lines[i..j]);
  }

  ghost predicate ItemsNoHeaders(bullets: seq<Bullet>) {
    forall b :: b in bullets && b.kind.Item? ==> NoHeaders(b.kind.text)
  }

  lemma {:induction false} BulletsNoHeaders(p: Patterns, lines: seq<string>, i: nat)
    requires p.Valid() && Flat(lines) && i <= |lines|
    ensures ItemsNoHeaders(Bullets(p, lines, i))
    ensures Flat(SectionNames(p, lines, i))
  {
    hide NoHeaders, JoinLines, BulletEnd, SectionAt, InTarget;
    if i > 0 {
      BulletsNoHeaders(p, lines, i - 1);
      if IsBullet(p, lines, i - 1) {
        BulletNoHeaders(lines, i - 1, BulletEnd(lines, i));
      }
    }
  }

  lemma {:induction false} KeptNoHeaders(p: Patterns, bullets: seq<Bullet>, s: string)
    requires ItemsNoHeaders(bullets)
    ensures forall t :: t in Kept(p, bullets, s) ==> NoHeaders(t)
  {
    hide NoHeaders, Seen;
    if bullets != [] {
      var front, b := bullets[..|bullets| - 1], bullets[|bullets| - 1];
      assert b in bullets;
      assert forall x :: x in front ==> x in bullets;
      KeptNoHeaders(p, front, s);
    }
  }

  // ----- The sections of a changelog hold no header -----

  ghost predicate Clean(sections: Sections) {
    && Flat(sections.keys)
    && forall k, b :: k in sections.items && b in sections.items[k] ==> NoHeaders(b)
  }

  lemma LabelsAreFlat()
    ensures Flat(NOISE_LABELS)
  {
    assert OneLine(NOISE_LABELS[0]);
    assert OneLine(NOISE_LABELS[1]);
    assert OneLine(NOISE_LABELS[2]);
    assert OneLine(NOISE_LABELS[3]);
  }

  lemma NoiseLineNoHeaders(noiseLabel: string, count: nat)
    requires OneLine(noiseLabel)
    ensures NoHeaders(NoiseLine(noiseLabel, count))
  {
    var s := NoiseLine(noiseLabel, count);
    assert OneLine(Print(count));
    var tail := " occurrences)";
    assert OneLine(tail);
    assert OneLine("- ") && OneLine(" (consolidated across ");
    assert s[0] == '-';
    OneLineNoHeaders(s);
  }

  lemma {:induction false} NoiseNoHeaders(bullets: seq<Bullet>, n: nat, s: string)
    requires n <= |NOISE_LABELS|
    ensures forall t :: t in NoiseLines(bullets, n, s) ==> NoHeaders(t)
  {
    hide NoHeaders, NoiseCount, NoiseHost, NoiseLine;
    if n > 0 {
      NoiseNoHeaders(bullets, n - 1, s);
      LabelsAreFlat();
      NoiseLineNoHeaders(NOISE_LABELS[n - 1], NoiseCount(bullets, NOISE_LABELS[n - 1]));
    }
  }

  /** What the parser returns, as a function of the lines. */
  function ParsedSections(p: Patterns, lines: seq<string>): Sections {
    var names, bullets := SectionNames(p, lines, |lines|), Bullets(p, lines, |lines|);
    Sections(names, map s | s in Elems(names) :: Kept(p, bullets, s) + NoiseLines(bullets, |NOISE_LABELS|, s))
  }

  lemma ParsedIsUnique(p: Patterns, lines: seq<string>, r: Sections)
    requires Parsed(p, lines, r)
    ensures r == ParsedSections(p, lines)
  {
  }

  lemma ParsedIsValid(p: Patterns, lines: seq<string>)
    requires p.Valid()
    ensures ParsedSections(p, lines).Valid()
    ensures Elems(ParsedSections(p, lines).keys) <= ParsedSections(p, lines).items.Keys
  {
    BulletsAreSorted(p, lines, |lines|);
    hide Distinct, Kept, NoiseLines, Bullets, SectionNames;
  }

  lemma ParsedIsClean(p: Patterns, text: string)
    requires p.Valid()
    ensures Clean(ParsedSections(p, TextLines(text)))
  {
    var lines := TextLines(text);
    TextLinesAreFlat(text);
    BulletsNoHeaders(p, lines, |lines|);
    var sections := ParsedSections(p, lines);
    hide NoHeaders, Kept, NoiseLines, Bullets, SectionNames, TextLines, ItemsNoHeaders;
    forall k, b | k in sections.items && b in sections.items[k] ensures NoHeaders(b) {
      KeptNoHeaders(p, Bullets(p, lines, |lines|), k);
      NoiseNoHeaders(Bullets(p, lines, |lines|), |NOISE_LABELS|, k);
    }
  }

  ghost predicate Strips(m: Marker) {
    forall s :: m.rstrip(s) <= s
  }

  lemma MovedNoHeaders(m: Marker, b: string)
    requires Strips(m) && NoHeaders(b)
    ensures NoHeaders(m.Moved(b))
  {
    var t := if "- " <= b then b else "- " + b;
    if !("- " <= b) {
      forall i | 0 <= i <= |t| && (i == 0 || IsBreak(t[i - 1])) ensures !("## " <= t[i..]) {
        if i == 0 {
          assert t[0..][0] == '-';
        } else {
          assert i >= 3 && t[i - 1] == b[i - 3];
          assert t[i..] == b[i - 2..];
        }
      }
    }
    PrefixNoHeaders(t, m.Moved(b));
  }

  lemma {:induction false} MovedFromNoHeaders(m: Marker, bullets: seq<string>)
    requires Strips(m) && forall b :: b in bullets ==> NoHeaders(b)
    ensures forall b :: b in m.MovedFrom(bullets) || b in m.Untagged(bullets) ==> NoHeaders(b)
  {
    if bullets != [] {
      var front, b := bullets[..|bullets| - 1], bullets[|bullets| - 1];
      assert bullets == front + [b];
      assert forall x :: x in front ==> x in bullets;
      MovedFromNoHeaders(m, front);
      MovedNoHeaders(m, b);
      m.OneBullet(front, b);
      hide *;
    }
  }

  lemma {:induction false} AllBulletsNoHeaders(items: map<string, seq<string>>, keys: seq<string>)
    requires Elems(keys) <= items.Keys && forall k, b :: k in items && b in items[k] ==> NoHeaders(b)
    ensures forall b :: b in AllBullets(items, keys) ==> NoHeaders(b)
  {
    hide NoHeaders;
    if keys != [] {
      assert forall k :: k in keys[..|keys| - 1] ==> k in keys;
      AllBulletsNoHeaders(items, keys[..|keys| - 1]);
      assert keys[|keys| - 1] in Elems(keys);
    }
  }

  lemma {:induction false} OtherNamesAreFlat(keys: seq<string>)
    requires Flat(keys)
    ensures Flat(OtherNames(keys)) && Flat([BREAKING] + OtherNames(keys))
  {
    assert OneLine(BREAKING);
    forall k | k in OtherNames(keys) ensures k in keys {
      FilterMembers((k: string) => k != BREAKING, keys, k);
    }
  }

  lemma SplitIsClean(m: Marker, sections: Sections)
    requires sections.Valid() && Clean(sections) && Strips(m)
    ensures Elems(sections.keys) <= sections.items.Keys && Clean(Split(m, sections))
  {
    AllBulletsNoHeaders(sections.items, sections.keys);
    MovedFromNoHeaders(m, AllBullets(sections.items, sections.keys));
    OtherNamesAreFlat(sections.keys);
    var r := Split(m, sections);
    forall k, b | k in r.items && b in r.items[k] ensures NoHeaders(b) {
      if k in sections.items { MovedFromNoHeaders(m, sections.items[k]); }
      hide NoHeaders, Marker.MovedFrom, Marker.Untagged, AllBullets, Strips, OtherNames, Flat;
    }
  }

  /** No line of a rendered block but its first starts like a version header. */
  lemma {:induction false} BlocksNoHeaders(items: map<string, seq<string>>, order: seq<string>)
    requires Flat(order) && forall k, b :: k in items && b in items[k] ==> NoHeaders(b)
    ensures forall l :: l in Blocks(items, order) ==> NoHeaders(l)
  {
    if order != [] {
      var front, k := order[..|order| - 1], order[|order| - 1];
      assert k in order && forall x :: x in front ==> x in order;
      BlocksNoHeaders(items, front);
      OneLineNoHeaders("");
      assert "### " == "###" + " " && ("### " + k)[2] == '#';
      OneLineNoHeaders("### " + k);
      hide NoHeaders;
    }
  }

  lemma OrderIsFlat(sections: Sections)
    requires sections.Valid() && Clean(sections)
    ensures Flat(RenderOrder(sections))
  {
    WritesEverySection(sections);
  }

  // ----- The whole run -----

  predicate HasContent(sections: Sections) {
    exists k :: k in sections.keys && HasBullets(sections.items, k)
  }

  /** The block written for a changelog. */
  function BlockOf(isSpace: char -> bool, header: string, sections: Sections): string {
    FinishBlock(isSpace, [header, ""] + Blocks(sections.items, RenderOrder(sections)))
  }

  /** The sections that a changelog's block is made of. */
  function Collect(p: Patterns, m: Marker, text: string): Sections
    requires Elems(ParsedSections(p, TextLines(text)).keys) <= ParsedSections(p, TextLines(text)).items.Keys
  {
    Split(m, ParsedSections(p, TextLines(text)))
  }

  /** The changelog after the run. */
  ghost function Aggregated(p: Patterns, h: Headers, m: Marker, isSpace: char -> bool, header: string, text: string)
    : Result<string, InjectError>
    requires p.Valid()
  {
    ParsedIsValid(p, TextLines(text));
    if FirstIndex(h.isStable, TextLines(text)).Some? || !HasContent(Collect(p, m, text)) then Ok(text)
    else Inject(p, h, text, BlockOf(isSpace, header, Collect(p, m, text)))
  }

  method Aggregate(p: Patterns, h: Headers, m: Marker, isSpace: char -> bool, header: string, text: string)
    returns (r: Result<string, InjectError>)
    requires p.Valid()
    ensures r == Aggregated(p, h, m, isSpace, header, text)
  {
    hide *;
    AggregatedUnfolds(p, h, m, isSpace, header, text);
    var stable := FindLine(h.isStable, text);
    if stable.Some? {
      return Ok(text);
    }
    var sections := ParseExistingSections(p, TextLines(text));
    ParsedIsUnique(p, TextLines(text), sections);
    ParsedIsValid(p, TextLines(text));
    sections := SplitBreaking(m, sections);
    if !HasContent(sections) {
      return Ok(text);
    }
    CollectedIsValid(p, m, text);
    var out := RenderBlock(sections, header);
    r := InjectBlock(p, h, text, FinishBlock(isSpace, out));
  }

  /**
   The run leaves a text alone that has a stable header already, or nothing to write; otherwise it puts the block
   of the collected sections in.
   */
  lemma AggregatedExactly(p: Patterns, h: Headers, m: Marker, isSpace: char -> bool, header: string, text: string)
    requires p.Valid()
    ensures Elems(ParsedSections(p, TextLines(text)).keys) <= ParsedSections(p, TextLines(text)).items.Keys
    ensures var r, sections := Aggregated(p, h, m, isSpace, header, text), Split(m, ParsedSections(p, TextLines(text)));
            var done := exists l :: l in TextLines(text) && h.isStable(l);
            var empty := forall k :: k in sections.keys && k in sections.items ==> sections.items[k] == [];
            r == if done || empty then Ok(text)
                 else Inject(p, h, text, RStrip(isSpace, JoinLines([header, ""] + Blocks(sections.items, RenderOrder(sections)))) + "\n")
  {
    AggregatedUnfolds(p, h, m, isSpace, header, text);
    ContentExactly(Split(m, ParsedSections(p, TextLines(text))));
    FinishIs(isSpace, [header, ""] + Blocks(Collect(p, m, text).items, RenderOrder(Collect(p, m, text))));
    hide *;
    StableExactly(h.isStable, TextLines(text));
  }

  lemma ContentExactly(sections: Sections)
    ensures HasContent(sections) <==> !forall k :: k in sections.keys && k in sections.items ==> sections.items[k] == []
  {
  }

  lemma FinishIs(isSpace: char -> bool, out: seq<string>)
    ensures FinishBlock(isSpace, out) == RStrip(isSpace, JoinLines(out)) + "\n"
  {
  }

  lemma StableExactly(f: string -> bool, lines: seq<string>)
    ensures FirstIndex(f, lines).Some? <==> exists l :: l in lines && f(l)
  {
    if FirstIndex(f, lines).Some? { assert lines[FirstIndex(f, lines).value] in lines; }
  }

  lemma AggregatedUnfolds(p: Patterns, h: Headers, m: Marker, isSpace: char -> bool, header: string, text: string)
    requires p.Valid()
    ensures Elems(ParsedSections(p, TextLines(text)).keys) <= ParsedSections(p, TextLines(text)).items.Keys
    ensures Collect(p, m, text) == Split(m, ParsedSections(p, TextLines(text)))
    ensures Aggregated(p, h, m, isSpace, header, text) ==
            if FirstIndex(h.isStable, TextLines(text)).Some? || !HasContent(Collect(p, m, text)) then Ok(text)
            else Inject(p, h, text, BlockOf(isSpace, header, Collect(p, m, text)))
    ensures BlockOf(isSpace, header, Collect(p, m, text)) ==
            FinishBlock(isSpace, [header, ""] + Blocks(Collect(p, m, text).items, RenderOrder(Collect(p, m, text))))
  {
  }

  lemma CollectedIsValid(p: Patterns, m: Marker, text: string)
    requires p.Valid()
    ensures Elems(ParsedSections(p, TextLines(text)).keys) <= ParsedSections(p, TextLines(text)).items.Keys
    ensures Collect(p, m, text).Valid()
  {
    ParsedIsValid(p, TextLines(text));
    ValidFacts(m, ParsedSections(p, TextLines(text)));
  }

  /** A header that the stable expression matches, on one line, with no white space at its end. */
  ghost predicate IsHeader(h: Headers, isSpace: char -> bool, header: string) {
    h.isStable(header) && OneLine(header) && header != "" && !isSpace(header[|header| - 1])
  }

  /** What the run writes is a block: its header is the only version header in it. */
  lemma CollectedIsBlock(p: Patterns, h: Headers, m: Marker, isSpace: char -> bool, header: string, text: string)
    requires p.Valid() && h.Valid(p) && Strips(m) && IsHeader(h, isSpace, header)
    ensures Elems(ParsedSections(p, TextLines(text)).keys) <= ParsedSections(p, TextLines(text)).items.Keys
    ensures IsBlock(p, h, BlockOf(isSpace, header, Collect(p, m, text)))
  {
    hide Patterns.Valid, Headers.Valid, IsBlock, Blocks, RenderOrder, ParsedSections, Split, TextLines;
    hide Strips, Clean, Sections.Valid, FinishBlock, NoHeaders;
    var parsed := ParsedSections(p, TextLines(text));
    ParsedIsValid(p, TextLines(text));
    ParsedIsClean(p, text);
    CollectedIsValid(p, m, text);
    SplitIsClean(m, parsed);
    var sections := Collect(p, m, text);
    BlocksOfClean(sections);
    var rest := [""] + Blocks(sections.items, RenderOrder(sections));
    OneLineNoHeaders("");
    assert [header, ""] + Blocks(sections.items, RenderOrder(sections)) == [header] + rest;
    FinishedIsBlock(p, h, isSpace, header, rest);
  }

  lemma BlocksOfClean(sections: Sections)
    requires sections.Valid() && Clean(sections)
    ensures forall l :: l in Blocks(sections.items, RenderOrder(sections)) ==> NoHeaders(l)
  {
    OrderIsFlat(sections);
    BlocksNoHeaders(sections.items, RenderOrder(sections));
  }

  /** The run never stops with an error: a changelog without a place for the block has nothing to put in it. */
  lemma NeverFails(p: Patterns, h: Headers, m: Marker, isSpace: char -> bool, header: string, text: string)
    requires p.Valid()
    ensures Aggregated(p, h, m, isSpace, header, text).Ok?
  {
    var lines := TextLines(text);
    AggregatedUnfolds(p, h, m, isSpace, header, text);
    if Place(p, h, lines).None? {
      NothingRead(p, lines, lines);
      QuietLines(p, lines, 0, |lines|);
      NoSections(m, ParsedSections(p, lines));
    }
  }

  lemma NoSections(m: Marker, sections: Sections)
    requires sections.keys == []
    ensures Elems(sections.keys) <= sections.items.Keys && Split(m, sections).keys == []
  {
  }

  /** What the run leaves alone, when it changes the text at all. */
  ghost predicate Inserted(p: Patterns, h: Headers, text: string, result: string) {
    && (exists prefix, insertion, suffix :: text == prefix + suffix && result == prefix + insertion + suffix)
    && SameReading(p, TextLines(text), |TextLines(text)|, TextLines(result), |TextLines(result)|)
    && exists l :: l in TextLines(result) && h.isStable(l)
  }

  /** The run leaves the text as it was, or inserts one piece that the parser reads past. */
  lemma AggregatedIsInsertion(p: Patterns, h: Headers, m: Marker, isSpace: char -> bool, header: string, text: string)
    requires p.Valid() && h.Valid(p) && Strips(m) && IsHeader(h, isSpace, header)
    ensures var r := Aggregated(p, h, m, isSpace, header, text);
            && r.Ok?
            && (r.value == text || Inserted(p, h, text, r.value))
  {
    hide *;
    NeverFails(p, h, m, isSpace, header, text);
    AggregatedUnfolds(p, h, m, isSpace, header, text);
    CollectedIsBlock(p, h, m, isSpace, header, text);
    var block := BlockOf(isSpace, header, Collect(p, m, text));
    if Inject(p, h, text, block).Ok? {
      InjectionReadsTheSame(p, h, text, block);
      InjectionIsInsertion(p, h, text, block);
      InsertedUnfolds(p, h, text, Inject(p, h, text, block).value);
    }
  }

  lemma InsertedUnfolds(p: Patterns, h: Headers, text: string, result: string)
    requires exists prefix, insertion, suffix :: text == prefix + suffix && result == prefix + insertion + suffix
    requires SameReading(p, TextLines(text), |TextLines(text)|, TextLines(result), |TextLines(result)|)
    requires exists l :: l in TextLines(result) && h.isStable(l)
    ensures Inserted(p, h, text, result)
  {
  }

  lemma InjectionIsInsertion(p: Patterns, h: Headers, text: string, block: string)
    requires Inject(p, h, text, block).Ok?
    ensures exists prefix, insertion, suffix ::
      text == prefix + suffix && Inject(p, h, text, block).value == prefix + insertion + suffix
  {
    hide KeepLines, Chomp, Insertion, Concat, Place;
    var (at, underHeading) := Place(p, h, TextLines(text)).value;
    InjectionPreservesText(text, at);
    var (prefix, suffix) := Parts(text, at);
    assert Inject(p, h, text, block).value == prefix + Insertion(prefix, underHeading, block) + suffix;
  }

  /** A second run, with any header, changes nothing. */
  lemma SecondRunChangesNothing(p: Patterns, h: Headers, m: Marker, isSpace: char -> bool, header: string, text: string, again: string)
    requires p.Valid() && h.Valid(p) && Strips(m) && IsHeader(h, isSpace, header)
    ensures var r := Aggregated(p, h, m, isSpace, header, text);
            r.Ok? && Aggregated(p, h, m, isSpace, again, r.value) == r
  {
    hide *;
    AggregatedIsInsertion(p, h, m, isSpace, header, text);
    AggregatedUnfolds(p, h, m, isSpace, header, text);
    var t := Aggregated(p, h, m, isSpace, header, text).value;
    AggregatedUnfolds(p, h, m, isSpace, again, t);
    if t != text {
      StableFound(p, h, text, t);
    } else {
      CollectedIsBlock(p, h, m, isSpace, header, text);
      InjectionChanges(p, h, text, BlockOf(isSpace, header, Collect(p, m, text)));
    }
  }

  /** An injection that is not refused changes the text. */
  lemma InjectionChanges(p: Patterns, h: Headers, text: string, block: string)
    requires p.Valid() && h.Valid(p) && IsBlock(p, h, block)
    ensures Inject(p, h, text, block).Err? || Inject(p, h, text, block).value != text
    ensures FirstIndex(h.isStable, TextLines(text)).Some? ==> Inject(p, h, text, block).Err?
  {
    if Inject(p, h, text, block).Ok? {
      InjectionReadsTheSame(p, h, text, block);
      StableNotBefore(p, h, text, block);
      var l :| l in TextLines(Inject(p, h, text, block).value) && h.isStable(l);
      hide *;
      assert l !in TextLines(text);
    }
  }

  lemma StableNotBefore(p: Patterns, h: Headers, text: string, block: string)
    requires Inject(p, h, text, block).Ok?
    ensures forall l :: l in TextLines(text) ==> !h.isStable(l)
  {
  }

  lemma StableFound(p: Patterns, h: Headers, text: string, result: string)
    requires Inserted(p, h, text, result)
    ensures FirstIndex(h.isStable, TextLines(result)).Some?
  {
  }

  /**
   The bullets of the written block are those the parser collected, the tagged ones as they stand under
   their heading, exactly when nothing is tagged or that heading held no untagged bullet before.
   */
  lemma WrittenBullets(p: Patterns, m: Marker, text: string)
    requires p.Valid()
    ensures var parsed := ParsedSections(p, TextLines(text));
            && Elems(parsed.keys) <= parsed.items.Keys
            && var r := Collect(p, m, text);
            && Elems(RenderOrder(r)) <= r.items.Keys
            && (multiset(AllBullets(r.items, RenderOrder(r))) == multiset(MarkAll(m, AllBullets(parsed.items, parsed.keys))) <==>
                || m.MovedFrom(AllBullets(parsed.items, parsed.keys)) == []
                || BREAKING !in parsed.keys
                || m.Untagged(parsed.items[BREAKING]) == [])
  {
    hide ParsedSections, Split, RenderOrder, TextLines, AllBullets, MarkAll, Marker.MovedFrom, Marker.Untagged;
    ParsedIsValid(p, TextLines(text));
    SplitConserves(m, ParsedSections(p, TextLines(text)));
    WritesEveryBullet(Collect(p, m, text));
  }
}
