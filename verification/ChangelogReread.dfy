/** What a rendered block says when the parser reads it again. */
module ChangelogReread {
  import opened Wrappers
  import opened Sequences
  import opened Decimal
  import opened Changelog
  import opened ChangelogBlock
  import opened ChangelogRender
  import opened ChangelogInject
  import opened ChangelogAggregate
  import opened ChangelogRoundTrip

  // ----- The final strip -----

  function TotalLen(lines: seq<string>): nat {
    if lines == [] then 0 else |lines[0]| + 1 + TotalLen(lines[1..])
  }

  /** A text whose last line is ended has one character more for each line than its lines have. */
  lemma {:induction false} TotalOfText(s: string)
    requires Ended(s)
    ensures TotalLen(TextLines(s)) == |s|
    decreases |s|
  {
    hide *;
    NothingTotal();
    NoLines();
    if s != "" {
      var n := FirstLen(s);
      TextLinesCons(s);
      FirstEnded(s);
      EndedTail(s, n);
      TotalOfText(s[n..]);
      TotalCons(Chomp(s[..n]), TextLines(s[n..]));
    }
  }

  lemma NothingTotal()
    ensures TotalLen([]) == 0
  {
  }

  lemma TotalCons(l: string, lines: seq<string>)
    ensures TotalLen([l] + lines) == |l| + 1 + TotalLen(lines)
  {
  }

  lemma FirstEnded(s: string)
    requires s != "" && Ended(s)
    ensures |Chomp(s[..FirstLen(s)])| == FirstLen(s) - 1
  {
  }

  lemma StripsOnly(isSpace: char -> bool, s: string)
    requires s != "" && isSpace('\n')
    ensures if isSpace(s[|s| - 1]) then |RStrip(isSpace, s + NL)| < |s| else RStrip(isSpace, s + NL) == s
  {
    var t := s + NL;
    var r := RStrip(isSpace, t);
    assert t[|s|] == '\n' && t[|s| - 1] == s[|s| - 1];
    if !isSpace(s[|s| - 1]) { assert |r| == |s| && r == t[..|s|]; }
  }

  /** A written block as lines: its pieces' lines exactly when the last of them does not end in white space. */
  lemma BlockAsLines(isSpace: char -> bool, pieces: seq<string>)
    requires pieces != [] && pieces[|pieces| - 1] != "" && isSpace('\n')
    ensures var last := pieces[|pieces| - 1];
            TextLines(FinishBlock(isSpace, pieces + [""])) == SplitAll(pieces) <==> !isSpace(last[|last| - 1])
  {
    hide *;
    var last, s := pieces[|pieces| - 1], JoinLines(pieces);
    JoinEnds(pieces);
    BlankLast(isSpace, pieces);
    StripsOnly(isSpace, s);
    JoinedPieces(pieces);
    var r := RStrip(isSpace, s + NL);
    EndsInFeed(s);
    EndsInFeed(r);
    TotalOfText(s + NL);
    TotalOfText(r + NL);
  }

  lemma BlankLast(isSpace: char -> bool, pieces: seq<string>)
    requires pieces != []
    ensures FinishBlock(isSpace, pieces + [""]) == RStrip(isSpace, JoinLines(pieces) + NL) + NL
  {
    assert (pieces + [""])[..|pieces|] == pieces;
    assert JoinLines(pieces) + NL + "" == JoinLines(pieces) + NL;
  }

  lemma JoinEnds(pieces: seq<string>)
    requires pieces != [] && pieces[|pieces| - 1] != ""
    ensures var s, last := JoinLines(pieces), pieces[|pieces| - 1]; s != "" && s[|s| - 1] == last[|last| - 1]
  {
  }

  // ----- The block, read under a prerelease header -----

  /** The bullet that is written last. */
  function LastBullet(items: map<string, seq<string>>, order: seq<string>): string {
    if order == [] || order[|order| - 1] !in items || items[order[|order| - 1]] == [] then ""
    else
      var bullets := items[order[|order| - 1]];
      bullets[|bullets| - 1]
  }

  /** The block's lines with a prerelease header for the stable one. */
  function Reheaded(isSpace: char -> bool, v: string, header: string, items: map<string, seq<string>>, order: seq<string>): seq<string> {
    var lines := TextLines(FinishBlock(isSpace, [header, ""] + Blocks(items, order)));
    if lines == [] then [v] else [v] + lines[1..]
  }

  /** Every written bullet is read back, in order, in its section. */
  lemma ReadsBack(p: Patterns, isSpace: char -> bool, v: string, header: string, items: map<string, seq<string>>, order: seq<string>)
    requires p.Valid() && p.isVersionHeader(v) && OneLine(header) && isSpace('\n')
    requires Readable(p, items, order) && Distinct(order) && order != []
    requires var b := LastBullet(items, order); b != "" && !isSpace(b[|b| - 1])
    ensures var lines := Reheaded(isSpace, v, header, items, order);
            Bullets(p, lines, |lines|) == Written(p, items, order) && SectionNames(p, lines, |lines|) == order
  {
    hide *;
    LastIs(items, order);
    var front, k := order[..|order| - 1], order[|order| - 1];
    assert order == front + [k];
    var bs := items[k];
    var head := ["### " + k, ""] + bs;
    var pieces := [header, ""] + Blocks(items, front) + head;
    ReadableFront(p, items, order);
    DistinctStep(front, k);
    BlocksUnfold(p, items, order);
    SectionBlockIs(k, bs);
    assert [header, ""] + Blocks(items, order) == pieces + [""];
    assert pieces[|pieces| - 1] == bs[|bs| - 1];
    BlockAsLines(isSpace, pieces);
    PiecesLines(header, Blocks(items, front), head);
    ReheadedIs(isSpace, v, header, items, order);
    var lines := Reheaded(isSpace, v, header, items, order);
    var a := [v] + [""];
    assert lines == a + SplitAll(Blocks(items, front)) + SplitAll(head) by {
      assert SplitAll(pieces) == [header] + ([""] + SplitAll(Blocks(items, front)) + SplitAll(head));
    }
    ReadStart(p, v);
    ReadBlank(p, [v], None, [], []);
    ReadBlocks(p, a, items, front);
    var section :| Reads(p, a + SplitAll(Blocks(items, front)), section, Written(p, items, front), front);
    ReadSection(p, a + SplitAll(Blocks(items, front)), section, Written(p, items, front), front, k, bs);
    ReadsUnfolds(p, lines, Some(k), Written(p, items, order), order);
  }

  lemma LastIs(items: map<string, seq<string>>, order: seq<string>)
    requires order != [] && LastBullet(items, order) != ""
    ensures order[|order| - 1] in items && items[order[|order| - 1]] != []
    ensures var bullets := items[order[|order| - 1]]; LastBullet(items, order) == bullets[|bullets| - 1]
  {
  }

  lemma ReheadedIs(isSpace: char -> bool, v: string, header: string, items: map<string, seq<string>>, order: seq<string>)
    ensures var lines := TextLines(FinishBlock(isSpace, [header, ""] + Blocks(items, order)));
            Reheaded(isSpace, v, header, items, order) == if lines == [] then [v] else [v] + lines[1..]
  {
  }

  lemma PiecesLines(header: string, blocks: seq<string>, head: seq<string>)
    requires OneLine(header)
    ensures SplitAll([header, ""] + blocks + head) == [header] + ([""] + SplitAll(blocks) + SplitAll(head))
  {
    hide *;
    BlankIsOneLine();
    LineOf(header);
    LineOf("");
    SplitAllStep([], header);
    SplitAllStep([header], "");
    assert [] + [header] == [header] && [header] + [""] == [header, ""];
    SplitAllConcat([header, ""], blocks);
    SplitAllConcat([header, ""] + blocks, head);
  }

  lemma BlankIsOneLine()
    ensures OneLine("")
  {
  }

  lemma ReadStart(p: Patterns, v: string)
    requires p.Valid() && p.isVersionHeader(v)
    ensures Reads(p, [v], None, [], [])
  {
    LineStep(p, [v], 0);
    assert Bullets(p, [v], 0) == [] && SectionNames(p, [v], 0) == [];
    hide *;
    ReadsUnfolds(p, [v], None, [], []);
  }

  // ----- What a parsed changelog writes -----

  /**
   The expressions take the names and the counter lines that the script itself writes for what they are:
   a subsection's name names it again, and a counter line is noise of its own label.
   */
  ghost predicate TakesOwn(p: Patterns) {
    && (forall l :: p.subsection(l).Some? ==>
          p.subsection(l).value != "" && p.subsection("### " + p.subsection(l).value) == p.subsection(l))
    && (forall l, c :: l in NOISE_LABELS ==> !p.isSkipped(NoiseLine(l, c)) && p.noise(NoiseLine(l, c)) == Some(l))
  }

  /** A bullet that the parser takes for an item. */
  ghost predicate IsPlain(p: Patterns, b: string) {
    IsBulletText(b) && KindOf(p, b) == Item(b)
  }

  lemma {:induction false} SplitAllFlat(lines: seq<string>)
    requires Flat(lines)
    ensures SplitAll(lines) == lines
  {
    if lines != [] {
      var front, last := lines[..|lines| - 1], lines[|lines| - 1];
      assert lines == front + [last] && last in lines && forall l :: l in front ==> l in lines;
      LineOf(last);
      SplitAllFlat(front);
      hide LinesOf;
    }
  }

  lemma ItemIsPlain(p: Patterns, lines: seq<string>, i: nat)
    requires Flat(lines) && i < |lines| && IsBullet(p, lines, i) && BulletAt(p, lines, i).kind.Item?
    ensures IsPlain(p, BulletAt(p, lines, i).kind.text)
  {
    var j := BulletEnd(lines, i + 1);
    var g := lines[i..j];
    assert BulletAt(p, lines, i).kind == Item(JoinLines(g));
    assert "- " <= g[0] && forall k :: 0 < k < |g| ==> IsContinuation(g[k]);
    assert g[0] == lines[i] && forall l :: l in g ==> l in lines;
    var b := JoinLines(g);
    assert LinesOf(b) == g by {
      hide *;
      SliceFlat(lines, g);
      SplitAllFlat(g);
      JoinedPieces(g);
      LinesOfIs(b);
    }
    hide LinesOf, JoinLines, BulletEnd, SectionAt;
  }

  lemma SliceFlat(lines: seq<string>, g: seq<string>)
    requires Flat(lines) && forall l :: l in g ==> l in lines
    ensures Flat(g)
  {
  }

  ghost predicate PlainItems(p: Patterns, bullets: seq<Bullet>) {
    forall b :: b in bullets && b.kind.Item? ==> IsPlain(p, b.kind.text)
  }

  lemma {:induction false} BulletsArePlain(p: Patterns, lines: seq<string>, i: nat)
    requires p.Valid() && TakesOwn(p) && Flat(lines) && i <= |lines|
    ensures PlainItems(p, Bullets(p, lines, i))
    ensures forall k :: k in SectionNames(p, lines, i) ==> IsName(p, k)
  {
    hide IsPlain, BulletEnd, SectionAt, InTarget, JoinLines;
    if i > 0 {
      BulletsArePlain(p, lines, i - 1);
      if IsBullet(p, lines, i - 1) && BulletAt(p, lines, i - 1).kind.Item? { ItemIsPlain(p, lines, i - 1); }
    }
  }

  lemma {:induction false} KeptArePlain(p: Patterns, bullets: seq<Bullet>, k: string)
    requires PlainItems(p, bullets)
    ensures forall b :: b in Kept(p, bullets, k) ==> IsPlain(p, b)
  {
    hide IsPlain, Seen;
    if bullets != [] {
      var front, b := bullets[..|bullets| - 1], bullets[|bullets| - 1];
      assert b in bullets && forall x :: x in front ==> x in bullets;
      KeptArePlain(p, front, k);
    }
  }

  lemma CounterIsBullet(p: Patterns, l: string, c: nat)
    requires TakesOwn(p) && l in NOISE_LABELS
    ensures IsBulletText(NoiseLine(l, c)) && KindOf(p, NoiseLine(l, c)) == Noise(l)
  {
    LabelsAreFlat();
    NoiseLineIsFlat(l, c);
    LineOf(NoiseLine(l, c));
    hide LinesOf, OneLine;
  }

  lemma NoiseLineIsFlat(l: string, c: nat)
    requires OneLine(l)
    ensures OneLine(NoiseLine(l, c)) && "- " <= NoiseLine(l, c)
  {
    assert OneLine(Print(c));
    var tail := " occurrences)";
    assert OneLine(tail) && OneLine("- ") && OneLine(" (consolidated across ");
  }

  // ----- Reading the sections of a changelog again -----

  lemma AsReadConcat(p: Patterns, k: string, a: seq<string>, b: seq<string>)
    ensures AsRead(p, k, a + b) == AsRead(p, k, a) + AsRead(p, k, b)
  {
    MapConcat((b: string) => Bullet(k, KindOf(p, b)), a, b);
  }

  lemma NoiseConcat(a: seq<Bullet>, b: seq<Bullet>, l: string)
    ensures NoiseBullets(a + b, l) == NoiseBullets(a, l) + NoiseBullets(b, l)
  {
    FilterConcat((b: Bullet) => b.kind == Noise(l), a, b);
  }

  lemma NoiseOne(b: Bullet, l: string)
    ensures NoiseBullets([b], l) == if b.kind == Noise(l) then [b] else []
    ensures NoiseBullets([], l) == []
  {
    FilterStep((b: Bullet) => b.kind == Noise(l), [], b);
    assert [] + [b] == [b];
  }

  lemma {:induction false} PlainIsNoNoise(p: Patterns, k: string, bs: seq<string>, l: string)
    requires forall b :: b in bs ==> IsPlain(p, b)
    ensures NoiseBullets(AsRead(p, k, bs), l) == []
  {
    hide IsBulletText, KindOf, AsRead, NoiseBullets;
    if bs == [] {
      AsReadStep(p, k, [], "");
      NoiseOne(Bullet("", Skipped), l);
    } else {
      var front, b := bs[..|bs| - 1], bs[|bs| - 1];
      assert bs == front + [b] && b in bs && forall x :: x in front ==> x in bs;
      PlainIsNoNoise(p, k, front, l);
      AsReadStep(p, k, front, b);
      NoiseConcat(AsRead(p, k, front), [Bullet(k, KindOf(p, b))], l);
      NoiseOne(Bullet(k, KindOf(p, b)), l);
    }
  }

  /** Whether section `k` holds the counter of label `l`. */
  predicate Hosts(bullets: seq<Bullet>, k: string, l: string) {
    NoiseCount(bullets, l) > 0 && NoiseHost(bullets, l) == k
  }

  lemma NoiseLinesStep(bullets: seq<Bullet>, n: nat, k: string)
    requires n < |NOISE_LABELS|
    ensures var l := NOISE_LABELS[n];
            NoiseLines(bullets, n + 1, k) ==
            NoiseLines(bullets, n, k) + if Hosts(bullets, k, l) then [NoiseLine(l, NoiseCount(bullets, l))] else []
    ensures NoiseLines(bullets, 0, k) == []
  {
    hide NoiseCount, NoiseHost, NoiseLine;
  }

  /** A counter is read back as one noise bullet, whatever its count. */
  lemma {:induction false} CountersAreRead(p: Patterns, bullets: seq<Bullet>, k: string, l: string, n: nat)
    requires TakesOwn(p) && n <= |NOISE_LABELS| && l in NOISE_LABELS
    ensures NoiseBullets(AsRead(p, k, NoiseLines(bullets, n, k)), l) ==
            if l in NOISE_LABELS[..n] && Hosts(bullets, k, l) then [Bullet(k, Noise(l))] else []
    ensures forall b :: b in AsRead(p, k, NoiseLines(bullets, n, k)) ==> b.kind.Noise?
    ensures forall b :: b in NoiseLines(bullets, n, k) ==> IsBulletText(b)
  {
    hide *;
    if n == 0 {
      NoiseLinesStep(bullets, 0, k);
      AsReadStep(p, k, [], "");
      NoiseOne(Bullet("", Skipped), l);
    } else {
      var m := NOISE_LABELS[n - 1];
      var c := NoiseCount(bullets, m);
      var earlier := NoiseLines(bullets, n - 1, k);
      NoiseLinesStep(bullets, n - 1, k);
      CountersAreRead(p, bullets, k, l, n - 1);
      CounterIsBullet(p, m, c);
      AsReadStep(p, k, earlier, NoiseLine(m, c));
      NoiseConcat(AsRead(p, k, earlier), [Bullet(k, Noise(m))], l);
      NoiseOne(Bullet(k, Noise(m)), l);
      LabelsAreDistinct();
      OneMore(NOISE_LABELS, n - 1);
      assert earlier + [] == earlier;
    }
  }

  lemma OneMore(s: seq<string>, n: nat)
    requires n < |s| && Distinct(s)
    ensures s[..n + 1] == s[..n] + [s[n]] && s[n] !in s[..n]
  {
  }

  lemma CountersAreNoise(p: Patterns, bullets: seq<Bullet>, k: string)
    requires TakesOwn(p)
    ensures forall b :: b in AsRead(p, k, NoiseLines(bullets, |NOISE_LABELS|, k)) ==> b.kind.Noise?
    ensures forall b :: b in NoiseLines(bullets, |NOISE_LABELS|, k) ==> IsBulletText(b)
  {
    CountersAreRead(p, bullets, k, NOISE_LABELS[0], |NOISE_LABELS|);
  }

  /** The sections of a parsed changelog: plain items, then counters. */
  ghost predicate Holds(p: Patterns, bullets: seq<Bullet>, items: map<string, seq<string>>, k: string) {
    && k in items && items[k] == Kept(p, bullets, k) + NoiseLines(bullets, |NOISE_LABELS|, k)
    && IsName(p, k)
  }

  ghost predicate HoldAll(p: Patterns, bullets: seq<Bullet>, items: map<string, seq<string>>, order: seq<string>) {
    && PlainItems(p, bullets) && TakesOwn(p)
    && forall k :: k in order ==> Holds(p, bullets, items, k)
  }

  lemma HoldFront(p: Patterns, bullets: seq<Bullet>, items: map<string, seq<string>>, order: seq<string>)
    requires HoldAll(p, bullets, items, order) && order != []
    ensures var k := order[|order| - 1];
            k in items && items[k] == Kept(p, bullets, k) + NoiseLines(bullets, |NOISE_LABELS|, k) && IsName(p, k)
    ensures HoldAll(p, bullets, items, order[..|order| - 1]) && TakesOwn(p) && PlainItems(p, bullets)
  {
    hide PlainItems, TakesOwn, IsName, Kept, NoiseLines;
    var k := order[|order| - 1];
    assert k in order && Holds(p, bullets, items, k);
  }

  lemma HoldAllIsReadable(p: Patterns, bullets: seq<Bullet>, items: map<string, seq<string>>, order: seq<string>)
    requires HoldAll(p, bullets, items, order)
    ensures Readable(p, items, order)
  {
    hide IsName, TakesOwn, Kept, NoiseLines, PlainItems, KindOf, IsBulletText;
    forall k | k in order ensures k in items && IsName(p, k) && forall b :: b in items[k] ==> IsBulletText(b) {
      KeptArePlain(p, bullets, k);
      CountersAreNoise(p, bullets, k);
      assert forall b :: b in items[k] ==> b in Kept(p, bullets, k) || b in NoiseLines(bullets, |NOISE_LABELS|, k);
    }
  }

  lemma {:induction false} WrittenNoise(p: Patterns, bullets: seq<Bullet>, items: map<string, seq<string>>, order: seq<string>, l: string)
    requires HoldAll(p, bullets, items, order) && Distinct(order) && l in NOISE_LABELS
    ensures NoiseBullets(Written(p, items, order), l) ==
            if NoiseCount(bullets, l) > 0 && NoiseHost(bullets, l) in order then [Bullet(NoiseHost(bullets, l), Noise(l))] else []
    decreases |order|
  {
    hide *;
    BlocksUnfold(p, items, order);
    NoiseOne(Bullet("", Skipped), l);
    if order != [] {
      var front, k := order[..|order| - 1], order[|order| - 1];
      assert order == front + [k];
      DistinctStep(front, k);
      HoldFront(p, bullets, items, order);
      WrittenNoise(p, bullets, items, front, l);
      KeptArePlain(p, bullets, k);
      var kept, counters := Kept(p, bullets, k), NoiseLines(bullets, |NOISE_LABELS|, k);
      PlainIsNoNoise(p, k, kept, l);
      CountersAreRead(p, bullets, k, l, |NOISE_LABELS|);
      assert NOISE_LABELS[..|NOISE_LABELS|] == NOISE_LABELS;
      AsReadConcat(p, k, kept, counters);
      NoiseConcat(AsRead(p, k, kept), AsRead(p, k, counters), l);
      NoiseConcat(Written(p, items, front), AsRead(p, k, items[k]), l);
      HostsIs(bullets, k, l);
    }
  }

  lemma HostsIs(bullets: seq<Bullet>, k: string, l: string)
    ensures Hosts(bullets, k, l) <==> NoiseCount(bullets, l) > 0 && NoiseHost(bullets, l) == k
  {
  }

  /** Bullets of other sections, and bullets that are no items, keep nothing in this one. */
  lemma {:induction false} KeepsNothingMore(p: Patterns, w: seq<Bullet>, more: seq<Bullet>, k: string)
    requires forall b :: b in more ==> b.section != k || !b.kind.Item?
    ensures Kept(p, w + more, k) == Kept(p, w, k) && Seen(p, w + more, k) == Seen(p, w, k)
    decreases |more|
  {
    hide *;
    if more == [] {
      assert w + more == w;
    } else {
      var front, b := more[..|more| - 1], more[|more| - 1];
      assert b in more && forall x :: x in front ==> x in more;
      KeepsNothingMore(p, w, front, k);
      assert w + more == (w + front) + [b];
      KeptStep(p, w + front, b, k);
      SeenStep(p, w + front, b, k);
      KeptNeedsItem(p, w + front, b);
      assert Kept(p, w + front, k) + [] == Kept(p, w + front, k);
    }
  }

  lemma KeptNeedsItem(p: Patterns, w: seq<Bullet>, b: Bullet)
    ensures IsKept(p, w, b) <==> b.kind.Item? && p.normalize(b.kind.text) !in Seen(p, w, b.section)
  {
  }

  /** Into a section that has none yet, plain bullets with distinct normal forms are all kept. */
  lemma {:induction false} KeepsAll(p: Patterns, w: seq<Bullet>, k: string, bs: seq<string>)
    requires Kept(p, w, k) == [] && Seen(p, w, k) == {}
    requires (forall b :: b in bs ==> IsPlain(p, b)) && Distinct(Map(p.normalize, bs))
    ensures Kept(p, w + AsRead(p, k, bs), k) == bs
    ensures Seen(p, w + AsRead(p, k, bs), k) == Elems(Map(p.normalize, bs))
    decreases |bs|
  {
    hide *;
    if bs == [] {
      AsReadStep(p, k, [], "");
      NothingMapped(p);
      assert w + [] == w;
    } else {
      var front, b := bs[..|bs| - 1], bs[|bs| - 1];
      assert bs == front + [b] && b in bs && forall x :: x in front ==> x in bs;
      MapStep(p.normalize, front, b);
      DistinctStep(Map(p.normalize, front), p.normalize(b));
      ElemsStep(Map(p.normalize, front), p.normalize(b));
      InAll(Map(p.normalize, front), p.normalize(b));
      KeepsAll(p, w, k, front);
      AsReadStep(p, k, front, b);
      PlainKind(p, b);
      var before, item := w + AsRead(p, k, front), Bullet(k, Item(b));
      assert w + AsRead(p, k, bs) == before + [item];
      KeptStep(p, before, item, k);
      SeenStep(p, before, item, k);
      KeptNeedsItem(p, before, item);
    }
  }

  lemma NothingMapped(p: Patterns)
    ensures Elems(Map(p.normalize, [])) == {}
  {
  }

  lemma InAll(s: seq<string>, x: string)
    ensures x in Elems(s) <==> x in s
  {
  }

  lemma PlainKind(p: Patterns, b: string)
    requires IsPlain(p, b)
    ensures KindOf(p, b) == Item(b) && IsBulletText(b)
  {
  }

  lemma SectionOfRead(p: Patterns, k: string, bs: seq<string>)
    ensures forall b :: b in AsRead(p, k, bs) ==> b.section == k
  {
  }

  /** Every section keeps again exactly what it kept. */
  lemma {:induction false} WrittenKept(p: Patterns, bullets: seq<Bullet>, items: map<string, seq<string>>, order: seq<string>, k: string)
    requires HoldAll(p, bullets, items, order) && Distinct(order)
    ensures Kept(p, Written(p, items, order), k) == if k in order then Kept(p, bullets, k) else []
    ensures k !in order ==> Seen(p, Written(p, items, order), k) == {}
    decreases |order|
  {
    hide *;
    BlocksUnfold(p, items, order);
    if order == [] {
      NothingKept(p, [], k);
    } else {
      var front, last := order[..|order| - 1], order[|order| - 1];
      assert order == front + [last];
      DistinctStep(front, last);
      HoldFront(p, bullets, items, order);
      WrittenKept(p, bullets, items, front, k);
      var w := Written(p, items, front);
      SectionOfRead(p, last, items[last]);
      if k != last {
        KeepsNothingMore(p, w, AsRead(p, last, items[last]), k);
      } else {
        var kept, counters := Kept(p, bullets, k), NoiseLines(bullets, |NOISE_LABELS|, k);
        KeptArePlain(p, bullets, k);
        KeptAreDistinct(p, bullets, k);
        KeepsAll(p, w, k, kept);
        CountersAreNoise(p, bullets, k);
        AsReadConcat(p, k, kept, counters);
        KeepsNothingMore(p, w + AsRead(p, k, kept), AsRead(p, k, counters), k);
        assert w + AsRead(p, k, items[k]) == w + AsRead(p, k, kept) + AsRead(p, k, counters);
      }
    }
  }

  // ----- The round trip -----

  lemma PrintIsInjective(a: nat, b: nat)
    requires Print(a) == Print(b)
    ensures a == b
  {
    ValueOfPrint(a);
    ValueOfPrint(b);
  }

  lemma SameCounter(l: string, a: nat, b: nat)
    ensures NoiseLine(l, a) == NoiseLine(l, b) <==> a == b
  {
    hide Print;
    if NoiseLine(l, a) == NoiseLine(l, b) {
      var head, tail := "- " + l + " (consolidated across ", " occurrences)";
      assert NoiseLine(l, a) == head + Print(a) + tail && NoiseLine(l, b) == head + Print(b) + tail;
      Middle(head, Print(a), Print(b), tail);
      PrintIsInjective(a, b);
    }
  }

  lemma Middle(head: string, a: string, b: string, tail: string)
    requires head + a + tail == head + b + tail
    ensures a == b
  {
    assert |head + a + tail| == |head| + |a| + |tail| && |head + b + tail| == |head| + |b| + |tail|;
    assert a == (head + a + tail)[|head|..|head| + |a|] && b == (head + b + tail)[|head|..|head| + |b|];
  }

  lemma OneLonger(x: seq<string>, c: string, y: seq<string>, d: string)
    requires |x| == |y|
    ensures x + [c] == y + [d] <==> x == y && c == d
  {
    if x + [c] == y + [d] {
      assert (x + [c])[|x|] == (y + [d])[|y|] && (x + [c])[..|x|] == (y + [d])[..|y|];
    }
  }

  /** The same counters in the same place: the lines are equal exactly when the counts are. */
  lemma {:induction false} SameCounters(a: seq<Bullet>, b: seq<Bullet>, k: string, n: nat)
    requires n <= |NOISE_LABELS| && forall l :: l in NOISE_LABELS ==> (Hosts(a, k, l) <==> Hosts(b, k, l))
    ensures |NoiseLines(a, n, k)| == |NoiseLines(b, n, k)|
    ensures NoiseLines(a, n, k) == NoiseLines(b, n, k) <==>
            forall l :: l in NOISE_LABELS[..n] && Hosts(a, k, l) ==> NoiseCount(a, l) == NoiseCount(b, l)
  {
    hide NoiseLines, Hosts, NoiseCount, NoiseLine;
    if n == 0 {
      NoiseLinesStep(a, 0, k);
      NoiseLinesStep(b, 0, k);
    } else {
      var l := NOISE_LABELS[n - 1];
      SameCounters(a, b, k, n - 1);
      NoiseLinesStep(a, n - 1, k);
      NoiseLinesStep(b, n - 1, k);
      SameCounter(l, NoiseCount(a, l), NoiseCount(b, l));
      var x, y := NoiseLines(a, n - 1, k), NoiseLines(b, n - 1, k);
      var c, d := NoiseLine(l, NoiseCount(a, l)), NoiseLine(l, NoiseCount(b, l));
      OneLonger(x, c, y, d);
      assert x + [] == x && y + [] == y;
      assert NOISE_LABELS[..n] == NOISE_LABELS[..n - 1] + [l];
      assert forall m :: m in NOISE_LABELS[..n] <==> m == l || m in NOISE_LABELS[..n - 1];
    }
  }

  lemma {:induction false} HostedLines(bullets: seq<Bullet>, k: string, l: string, n: nat)
    requires n <= |NOISE_LABELS| && l in NOISE_LABELS[..n] && Hosts(bullets, k, l)
    ensures NoiseLines(bullets, n, k) != []
  {
    hide NoiseLines, Hosts, NoiseLine;
    NoiseLinesStep(bullets, n - 1, k);
    if l != NOISE_LABELS[n - 1] {
      assert NOISE_LABELS[..n] == NOISE_LABELS[..n - 1] + [NOISE_LABELS[n - 1]];
      HostedLines(bullets, k, l, n - 1);
    }
  }

  /** The section of a counter is written. */
  lemma HostIsWritten(p: Patterns, lines: seq<string>, l: string)
    requires p.Valid() && l in NOISE_LABELS && NoiseCount(Bullets(p, lines, |lines|), l) > 0
    ensures NoiseHost(Bullets(p, lines, |lines|), l) in RenderOrder(ParsedSections(p, lines))
  {
    var bullets := Bullets(p, lines, |lines|);
    var host := NoiseHost(bullets, l);
    BulletsAreSorted(p, lines, |lines|);
    FilterMembers((b: Bullet) => b.kind == Noise(l), bullets, NoiseBullets(bullets, l)[0]);
    assert NOISE_LABELS[..|NOISE_LABELS|] == NOISE_LABELS;
    HostsIs(bullets, host, l);
    HostedLines(bullets, host, l, |NOISE_LABELS|);
    ParsedIsValid(p, lines);
    WritesEverySection(ParsedSections(p, lines));
    hide Kept, NoiseLines, Bullets, SectionNames, NoiseCount, NoiseHost, RenderOrder, Distinct;
  }

  lemma ParsedHolds(p: Patterns, text: string)
    requires p.Valid() && TakesOwn(p)
    ensures var lines := TextLines(text);
            var s := ParsedSections(p, lines);
            HoldAll(p, Bullets(p, lines, |lines|), s.items, RenderOrder(s)) && Distinct(RenderOrder(s))
    ensures var s := ParsedSections(p, TextLines(text));
            forall k :: k in RenderOrder(s) ==> k in s.items && s.items[k] != []
  {
    var lines := TextLines(text);
    var s := ParsedSections(p, lines);
    TextLinesAreFlat(text);
    BulletsArePlain(p, lines, |lines|);
    ParsedIsValid(p, lines);
    WritesEverySection(s);
    hide Kept, NoiseLines, Bullets, SectionNames, RenderOrder, Distinct, IsName, TakesOwn, PlainItems, TextLines;
  }

  lemma ParsedUnfolds(p: Patterns, lines: seq<string>, k: string)
    ensures ParsedSections(p, lines).keys == SectionNames(p, lines, |lines|)
    ensures k in SectionNames(p, lines, |lines|) ==>
      && k in ParsedSections(p, lines).items
      && ParsedSections(p, lines).items[k] ==
         Kept(p, Bullets(p, lines, |lines|), k) + NoiseLines(Bullets(p, lines, |lines|), |NOISE_LABELS|, k)
  {
    hide Kept, NoiseLines, Bullets, SectionNames;
  }

  /** What is counted when everything written is read again: each counter as one. */
  lemma CountedAgain(p: Patterns, bullets: seq<Bullet>, items: map<string, seq<string>>, order: seq<string>, l: string)
    requires HoldAll(p, bullets, items, order) && Distinct(order) && l in NOISE_LABELS
    requires NoiseCount(bullets, l) > 0 ==> NoiseHost(bullets, l) in order
    ensures var w := Written(p, items, order);
            && NoiseCount(w, l) == (if NoiseCount(bullets, l) > 0 then 1 else 0)
            && forall k :: Hosts(w, k, l) <==> Hosts(bullets, k, l)
  {
    WrittenNoise(p, bullets, items, order, l);
    hide Written, HoldAll, NoiseBullets;
  }

  /**
   A parsed changelog's block, read under a prerelease header, gives the same items in every section;
   with its counters it gives the very same sections exactly when no label was counted more than once.
   The last bullet must not end in white space: the script strips it.
   */
  lemma RereadsExactly(p: Patterns, isSpace: char -> bool, v: string, header: string, text: string)
    requires p.Valid() && TakesOwn(p) && p.isVersionHeader(v) && OneLine(header) && isSpace('\n')
    requires var s := ParsedSections(p, TextLines(text));
             && RenderOrder(s) != []
             && var b := LastBullet(s.items, RenderOrder(s)); b != "" && !isSpace(b[|b| - 1])
    ensures var lines := TextLines(text);
            var bullets, s := Bullets(p, lines, |lines|), ParsedSections(p, lines);
            var order := RenderOrder(s);
            var again := ParsedSections(p, Reheaded(isSpace, v, header, s.items, order));
            && again.keys == order
            && (forall k :: k in order ==>
                  && k in s.items && k in again.items
                  && Kept(p, bullets, k) <= s.items[k] && Kept(p, bullets, k) <= again.items[k])
            && ((forall k :: k in order ==> k in s.items && k in again.items && again.items[k] == s.items[k]) <==>
                forall l :: l in NOISE_LABELS ==> NoiseCount(bullets, l) <= 1)
  {
    hide *;
    var lines := TextLines(text);
    var bullets, s := Bullets(p, lines, |lines|), ParsedSections(p, lines);
    var order := RenderOrder(s);
    ParsedHolds(p, text);
    HoldAllIsReadable(p, bullets, s.items, order);
    ReadsBack(p, isSpace, v, header, s.items, order);
    var relines := Reheaded(isSpace, v, header, s.items, order);
    var w := Written(p, s.items, order);
    forall l | l in NOISE_LABELS
      ensures NoiseCount(w, l) == if NoiseCount(bullets, l) > 0 then 1 else 0
      ensures forall k :: Hosts(w, k, l) <==> Hosts(bullets, k, l)
      ensures NoiseCount(bullets, l) > 0 ==> NoiseHost(bullets, l) in order && Hosts(bullets, NoiseHost(bullets, l), l)
      ensures forall k :: Hosts(bullets, k, l) ==> NoiseCount(bullets, l) > 0
    {
      if NoiseCount(bullets, l) > 0 {
        HostIsWritten(p, lines, l);
        HostsIs(bullets, NoiseHost(bullets, l), l);
      }
      forall k ensures Hosts(bullets, k, l) ==> NoiseCount(bullets, l) > 0 {
        if NoiseCount(bullets, l) == 0 { HostsNothing(bullets, k, l); }
      }
      CountedAgain(p, bullets, s.items, order, l);
    }
    assert NOISE_LABELS[..|NOISE_LABELS|] == NOISE_LABELS;
    forall k | k in order
      ensures k in s.items && k in ParsedSections(p, relines).items
      ensures Kept(p, bullets, k) <= s.items[k] && Kept(p, bullets, k) <= ParsedSections(p, relines).items[k]
      ensures ParsedSections(p, relines).items[k] == s.items[k] <==>
              forall l :: l in NOISE_LABELS && Hosts(bullets, k, l) ==> NoiseCount(bullets, l) == NoiseCount(w, l)
    {
      ParsedUnfolds(p, relines, k);
      WrittenKept(p, bullets, s.items, order, k);
      HoldsAt(p, bullets, s.items, order, k);
      SameCounters(bullets, w, k, |NOISE_LABELS|);
      SameTail(Kept(p, bullets, k), NoiseLines(bullets, |NOISE_LABELS|, k), NoiseLines(w, |NOISE_LABELS|, k));
    }
    ParsedUnfolds(p, relines, "");
  }

  lemma HostsNothing(bullets: seq<Bullet>, k: string, l: string)
    requires NoiseCount(bullets, l) == 0
    ensures !Hosts(bullets, k, l)
  {
  }

  lemma HoldsAt(p: Patterns, bullets: seq<Bullet>, items: map<string, seq<string>>, order: seq<string>, k: string)
    requires HoldAll(p, bullets, items, order) && k in order
    ensures k in items && items[k] == Kept(p, bullets, k) + NoiseLines(bullets, |NOISE_LABELS|, k)
  {
    hide PlainItems, TakesOwn, IsName, Kept, NoiseLines;
    assert Holds(p, bullets, items, k);
  }

  lemma SameTail(head: seq<string>, a: seq<string>, b: seq<string>)
    ensures head + a == head + b <==> a == b
  {
    if head + a == head + b {
      assert a == (head + a)[|head|..] && b == (head + b)[|head|..];
    }
  }

  /** Without tagged bullets the sections that are written are those that were parsed. */
  lemma NothingTagged(p: Patterns, m: Marker, text: string)
    requires p.Valid()
    ensures var s := ParsedSections(p, TextLines(text));
            && Elems(s.keys) <= s.items.Keys
            && (m.MovedFrom(AllBullets(s.items, s.keys)) == [] ==> Collect(p, m, text) == s)
  {
    var s := ParsedSections(p, TextLines(text));
    ParsedIsValid(p, TextLines(text));
    hide ParsedSections, TextLines, Marker.MovedFrom, Marker.Untagged, AllBullets;
    if m.MovedFrom(AllBullets(s.items, s.keys)) == [] {
      NothingMovedAnywhere(m, s.items, s.keys);
      SplitUnfolds(m, s);
    }
  }
}
