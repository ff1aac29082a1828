/** Reading a rendered block back: the parser finds every bullet that was written, where it was written. */
module ChangelogRoundTrip {
  import opened Wrappers
  import opened Sequences
  import opened Changelog
  import opened ChangelogBlock
  import opened ChangelogRender
  import opened ChangelogInject
  import opened ChangelogAggregate

  // ----- Text of several lines -----

  /** The lines of a piece of text that is written with a line feed after it. */
  function LinesOf(s: string): (lines: seq<string>)
    ensures lines != []
  {
    TextLines(s + NL)
  }

  function SplitAll(pieces: seq<string>): seq<string> {
    if pieces == [] then [] else SplitAll(pieces[..|pieces| - 1]) + LinesOf(pieces[|pieces| - 1])
  }

  lemma SplitAllStep(pieces: seq<string>, piece: string)
    ensures SplitAll(pieces + [piece]) == SplitAll(pieces) + LinesOf(piece)
    ensures SplitAll([]) == []
  {
    assert (pieces + [piece])[..|pieces|] == pieces;
  }

  lemma {:induction false} SplitAllConcat(a: seq<string>, b: seq<string>)
    ensures SplitAll(a + b) == SplitAll(a) + SplitAll(b)
  {
    hide LinesOf;
    if b == [] {
      assert a + b == a;
    } else {
      assert (a + b)[..|a + b| - 1] == a + b[..|b| - 1];
      SplitAllConcat(a, b[..|b| - 1]);
    }
  }

  lemma LineOf(s: string)
    requires OneLine(s)
    ensures LinesOf(s) == [s]
  {
    LastLine(s);
  }

  /** Joined pieces, read as lines, are the lines of the pieces. */
  lemma {:induction false} JoinedPieces(pieces: seq<string>)
    requires pieces != []
    ensures TextLines(JoinLines(pieces) + NL) == SplitAll(pieces)
  {
    hide *;
    var front, last := pieces[..|pieces| - 1], pieces[|pieces| - 1];
    assert pieces == front + [last];
    SplitAllStep(front, last);
    LinesOfIs(last);
    JoinUnfolds(pieces);
    if front == [] {
      SplitAllStep([], last);
    } else {
      JoinedPieces(front);
      EndsInFeed(JoinLines(front));
      TextLinesAppend(JoinLines(front) + NL, last + NL);
      assert JoinLines(front) + NL + last + NL == (JoinLines(front) + NL) + (last + NL);
    }
  }

  lemma LinesOfIs(s: string)
    ensures LinesOf(s) == TextLines(s + NL)
  {
  }

  lemma EndsInFeed(s: string)
    ensures Ended(s + NL)
  {
  }

  lemma JoinUnfolds(pieces: seq<string>)
    requires pieces != []
    ensures var front, last := pieces[..|pieces| - 1], pieces[|pieces| - 1];
            JoinLines(pieces) == if front == [] then last else JoinLines(front) + NL + last
  {
  }

  // ----- What is written -----

  /** A bullet with its continuation lines. */
  ghost predicate IsBulletText(b: string) {
    var lines := LinesOf(b);
    && "- " <= lines[0] && b == JoinLines(lines)
    && forall i :: 0 < i < |lines| ==> IsContinuation(lines[i])
  }

  /** How the parser takes such a bullet: its first line decides. */
  function KindOf(p: Patterns, b: string): Kind {
    var first := LinesOf(b)[0];
    if p.isSkipped(first) then Skipped
    else if p.noise(first).Some? then Noise(p.noise(first).value)
    else Item(b)
  }

  ghost predicate IsName(p: Patterns, k: string) {
    k != "" && OneLine(k) && p.subsection("### " + k) == Some(k)
  }

  ghost predicate Readable(p: Patterns, items: map<string, seq<string>>, order: seq<string>) {
    forall k :: k in order ==> k in items && IsName(p, k) && forall b :: b in items[k] ==> IsBulletText(b)
  }

  function AsRead(p: Patterns, k: string, bullets: seq<string>): seq<Bullet> {
    Map((b: string) => Bullet(k, KindOf(p, b)), bullets)
  }

  /** All written bullets, in order, as the parser takes them. */
  function Written(p: Patterns, items: map<string, seq<string>>, order: seq<string>): seq<Bullet> {
    if order == [] then []
    else
      var k := order[|order| - 1];
      Written(p, items, order[..|order| - 1]) + AsRead(p, k, if k in items then items[k] else [])
  }

  // ----- Reading on -----

  /** What the parser knows at the end of some lines. */
  ghost predicate Reads(p: Patterns, a: seq<string>, section: Option<string>, bullets: seq<Bullet>, names: seq<string>) {
    && InTarget(p, a, |a|) && SectionAt(p, a, |a|) == section
    && Bullets(p, a, |a|) == bullets && SectionNames(p, a, |a|) == names
  }

  lemma {:induction false} BulletEndBefore(a: seq<string>, g: seq<string>, i: nat)
    requires i <= |a| && (g == [] || !IsContinuation(g[0]))
    ensures BulletEnd(a + g, i) == BulletEnd(a, i)
    decreases |a| - i
  {
    assert g != [] ==> (a + g)[|a|] == g[0];
    if i < |a| && IsContinuation(a[i]) { BulletEndBefore(a, g, i + 1); }
  }

  lemma SameBulletBefore(p: Patterns, a: seq<string>, g: seq<string>, i: nat)
    requires i < |a| && (g == [] || !IsContinuation(g[0])) && SectionAt(p, a + g, i) == SectionAt(p, a, i)
    ensures IsBullet(p, a + g, i) <==> IsBullet(p, a, i)
    ensures IsBullet(p, a, i) ==> BulletAt(p, a + g, i) == BulletAt(p, a, i)
  {
    hide SectionAt, BulletEnd, JoinLines;
    BulletEndBefore(a, g, i + 1);
    assert (a + g)[i..BulletEnd(a, i + 1)] == a[i..BulletEnd(a, i + 1)];
  }

  /** Lines that continue no bullet do not change what was read before them. */
  lemma {:induction false} SameBefore(p: Patterns, a: seq<string>, g: seq<string>, i: nat)
    requires p.Valid() && i <= |a| && (g == [] || !IsContinuation(g[0]))
    ensures SameReading(p, a + g, i, a, i)
  {
    NothingRead(p, a + g, a);
    hide *;
    if i > 0 {
      SameBefore(p, a, g, i - 1);
      SameReadingUnfolds(p, a + g, i - 1, a, i - 1);
      SameBulletBefore(p, a, g, i - 1);
      LineStep(p, a + g, i - 1);
      LineStep(p, a, i - 1);
      SameReadingUnfolds(p, a + g, i, a, i);
    }
  }

  lemma ReadsUnfolds(p: Patterns, a: seq<string>, section: Option<string>, bullets: seq<Bullet>, names: seq<string>)
    ensures Reads(p, a, section, bullets, names) <==>
            && InTarget(p, a, |a|) && SectionAt(p, a, |a|) == section
            && Bullets(p, a, |a|) == bullets && SectionNames(p, a, |a|) == names
  {
  }

  lemma LineShapes(p: Patterns, k: string)
    requires p.Valid()
    ensures !IsContinuation("") && !("## " <= "") && !p.isVersionHeader("") && p.subsection("").None? && !("- " <= "")
    ensures !IsContinuation("### " + k) && !("## " <= "### " + k) && !p.isVersionHeader("### " + k)
  {
    assert ("### " + k)[0] == '#' && ("### " + k)[2] == '#';
  }

  lemma ReadBlank(p: Patterns, a: seq<string>, section: Option<string>, bullets: seq<Bullet>, names: seq<string>)
    requires p.Valid() && Reads(p, a, section, bullets, names)
    ensures Reads(p, a + [""], section, bullets, names)
  {
    hide *;
    LineShapes(p, "");
    SameBefore(p, a, [""], |a|);
    SameReadingUnfolds(p, a + [""], |a|, a, |a|);
    LineStep(p, a + [""], |a|);
    ReadsUnfolds(p, a, section, bullets, names);
    ReadsUnfolds(p, a + [""], section, bullets, names);
  }

  lemma ReadHeading(p: Patterns, a: seq<string>, section: Option<string>, bullets: seq<Bullet>, names: seq<string>, k: string)
    requires p.Valid() && Reads(p, a, section, bullets, names) && p.subsection("### " + k) == Some(k)
    ensures Reads(p, a + ["### " + k], Some(k), bullets, if k in names then names else names + [k])
  {
    hide *;
    var l := "### " + k;
    LineShapes(p, k);
    SameBefore(p, a, [l], |a|);
    SameReadingUnfolds(p, a + [l], |a|, a, |a|);
    assert (a + [l])[|a|] == l;
    LineStep(p, a + [l], |a|);
    ReadsUnfolds(p, a, section, bullets, names);
    ReadsUnfolds(p, a + [l], Some(k), bullets, if k in names then names else names + [k]);
  }

  lemma {:induction false} BulletEndAt(lines: seq<string>, i: nat)
    requires i <= |lines| && forall k :: i <= k < |lines| ==> IsContinuation(lines[k])
    ensures BulletEnd(lines, i) == |lines|
    decreases |lines| - i
  {
    if i < |lines| { BulletEndAt(lines, i + 1); }
  }

  lemma BulletShapes(p: Patterns, b: string)
    requires p.Valid() && IsBulletText(b)
    ensures var l := LinesOf(b)[0];
            "- " <= l && !IsContinuation(l) && !("## " <= l) && !p.isVersionHeader(l) && p.subsection(l).None?
    ensures b == JoinLines(LinesOf(b)) && forall i :: 0 < i < |LinesOf(b)| ==> IsContinuation(LinesOf(b)[i])
  {
    hide LinesOf, JoinLines;
    var l := LinesOf(b)[0];
    assert l[0] == '-';
  }

  lemma ReadBullet(p: Patterns, a: seq<string>, k: string, bullets: seq<Bullet>, names: seq<string>, b: string)
    requires p.Valid() && Reads(p, a, Some(k), bullets, names) && k != "" && IsBulletText(b)
    ensures Reads(p, a + LinesOf(b), Some(k), bullets + [Bullet(k, KindOf(p, b))], names)
  {
    hide *;
    var g := LinesOf(b);
    var n, all := |a|, a + g;
    BulletShapes(p, b);
    SameBefore(p, a, g, n);
    SameReadingUnfolds(p, all, n, a, n);
    ReadsUnfolds(p, a, Some(k), bullets, names);
    assert all[n] == g[0];
    LineStep(p, all, n);
    BulletUnfolds(p, all, n);
    assert forall j :: n + 1 <= j < |all| ==> all[j] == g[j - n];
    BulletEndAt(all, n + 1);
    assert all[n..|all|] == g;
    KindIs(p, b);
    ContinuationsChangeNothing(p, all, n + 1, |all|);
    ReadsUnfolds(p, all, Some(k), bullets + [Bullet(k, KindOf(p, b))], names);
  }

  lemma KindIs(p: Patterns, b: string)
    ensures KindOf(p, b) == if p.isSkipped(LinesOf(b)[0]) then Skipped
                            else if p.noise(LinesOf(b)[0]).Some? then Noise(p.noise(LinesOf(b)[0]).value)
                            else Item(b)
  {
  }

  lemma AsReadStep(p: Patterns, k: string, bs: seq<string>, b: string)
    ensures AsRead(p, k, bs + [b]) == AsRead(p, k, bs) + [Bullet(k, KindOf(p, b))] && AsRead(p, k, []) == []
  {
    MapStep((b: string) => Bullet(k, KindOf(p, b)), bs, b);
  }

  lemma {:induction false} ReadBullets(p: Patterns, a: seq<string>, k: string, bullets: seq<Bullet>, names: seq<string>, bs: seq<string>)
    requires p.Valid() && Reads(p, a, Some(k), bullets, names) && k != "" && forall b :: b in bs ==> IsBulletText(b)
    ensures Reads(p, a + SplitAll(bs), Some(k), bullets + AsRead(p, k, bs), names)
    decreases |bs|
  {
    hide *;
    if bs == [] {
      SplitAllStep([], "");
      AsReadStep(p, k, [], "");
      assert a + [] == a && bullets + [] == bullets;
    } else {
      var front, b := bs[..|bs| - 1], bs[|bs| - 1];
      assert bs == front + [b] && forall x :: x in front ==> x in bs;
      ReadBullets(p, a, k, bullets, names, front);
      SplitAllStep(front, b);
      AsReadStep(p, k, front, b);
      ReadBullet(p, a + SplitAll(front), k, bullets + AsRead(p, k, front), names, b);
      assert a + SplitAll(bs) == a + SplitAll(front) + LinesOf(b);
      assert bullets + AsRead(p, k, bs) == bullets + AsRead(p, k, front) + [Bullet(k, KindOf(p, b))];
    }
  }

  /** One section, with its heading and blank lines. */
  lemma ReadSection(p: Patterns, a: seq<string>, section: Option<string>, bullets: seq<Bullet>, names: seq<string>,
                    k: string, bs: seq<string>)
    requires p.Valid() && Reads(p, a, section, bullets, names) && IsName(p, k) && k !in names
    requires forall b :: b in bs ==> IsBulletText(b)
    ensures Reads(p, a + SplitAll(["### " + k, ""] + bs), Some(k), bullets + AsRead(p, k, bs), names + [k])
    ensures Reads(p, a + SplitAll(SectionBlock(k, bs)), Some(k), bullets + AsRead(p, k, bs), names + [k])
  {
    hide *;
    var l := "### " + k;
    SectionLines(p, k, bs);
    NameFacts(p, k);
    ReadHeading(p, a, section, bullets, names, k);
    ReadBlank(p, a + [l], Some(k), bullets, names + [k]);
    ReadBullets(p, a + [l] + [""], k, bullets, names + [k], bs);
    ReadBlank(p, a + [l] + [""] + SplitAll(bs), Some(k), bullets + AsRead(p, k, bs), names + [k]);
    assert a + ([l] + [""] + SplitAll(bs)) == a + [l] + [""] + SplitAll(bs);
    assert a + ([l] + [""] + SplitAll(bs) + [""]) == a + [l] + [""] + SplitAll(bs) + [""];
  }

  lemma NameFacts(p: Patterns, k: string)
    requires IsName(p, k)
    ensures k != "" && p.subsection("### " + k) == Some(k) && OneLine("### " + k) && OneLine("")
  {
    assert forall i :: 0 <= i < |"### "| ==> !IsBreak("### "[i]);
  }

  lemma SectionLines(p: Patterns, k: string, bs: seq<string>)
    requires IsName(p, k)
    ensures SplitAll(["### " + k, ""] + bs) == ["### " + k] + [""] + SplitAll(bs)
    ensures SplitAll(SectionBlock(k, bs)) == ["### " + k] + [""] + SplitAll(bs) + [""]
  {
    NameFacts(p, k);
    SectionBlockIs(k, bs);
    hide *;
    var l := "### " + k;
    LineOf(l);
    LineOf("");
    SplitAllStep([], l);
    SplitAllStep([l], "");
    assert [] + [l] == [l] && [l] + [""] == [l, ""];
    SplitAllConcat([l, ""], bs);
    SplitAllStep([l, ""] + bs, "");
    assert [] + [l] + [""] + SplitAll(bs) == [l] + [""] + SplitAll(bs);
  }

  lemma SectionBlockIs(k: string, bs: seq<string>)
    ensures SectionBlock(k, bs) == ["### " + k, ""] + bs + [""]
  {
  }

  lemma {:induction false} ReadBlocks(p: Patterns, a: seq<string>, items: map<string, seq<string>>, order: seq<string>)
    requires p.Valid() && Reads(p, a, None, [], []) && Readable(p, items, order) && Distinct(order)
    ensures exists section :: Reads(p, a + SplitAll(Blocks(items, order)), section, Written(p, items, order), order)
    decreases |order|
  {
    hide *;
    BlocksUnfold(p, items, order);
    if order == [] {
      SplitAllStep([], "");
      assert a + [] == a;
    } else {
      var front, k := order[..|order| - 1], order[|order| - 1];
      assert order == front + [k];
      DistinctStep(front, k);
      ReadableFront(p, items, order);
      ReadBlocks(p, a, items, front);
      var section :| Reads(p, a + SplitAll(Blocks(items, front)), section, Written(p, items, front), front);
      ReadSection(p, a + SplitAll(Blocks(items, front)), section, Written(p, items, front), front, k, items[k]);
      SplitAllConcat(Blocks(items, front), SectionBlock(k, items[k]));
      assert a + SplitAll(Blocks(items, order)) == a + SplitAll(Blocks(items, front)) + SplitAll(SectionBlock(k, items[k]));
    }
  }

  lemma ReadableFront(p: Patterns, items: map<string, seq<string>>, order: seq<string>)
    requires Readable(p, items, order) && order != []
    ensures var k := order[|order| - 1]; k in items && IsName(p, k) && forall b :: b in items[k] ==> IsBulletText(b)
    ensures Readable(p, items, order[..|order| - 1])
  {
    hide IsName, IsBulletText;
  }

  lemma BlocksUnfold(p: Patterns, items: map<string, seq<string>>, order: seq<string>)
    ensures order == [] ==> Blocks(items, order) == [] && Written(p, items, order) == []
    ensures order != [] && order[|order| - 1] in items ==>
      var front, k := order[..|order| - 1], order[|order| - 1];
      && Blocks(items, order) == Blocks(items, front) + SectionBlock(k, items[k])
      && Written(p, items, order) == Written(p, items, front) + AsRead(p, k, items[k])
  {
  }
}
