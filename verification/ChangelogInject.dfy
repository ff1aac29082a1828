/** Inserting the rendered block into the changelog text. */
module ChangelogInject {
  import opened Wrappers
  import opened Sequences
  import opened Changelog

  // ----- Lines of a text -----

  const NL: string := "\n"
  const UNRELEASED: string := "## [Unreleased]"

  predicate Ended(s: string) {
    s == "" || IsBreak(s[|s| - 1])
  }

  /** Length of the first line with its line feed. */
  function FirstLen(s: string): (n: nat)
    ensures n <= |s| && (s != "" ==> n > 0)
    ensures (n > 0 && IsBreak(s[n - 1])) || n == |s|
    ensures forall i :: 0 <= i < n - 1 ==> !IsBreak(s[i])
  {
    if s == "" then 0 else if IsBreak(s[0]) then 1 else 1 + FirstLen(s[1..])
  }

  /** The lines of a text, each with its line feed. */
  function KeepLines(s: string): (lines: seq<string>)
    ensures (s == "" <==> lines == []) && forall l :: l in lines ==> l != ""
  {
    if s == "" then [] else [s[..FirstLen(s)]] + KeepLines(s[FirstLen(s)..])
  }

  function Chomp(line: string): string {
    if line != "" && IsBreak(line[|line| - 1]) then line[..|line| - 1] else line
  }

  function TextLines(s: string): seq<string> {
    Map(Chomp, KeepLines(s))
  }

  function Concat(lines: seq<string>): string {
    if lines == [] then "" else lines[0] + Concat(lines[1..])
  }

  lemma {:induction false} ConcatKeepLines(s: string)
    ensures Concat(KeepLines(s)) == s
  {
    if s != "" {
      ConcatKeepLines(s[FirstLen(s)..]);
    }
  }

  lemma {:induction false} ConcatAppend(a: seq<string>, b: seq<string>)
    ensures Concat(a + b) == Concat(a) + Concat(b)
  {
    if a == [] {
      assert a + b == b;
    } else {
      assert (a + b)[1..] == a[1..] + b;
      ConcatAppend(a[1..], b);
    }
  }

  lemma {:induction false} FirstLenAppend(a: string, b: string)
    requires a != "" && Ended(a)
    ensures FirstLen(a + b) == FirstLen(a) && IsBreak(a[FirstLen(a) - 1])
  {
    if !IsBreak(a[0]) {
      assert (a + b)[1..] == a[1..] + b;
      FirstLenAppend(a[1..], b);
    }
  }

  lemma {:induction false} KeepLinesAppend(a: string, b: string)
    requires Ended(a)
    ensures KeepLines(a + b) == KeepLines(a) + KeepLines(b)
  {
    hide *;
    if a == "" {
      NoLines();
      assert a + b == b;
    } else {
      var n := FirstLen(a);
      FirstLenAppend(a, b);
      KeepLinesUnfolds(a);
      KeepLinesUnfolds(a + b);
      assert (a + b)[..n] == a[..n] && (a + b)[n..] == a[n..] + b;
      EndedTail(a, n);
      KeepLinesAppend(a[n..], b);
    }
  }

  lemma NoLines()
    ensures KeepLines("") == [] && TextLines("") == []
  {
  }

  lemma KeepLinesUnfolds(s: string)
    requires s != ""
    ensures KeepLines(s) == [s[..FirstLen(s)]] + KeepLines(s[FirstLen(s)..])
  {
  }

  lemma EndedTail(s: string, n: nat)
    requires n <= |s|
    ensures Ended(s) ==> Ended(s[n..])
    ensures n < |s| && Ended(s[n..]) ==> Ended(s)
  {
  }

  lemma TextLinesAppend(a: string, b: string)
    requires Ended(a)
    ensures TextLines(a + b) == TextLines(a) + TextLines(b)
  {
    KeepLinesAppend(a, b);
    MapConcat(Chomp, KeepLines(a), KeepLines(b));
  }

  /** Ending the last line adds no line. */
  lemma {:induction false} TextLinesEnd(s: string)
    requires !Ended(s)
    ensures TextLines(s + NL) == TextLines(s)
  {
    hide *;
    var n := FirstLen(s);
    FirstLineEnds(s);
    if n == |s| {
      LastLine(s);
    } else {
      EndedTail(s, n);
      TextLinesEnd(s[n..]);
      TextLinesAppend(s[..n], s[n..]);
      TextLinesAppend(s[..n], s[n..] + NL);
      assert s == s[..n] + s[n..];
      assert s + NL == s[..n] + (s[n..] + NL);
    }
  }

  lemma FirstLineEnds(s: string)
    requires !Ended(s)
    ensures s != ""
    ensures if FirstLen(s) == |s| then OneLine(s) else Ended(s[..FirstLen(s)])
  {
  }

  lemma {:induction false} FirstLenOfLine(s: string, tail: string)
    requires OneLine(s)
    ensures FirstLen(s + NL + tail) == |s| + 1 && FirstLen(s) == |s|
  {
    var t := s + NL + tail;
    if s != "" {
      assert t[1..] == s[1..] + NL + tail;
      FirstLenOfLine(s[1..], tail);
    }
  }

  /** A text without line feeds is one line, ended or not. */
  lemma LastLine(s: string)
    requires OneLine(s)
    ensures TextLines(s + NL) == [s] && (s != "" ==> TextLines(s) == [s])
  {
    FirstLenOfLine(s, "");
    assert s + NL + "" == s + NL;
    KeepLinesUnfolds(s + NL);
    if s != "" { KeepLinesUnfolds(s); }
    assert (s + NL)[..|s| + 1] == s + NL && (s + NL)[|s| + 1..] == "";
    assert s[..|s|] == s && s[|s|..] == "";
    assert KeepLines("") == [];
    hide KeepLines, FirstLen;
    assert Chomp(s + NL) == s == Chomp(s);
    MapOne(s + NL);
    MapOne(s);
  }

  lemma MapOne(l: string)
    ensures Map(Chomp, [l]) == [Chomp(l)]
  {
  }

  // ----- Where the block goes -----

  datatype Headers = Headers(isUnreleased: string -> bool, isStable: string -> bool, isBlank: string -> bool)
  {
    /** Headers begin as their expressions say and are no prerelease headers; blank lines are none of them. */
    ghost predicate Valid(p: Patterns) {
      && (forall l :: isUnreleased(l) || isStable(l) ==> "## " <= l && !p.isVersionHeader(l))
      && (forall l :: isBlank(l) ==> !("## " <= l) && !("### " <= l) && !("- " <= l))
      && isUnreleased(UNRELEASED)
    }
  }

  datatype InjectError = AlreadyStable | NoPlace

  function FirstIndex(f: string -> bool, lines: seq<string>): (r: Option<nat>)
    ensures r.Some? ==> r.value < |lines| && f(lines[r.value]) && forall i :: 0 <= i < r.value ==> !f(lines[i])
    ensures r.None? ==> forall l :: l in lines ==> !f(l)
  {
    if lines == [] then None
    else if f(lines[0]) then Some(0)
    else match FirstIndex(f, lines[1..])
         case None => None
         case Some(i) => Some(i + 1)
  }

  function SkipBlank(h: Headers, lines: seq<string>, i: nat): (j: nat)
    requires i <= |lines|
    ensures i <= j <= |lines| && forall k :: i <= k < j ==> h.isBlank(lines[k])
    decreases |lines| - i
  {
    if i < |lines| && h.isBlank(lines[i]) then SkipBlank(h, lines, i + 1) else i
  }

  /** The line before which the block goes, and whether there is an `Unreleased` heading above it. */
  function Place(p: Patterns, h: Headers, lines: seq<string>): (r: Option<(nat, bool)>)
    ensures r.Some? ==> r.value.0 <= |lines|
  {
    match FirstIndex(h.isUnreleased, lines)
    case Some(i) => Some((SkipBlank(h, lines, i + 1), true))
    case None =>
      match FirstIndex(p.isVersionHeader, lines)
      case Some(i) => Some((i, false))
      case None => None
  }

  function Separator(prefix: string): string {
    if |prefix| >= 2 && prefix[|prefix| - 2..] == "\n\n" then ""
    else if prefix != "" && prefix[|prefix| - 1] == '\n' then NL
    else NL + NL
  }

  /** A heading of its own, when the text has none. */
  function Intro(underHeading: bool): string {
    if underHeading then "" else UNRELEASED + NL + NL
  }

  /** What is put between the text before and after the place. */
  function Insertion(prefix: string, underHeading: bool, block: string): string {
    Separator(prefix) + Intro(underHeading) + block + NL
  }

  /** The text before and after the place. */
  function Parts(text: string, at: nat): (string, string)
    requires at <= |KeepLines(text)|
  {
    (Concat(KeepLines(text)[..at]), Concat(KeepLines(text)[at..]))
  }

  function Inject(p: Patterns, h: Headers, text: string, block: string): Result<string, InjectError> {
    if FirstIndex(h.isStable, TextLines(text)).Some? then Err(AlreadyStable)
    else match Place(p, h, TextLines(text))
         case None => Err(NoPlace)
         case Some((at, underHeading)) =>
           var (prefix, suffix) := Parts(text, at);
           Ok(prefix + Insertion(prefix, underHeading, block) + suffix)
  }

  /** The first line that satisfies `f`, going through the lines as they stand in the text. */
  method FindLine(f: string -> bool, text: string) returns (r: Option<nat>)
    ensures r == FirstIndex(f, TextLines(text))
  {
    var lines := KeepLines(text);
    var i := 0;
    while i < |lines|
      invariant i <= |lines|
      invariant forall k :: 0 <= k < i ==> !f(TextLines(text)[k])
    {
      if f(Chomp(lines[i])) {
        FirstIndexIs(f, TextLines(text), i);
        return Some(i);
      }
      i := i + 1;
    }
    return None;
  }

  lemma FirstIndexIs(f: string -> bool, lines: seq<string>, i: nat)
    requires i < |lines| && f(lines[i]) && forall k :: 0 <= k < i ==> !f(lines[k])
    ensures FirstIndex(f, lines) == Some(i)
  {
  }

  method InjectBlock(p: Patterns, h: Headers, text: string, block: string) returns (r: Result<string, InjectError>)
    ensures r == Inject(p, h, text, block)
  {
    hide KeepLines, Concat, Separator, Intro, Insertion, FirstIndex, Chomp;
    var stable := FindLine(h.isStable, text);
    if stable.Some? {
      return Err(AlreadyStable);
    }
    var heading := FindLine(h.isUnreleased, text);
    if heading.Some? {
      var lines := KeepLines(text);
      var insertAt := heading.value + 1;
      while insertAt < |lines| && h.isBlank(Chomp(lines[insertAt]))
        invariant insertAt <= |lines|
        invariant SkipBlank(h, TextLines(text), insertAt) == SkipBlank(h, TextLines(text), heading.value + 1)
      {
        insertAt := insertAt + 1;
      }
      var (prefix, suffix) := Parts(text, insertAt);
      return Ok(prefix + Insertion(prefix, true, block) + suffix);
    }
    var version := FindLine(p.isVersionHeader, text);
    if version.Some? {
      var (prefix, suffix) := Parts(text, version.value);
      return Ok(prefix + Insertion(prefix, false, block) + suffix);
    }
    return Err(NoPlace);
  }

  /** Injection only adds: the text before and after the insertion is the original. */
  lemma InjectionPreservesText(text: string, at: nat)
    requires at <= |KeepLines(text)|
    ensures Parts(text, at).0 + Parts(text, at).1 == text
  {
    ConcatAppend(KeepLines(text)[..at], KeepLines(text)[at..]);
    assert KeepLines(text)[..at] + KeepLines(text)[at..] == KeepLines(text);
    ConcatKeepLines(text);
  }

  // ----- Reading the text again -----

  /** A rendered block: a stable header first, and no prerelease header. */
  ghost predicate IsBlock(p: Patterns, h: Headers, block: string) {
    && block != "" && Ended(block)
    && h.isStable(TextLines(block)[0])
    && forall l :: l in TextLines(block) ==> !p.isVersionHeader(l)
  }

  /** What the parser knows before line `i`. */
  ghost predicate SameReading(p: Patterns, a: seq<string>, i: nat, b: seq<string>, j: nat)
    requires i <= |a| && j <= |b|
  {
    && InTarget(p, a, i) == InTarget(p, b, j)
    && SectionAt(p, a, i) == SectionAt(p, b, j)
    && Bullets(p, a, i) == Bullets(p, b, j)
    && SectionNames(p, a, i) == SectionNames(p, b, j)
  }

  lemma {:induction false} BulletEndShift(a: seq<string>, b: seq<string>, i: nat)
    requires i <= |b|
    ensures BulletEnd(a + b, |a| + i) == |a| + BulletEnd(b, i)
    decreases |b| - i
  {
    if i < |b| && IsContinuation(b[i]) { BulletEndShift(a, b, i + 1); }
  }

  lemma SameBullet(p: Patterns, a: seq<string>, b: seq<string>, c: seq<string>, i: nat)
    requires i < |c| && SectionAt(p, a + c, |a| + i) == SectionAt(p, b + c, |b| + i)
    ensures IsBullet(p, a + c, |a| + i) <==> IsBullet(p, b + c, |b| + i)
    ensures IsBullet(p, a + c, |a| + i) ==> BulletAt(p, a + c, |a| + i) == BulletAt(p, b + c, |b| + i)
  {
    hide SectionAt, BulletEnd, JoinLines;
    BulletEndShift(a, c, i + 1);
    BulletEndShift(b, c, i + 1);
    assert (a + c)[|a| + i..|a| + BulletEnd(c, i + 1)] == c[i..BulletEnd(c, i + 1)];
    assert (b + c)[|b| + i..|b| + BulletEnd(c, i + 1)] == c[i..BulletEnd(c, i + 1)];
  }

  /** Two texts that read the same up to a common continuation read the same through it. */
  lemma {:induction false} SameContinuation(p: Patterns, a: seq<string>, b: seq<string>, c: seq<string>, i: nat)
    requires p.Valid() && i <= |c| && SameReading(p, a + c, |a|, b + c, |b|)
    ensures SameReading(p, a + c, |a| + i, b + c, |b| + i)
  {
    hide *;
    if i > 0 {
      SameContinuation(p, a, b, c, i - 1);
      SameReadingUnfolds(p, a + c, |a| + i - 1, b + c, |b| + i - 1);
      SameBullet(p, a, b, c, i - 1);
      LineStep(p, a + c, |a| + i - 1);
      LineStep(p, b + c, |b| + i - 1);
      SameReadingUnfolds(p, a + c, |a| + i, b + c, |b| + i);
    }
  }

  lemma SameReadingUnfolds(p: Patterns, a: seq<string>, i: nat, b: seq<string>, j: nat)
    requires i <= |a| && j <= |b|
    ensures SameReading(p, a, i, b, j) <==>
            && InTarget(p, a, i) == InTarget(p, b, j) && SectionAt(p, a, i) == SectionAt(p, b, j)
            && Bullets(p, a, i) == Bullets(p, b, j) && SectionNames(p, a, i) == SectionNames(p, b, j)
  {
  }

  /** Outside a prerelease block, lines that open none are read past. */
  lemma {:induction false} QuietLines(p: Patterns, lines: seq<string>, i: nat, j: nat)
    requires p.Valid() && i <= j <= |lines| && !InTarget(p, lines, i)
    requires forall k :: i <= k < j ==> !p.isVersionHeader(lines[k])
    ensures !InTarget(p, lines, j) && SectionAt(p, lines, j) == None
    ensures Bullets(p, lines, j) == Bullets(p, lines, i) && SectionNames(p, lines, j) == SectionNames(p, lines, i)
    decreases j
  {
    SectionOnlyInTarget(p, lines, j);
    if i < j {
      QuietLines(p, lines, i, j - 1);
      hide *;
      LineStep(p, lines, j - 1);
    }
  }

  lemma {:induction false} BulletEndInPrefix(a: seq<string>, b: seq<string>, c: seq<string>, i: nat, j: nat)
    requires i <= j < |a| && !IsContinuation(a[j])
    ensures BulletEnd(a + b, i) == BulletEnd(a + c, i) <= j
    decreases j - i
  {
    if IsContinuation(a[i]) { BulletEndInPrefix(a, b, c, i + 1, j); }
  }

  lemma SamePrefixBullet(p: Patterns, a: seq<string>, b: seq<string>, c: seq<string>, i: nat, j: nat)
    requires i < j < |a| && !IsContinuation(a[j]) && SectionAt(p, a + b, i) == SectionAt(p, a + c, i)
    ensures IsBullet(p, a + b, i) <==> IsBullet(p, a + c, i)
    ensures IsBullet(p, a + b, i) ==> BulletAt(p, a + b, i) == BulletAt(p, a + c, i)
  {
    hide SectionAt, BulletEnd, JoinLines;
    BulletEndInPrefix(a, b, c, i + 1, j);
    var e := BulletEnd(a + b, i + 1);
    assert (a + b)[i..e] == a[i..e] == (a + c)[i..e];
  }

  /** Up to a line that continues no bullet, the reading does not depend on what follows. */
  lemma {:induction false} PrefixReading(p: Patterns, a: seq<string>, b: seq<string>, c: seq<string>, i: nat, j: nat)
    requires p.Valid() && i <= j < |a| && !IsContinuation(a[j])
    ensures SameReading(p, a + b, i, a + c, i)
  {
    NothingRead(p, a + b, a + c);
    hide *;
    if i > 0 {
      PrefixReading(p, a, b, c, i - 1, j);
      SameReadingUnfolds(p, a + b, i - 1, a + c, i - 1);
      SamePrefixBullet(p, a, b, c, i - 1, j);
      LineStep(p, a + b, i - 1);
      LineStep(p, a + c, i - 1);
      SameReadingUnfolds(p, a + b, i, a + c, i);
    }
  }

  /** Before the place, and from there on, no line belongs to a prerelease block. */
  lemma ReadingAtPlace(p: Patterns, h: Headers, a: seq<string>, b: seq<string>, c: seq<string>, heading: Option<nat>)
    requires p.Valid() && h.Valid(p)
    requires heading.Some? ==>
      && heading.value < |a| && h.isUnreleased(a[heading.value])
      && forall k :: heading.value < k < |a| ==> h.isBlank(a[k])
    requires heading.None? ==> forall k :: 0 <= k < |a| ==> !p.isVersionHeader(a[k])
    ensures SameReading(p, a + b, |a|, a + c, |a|) && !InTarget(p, a + b, |a|) && !InTarget(p, a + c, |a|)
  {
    if heading.Some? {
      ReadingAtHeading(p, h, a, b, c, heading.value);
    } else {
      NothingRead(p, a + b, a + c);
      hide *;
      QuietLines(p, a + b, 0, |a|);
      QuietLines(p, a + c, 0, |a|);
      SameReadingUnfolds(p, a + b, |a|, a + c, |a|);
    }
  }

  lemma ReadingAtHeading(p: Patterns, h: Headers, a: seq<string>, b: seq<string>, c: seq<string>, j: nat)
    requires p.Valid() && h.Valid(p)
    requires j < |a| && h.isUnreleased(a[j]) && forall k :: j < k < |a| ==> h.isBlank(a[k])
    ensures SameReading(p, a + b, |a|, a + c, |a|) && !InTarget(p, a + b, |a|) && !InTarget(p, a + c, |a|)
  {
    hide *;
    HeadingStep(p, h, a, b, j);
    HeadingStep(p, h, a, c, j);
    PrefixReading(p, a, b, c, j, j);
    SameReadingUnfolds(p, a + b, j, a + c, j);
    HeadersAreNoVersions(p, h, a, j);
    QuietLines(p, a + b, j + 1, |a|);
    QuietLines(p, a + c, j + 1, |a|);
    SameReadingUnfolds(p, a + b, |a|, a + c, |a|);
  }

  lemma NothingRead(p: Patterns, a: seq<string>, b: seq<string>)
    ensures SameReading(p, a, 0, b, 0) && !InTarget(p, a, 0) && !InTarget(p, b, 0)
    ensures Bullets(p, a, 0) == Bullets(p, b, 0) && SectionNames(p, a, 0) == SectionNames(p, b, 0)
  {
  }

  /** A heading that is no prerelease header ends the block before it. */
  lemma HeadingStep(p: Patterns, h: Headers, a: seq<string>, b: seq<string>, j: nat)
    requires p.Valid() && h.Valid(p) && j < |a| && h.isUnreleased(a[j])
    ensures !IsContinuation(a[j]) && !InTarget(p, a + b, j + 1)
    ensures Bullets(p, a + b, j + 1) == Bullets(p, a + b, j) && SectionNames(p, a + b, j + 1) == SectionNames(p, a + b, j)
  {
    var l := a[j];
    assert l[0] == '#' && (a + b)[j] == l && "## " <= l && !p.isVersionHeader(l);
    hide *;
    LineStep(p, a + b, j);
    NoContinuation(l);
  }

  lemma NoContinuation(l: string)
    requires l != "" && l[0] == '#'
    ensures !IsContinuation(l)
  {
  }

  lemma HeadersAreNoVersions(p: Patterns, h: Headers, a: seq<string>, j: nat)
    requires p.Valid() && h.Valid(p) && j < |a| && h.isUnreleased(a[j]) && forall k :: j < k < |a| ==> h.isBlank(a[k])
    ensures !p.isVersionHeader(a[j]) && "## " <= a[j] && forall k :: j < k < |a| ==> !p.isVersionHeader(a[k])
  {
  }

  /** A text with quiet lines put in at the place reads as before. */
  lemma QuietInsertion(p: Patterns, h: Headers, a: seq<string>, x: seq<string>, c: seq<string>, heading: Option<nat>)
    requires p.Valid() && h.Valid(p)
    requires heading.Some? ==>
      && heading.value < |a| && h.isUnreleased(a[heading.value])
      && forall k :: heading.value < k < |a| ==> h.isBlank(a[k])
    requires heading.None? ==> forall k :: 0 <= k < |a| ==> !p.isVersionHeader(a[k])
    requires forall k :: 0 <= k < |x| ==> !p.isVersionHeader(x[k])
    ensures SameReading(p, a + c, |a + c|, (a + x) + c, |(a + x) + c|)
  {
    hide *;
    var t := a + x;
    assert a + (x + c) == t + c;
    ReadingAtPlace(p, h, a, c, x + c, heading);
    SameReadingUnfolds(p, a + c, |a|, t + c, |a|);
    forall k | |a| <= k < |t| ensures !p.isVersionHeader((t + c)[k]) { assert (t + c)[k] == x[k - |a|]; }
    QuietLines(p, t + c, |a|, |t|);
    SectionOnlyInTarget(p, a + c, |a|);
    SameReadingUnfolds(p, a + c, |a|, t + c, |t|);
    SameContinuation(p, a, t, c, |c|);
  }

  // ----- The insertion as lines -----

  lemma {:induction false} KeepLinesPrefix(s: string, k: nat)
    requires k <= |KeepLines(s)|
    ensures KeepLines(Concat(KeepLines(s)[..k])) == KeepLines(s)[..k]
    ensures KeepLines(Concat(KeepLines(s)[k..])) == KeepLines(s)[k..]
    ensures !Ended(Concat(KeepLines(s)[..k])) ==> k == |KeepLines(s)|
    decreases |s|
  {
    hide *;
    var lines := KeepLines(s);
    if k == 0 {
      ConcatKeepLines(s);
      NoLines();
      ConcatCons("", []);
      assert lines[..0] == [] && lines[0..] == lines;
    } else {
      NoLines();
      KeepLinesUnfolds(s);
      var n := FirstLen(s);
      var first, rest := s[..n], s[n..];
      var head := KeepLines(rest)[..k - 1];
      KeepLinesPrefix(rest, k - 1);
      assert lines[..k] == [first] + head && lines[k..] == KeepLines(rest)[k - 1..];
      ConcatCons(first, head);
      FirstLineAlone(s);
      if Ended(first) {
        KeepLinesAppend(first, Concat(head));
      } else {
        assert head == [];
        ConcatCons(first, []);
        assert first + "" == first;
      }
      EndedAppend(first, Concat(head));
      assert |lines| == 1 + |KeepLines(rest)|;
    }
  }

  lemma ConcatCons(line: string, lines: seq<string>)
    ensures Concat([line] + lines) == line + Concat(lines) && Concat([]) == "" && Ended("")
  {
  }

  lemma EndedAppend(a: string, b: string)
    ensures Ended(a + b) <==> if b == "" then Ended(a) else Ended(b)
  {
  }

  lemma {:induction false} FirstLineAlone(s: string)
    requires s != ""
    ensures KeepLines(s[..FirstLen(s)]) == [s[..FirstLen(s)]]
    ensures !Ended(s[..FirstLen(s)]) ==> s[FirstLen(s)..] == ""
  {
    var n := FirstLen(s);
    FirstLenOfPrefix(s);
    assert s[..n][..n] == s[..n] && s[..n][n..] == "";
  }

  lemma {:induction false} FirstLenOfPrefix(s: string)
    ensures FirstLen(s[..FirstLen(s)]) == FirstLen(s)
  {
  }

  lemma SeparatorLines()
    ensures TextLines("") == [] && TextLines(NL) == [""] && TextLines(NL + NL) == ["", ""]
    ensures Ended(NL) && Ended(NL + NL)
  {
  }

  lemma HeadingLines(u: string)
    requires OneLine(u)
    ensures TextLines(u + NL + NL) == [u] + [""] && Ended(u + NL + NL)
  {
    assert Ended(u + NL) && Ended(u + NL + NL);
    hide *;
    LastLine(u);
    SeparatorLines();
    TextLinesAppend(u + NL, NL);
  }

  /** The lines of the heading of its own. */
  lemma IntroLines(p: Patterns, h: Headers, underHeading: bool)
    requires p.Valid() && h.Valid(p)
    ensures Ended(Intro(underHeading)) && forall l :: l in TextLines(Intro(underHeading)) ==> !p.isVersionHeader(l)
  {
    assert !p.isVersionHeader(UNRELEASED) && !p.isVersionHeader("") && OneLine(UNRELEASED);
    NoLines();
    HeadingLines(UNRELEASED);
    hide TextLines;
  }

  /** Blank lines and the rest of the insertion come after the lines of the prefix. */
  lemma PrefixedLines(prefix: string, body: string) returns (blank: seq<string>)
    requires body != "" && Ended(body)
    ensures Ended(prefix + Separator(prefix) + body)
    ensures TextLines(prefix + Separator(prefix) + body) == TextLines(prefix) + blank + TextLines(body)
    ensures forall l :: l in blank ==> l == ""
  {
    var sep := Separator(prefix);
    SeparatorCases(prefix);
    EndedAppend(prefix + sep, body);
    SeparatorLines();
    hide *;
    TextLinesAppend(prefix + sep, body);
    if Ended(prefix) {
      TextLinesAppend(prefix, sep);
      blank := TextLines(sep);
    } else {
      TextLinesEnd(prefix);
      TextLinesAppend(prefix + NL, NL);
      assert prefix + sep == (prefix + NL) + NL;
      blank := [""];
    }
  }

  lemma SeparatorCases(prefix: string)
    ensures var sep := Separator(prefix);
            && (sep == "" || sep == NL || sep == NL + NL)
            && (!Ended(prefix) ==> sep == NL + NL) && (sep == "" ==> Ended(prefix))
            && Ended(prefix + sep) && Ended(prefix + NL)
  {
  }

  /** What is inserted, read as lines: nothing the parser reacts to, and the stable header among them. */
  lemma InsertionLines(p: Patterns, h: Headers, prefix: string, underHeading: bool, block: string) returns (x: seq<string>)
    requires p.Valid() && h.Valid(p) && IsBlock(p, h, block)
    ensures Ended(prefix + Insertion(prefix, underHeading, block))
    ensures TextLines(prefix + Insertion(prefix, underHeading, block)) == TextLines(prefix) + x
    ensures (forall k :: 0 <= k < |x| ==> !p.isVersionHeader(x[k])) && exists l :: l in x && h.isStable(l)
  {
    hide *;
    var body := Intro(underHeading) + block + NL;
    InsertionUnfolds(prefix, underHeading, block);
    BodyLines(p, h, underHeading, block);
    var blank := PrefixedLines(prefix, body);
    x := blank + TextLines(body);
    NoBlankHeader(p);
    assert TextLines(prefix) + blank + TextLines(body) == TextLines(prefix) + x;
    forall k | 0 <= k < |x| ensures !p.isVersionHeader(x[k]) {
      assert x[k] in blank || x[k] in TextLines(body);
    }
    var l :| l in TextLines(body) && h.isStable(l);
    assert l in x;
  }

  lemma InsertionUnfolds(prefix: string, underHeading: bool, block: string)
    ensures prefix + Insertion(prefix, underHeading, block) == prefix + Separator(prefix) + (Intro(underHeading) + block + NL)
  {
    hide Separator, Intro;
    assert Insertion(prefix, underHeading, block) == Separator(prefix) + (Intro(underHeading) + block + NL);
  }

  lemma NoBlankHeader(p: Patterns)
    requires p.Valid()
    ensures !p.isVersionHeader("")
  {
  }

  lemma BodyLines(p: Patterns, h: Headers, underHeading: bool, block: string)
    requires p.Valid() && h.Valid(p) && IsBlock(p, h, block)
    ensures var body := Intro(underHeading) + block + NL;
            && body != "" && Ended(body)
            && (forall l :: l in TextLines(body) ==> !p.isVersionHeader(l))
            && exists l :: l in TextLines(body) && h.isStable(l)
  {
    var intro := Intro(underHeading);
    var first := BlockFacts(p, h, block);
    IntroLines(p, h, underHeading);
    NoBlankHeader(p);
    assert Ended(intro + block + NL);
    hide *;
    SeparatorLines();
    TextLinesAppend(intro, block + NL);
    TextLinesAppend(block, NL);
    assert intro + block + NL == intro + (block + NL);
    assert TextLines(intro + block + NL) == TextLines(intro) + (TextLines(block) + [""]);
    assert first in TextLines(intro + block + NL);
  }

  lemma BlockFacts(p: Patterns, h: Headers, block: string) returns (first: string)
    requires IsBlock(p, h, block)
    ensures Ended(block) && first in TextLines(block) && h.isStable(first)
    ensures forall l :: l in TextLines(block) ==> !p.isVersionHeader(l)
  {
    hide Ended;
    first := TextLines(block)[0];
  }

  lemma PlacedAfterHeading(p: Patterns, h: Headers, lines: seq<string>) returns (heading: Option<nat>)
    requires Place(p, h, lines).Some?
    ensures var a := lines[..Place(p, h, lines).value.0];
            && (heading.Some? ==>
                  && heading.value < |a| && h.isUnreleased(a[heading.value])
                  && forall k :: heading.value < k < |a| ==> h.isBlank(a[k]))
            && (heading.None? ==> forall k :: 0 <= k < |a| ==> !p.isVersionHeader(a[k]))
  {
    heading := FirstIndex(h.isUnreleased, lines);
  }

  /** Injecting a block changes nothing that the parser collects. */
  lemma InjectionReadsTheSame(p: Patterns, h: Headers, text: string, block: string)
    requires p.Valid() && h.Valid(p) && IsBlock(p, h, block) && Inject(p, h, text, block).Ok?
    ensures var before, after := TextLines(text), TextLines(Inject(p, h, text, block).value);
            && SameReading(p, before, |before|, after, |after|)
            && exists l :: l in after && h.isStable(l)
  {
    var before := TextLines(text);
    var (at, underHeading) := Place(p, h, before).value;
    var heading := PlacedAfterHeading(p, h, before);
    var (prefix, suffix) := Parts(text, at);
    var x := InsertionLines(p, h, prefix, underHeading, block);
    KeepLinesPrefix(text, at);
    MapParts(KeepLines(text), at);
    var a, c := TextLines(prefix), TextLines(suffix);
    assert before == a + c;
    TextLinesAppend(prefix + Insertion(prefix, underHeading, block), suffix);
    assert before[..at] == a;
    QuietInsertion(p, h, a, x, c, heading);
    var l :| l in x && h.isStable(l);
    assert l in (a + x) + c;
  }

  lemma MapParts(lines: seq<string>, at: nat)
    requires at <= |lines|
    ensures Map(Chomp, lines) == Map(Chomp, lines[..at]) + Map(Chomp, lines[at..])
    ensures |Map(Chomp, lines[..at])| == at
  {
  }

  /** A second injection is refused, whatever block it is given. */
  lemma SecondInjectionRefused(p: Patterns, h: Headers, text: string, block: string, again: string)
    requires p.Valid() && h.Valid(p) && IsBlock(p, h, block) && Inject(p, h, text, block).Ok?
    ensures Inject(p, h, Inject(p, h, text, block).value, again) == Err(AlreadyStable)
  {
    InjectionReadsTheSame(p, h, text, block);
  }
}
