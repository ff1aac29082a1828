/**
 Which lines above an item go with it, and which line of its formatted text locates it, in terms of bytes:
 white space is what Unicode calls so, in UTF-8.
 */
module MigrateLines {
  import opened Wrappers
  import opened ItemScanner
  import opened MigrateV2

  // ----- White space -----

  /** The code points of the Unicode property White_Space. */
  predicate IsWhite(c: nat) {
    || 0x9 <= c <= 0xD || c == 0x20 || c == 0x85 || c == 0xA0 || c == 0x1680 || 0x2000 <= c <= 0x200A
    || c == 0x2028 || c == 0x2029 || c == 0x202F || c == 0x205F || c == 0x3000
  }

  /** The UTF-8 encoding of a code point of the first plane. */
  function Utf8(c: nat): (s: Text)
    requires c < 0x1_0000
    ensures s != []
  {
    if c < 0x80 then [c]
    else if c < 0x800 then [0xC0 + c / 0x40, 0x80 + c % 0x40]
    else [0xE0 + c / 0x1000, 0x80 + c / 0x40 % 0x40, 0x80 + c % 0x40]
  }

  /** Text that is white space throughout. */
  ghost predicate AllWhite(s: Text) {
    s == [] || exists c: nat :: c < 0x1_0000 && IsWhite(c) && Utf8(c) <= s && AllWhite(s[|Utf8(c)|..])
  }

  lemma WhiteOfBytes(s: Text) returns (c: nat)
    requires WhiteLen(s) > 0
    ensures c < 0x1_0000 && IsWhite(c) && Utf8(c) == s[..WhiteLen(s)]
  {
    var n := WhiteLen(s);
    var head: seq<int> := s[..n];
    c := if n == 1 then head[0]
         else if n == 2 then (head[0] - 0xC0) * 0x40 + (head[1] - 0x80)
         else (head[0] - 0xE0) * 0x1000 + (head[1] - 0x80) * 0x40 + (head[2] - 0x80);
  }

  lemma BytesOfWhite(c: nat, s: Text)
    requires c < 0x1_0000 && IsWhite(c) && Utf8(c) <= s
    ensures WhiteLen(s) == |Utf8(c)|
  {
    var u := Utf8(c);
    assert s[0] == u[0];
    if |u| > 1 { assert s[1] == u[1]; }
    if |u| > 2 { assert s[2] == u[2]; }
  }

  /** Trimming removes white space, and all of it. */
  lemma {:induction false} TrimsWhite(white: Text, rest: Text)
    requires AllWhite(white) && WhiteLen(rest) == 0
    ensures TrimStart(white + rest) == rest
    decreases |white|
  {
    hide WhiteLen, Utf8, IsWhite, TrimStart;
    TrimUnfolds(white + rest);
    if white == [] {
      assert white + rest == rest;
    } else {
      var c: nat :| c < 0x1_0000 && IsWhite(c) && Utf8(c) <= white && AllWhite(white[|Utf8(c)|..]);
      BytesOfWhite(c, white + rest);
      assert (white + rest)[|Utf8(c)|..] == white[|Utf8(c)|..] + rest;
      TrimsWhite(white[|Utf8(c)|..], rest);
    }
  }

  lemma TrimUnfolds(s: Text)
    ensures TrimStart(s) == if WhiteLen(s) == 0 then s else TrimStart(s[WhiteLen(s)..])
  {
    hide WhiteLen;
  }

  lemma NothingIsWhite()
    ensures AllWhite([])
  {
  }

  lemma MoreWhite(c: nat, tail: Text)
    requires c < 0x1_0000 && IsWhite(c) && AllWhite(tail)
    ensures AllWhite(Utf8(c) + tail)
  {
    hide Utf8, IsWhite;
    assert (Utf8(c) + tail)[|Utf8(c)|..] == tail;
  }

  lemma {:induction false} TrimmedIsWhite(s: Text) returns (white: Text)
    ensures AllWhite(white) && s == white + TrimStart(s) && WhiteLen(TrimStart(s)) == 0
    decreases |s|
  {
    hide WhiteLen, Utf8, IsWhite, TrimStart, AllWhite;
    TrimUnfolds(s);
    if WhiteLen(s) == 0 {
      white := [];
      NothingIsWhite();
    } else {
      var c := WhiteOfBytes(s);
      var tail := TrimmedIsWhite(s[WhiteLen(s)..]);
      white := Utf8(c) + tail;
      MoreWhite(c, tail);
      assert s == s[..WhiteLen(s)] + s[WhiteLen(s)..];
    }
  }

  lemma NotWhite(start: Text, rest: Text)
    requires start != [] && 0x21 <= start[0] < 0x80
    ensures WhiteLen(start + rest) == 0
  {
  }

  /** White space, then `start`. */
  ghost predicate StartsWith(line: Text, start: Text) {
    exists white, rest :: AllWhite(white) && line == white + start + rest
  }

  /** What a trimmed line starts with, for a start that is no white space itself. */
  lemma StartsExactly(line: Text, start: Text)
    requires start != [] && 0x21 <= start[0] < 0x80
    ensures start <= TrimStart(line) <==> StartsWith(line, start)
  {
    hide TrimStart, AllWhite, WhiteLen;
    if start <= TrimStart(line) {
      var white := TrimmedIsWhite(line);
      assert line == white + start + TrimStart(line)[|start|..];
    }
    if StartsWith(line, start) {
      var white, rest :| AllWhite(white) && line == white + start + rest;
      assert white + start + rest == white + (start + rest);
      NotWhite(start, rest);
      TrimsWhite(white, start + rest);
    }
  }

  lemma BlankExactly(line: Text)
    ensures TrimStart(line) == [] <==> AllWhite(line)
  {
    if TrimStart(line) == [] {
      var white := TrimmedIsWhite(line);
      assert white + [] == white;
    }
    if AllWhite(line) {
      TrimsWhite(line, []);
      assert line + [] == line;
    }
  }

  // ----- The lines above an item -----

  /** White space, then `#[` or `///`. */
  ghost predicate IsMarked(line: Text) {
    StartsWith(line, [35, 91]) || StartsWith(line, [47, 47, 47])
  }

  /** The lines that go with the item below them. */
  lemma CrossedExactly(line: Text)
    ensures IsAttributeOrDoc(line) <==> IsMarked(line)
  {
    StartsExactly(line, [35, 91]);
    StartsExactly(line, [47, 47, 47]);
  }

  /** A comment with two slashes and no third, a blank line, and a line whose code starts otherwise are no such lines. */
  lemma OrdinaryLines(line: Text, c: Byte)
    ensures AllWhite(line) ==> !IsMarked(line)
    ensures StartsWith(line, [47, 47, c]) && c != 47 ==> !IsMarked(line)
    ensures StartsWith(line, [c]) && 0x21 <= c < 0x80 && c != 47 && c != 35 ==> !IsMarked(line)
    ensures StartsWith(line, [35, c]) && c != 91 ==> !IsMarked(line)
  {
    hide AllWhite, StartsWith, TrimStart;
    BlankExactly(line);
    StartsExactly(line, [35, 91]);
    StartsExactly(line, [47, 47, 47]);
    StartsExactly(line, [47, 47, c]);
    StartsExactly(line, [35, c]);
    if 0x21 <= c < 0x80 { StartsExactly(line, [c]); }
    FirstBytes(TrimStart(line), c);
  }

  lemma FirstBytes(s: Text, c: Byte)
    ensures [47, 47, c] <= s && c != 47 ==> !([35, 91] <= s) && !([47, 47, 47] <= s)
    ensures [35, c] <= s && c != 91 ==> !([35, 91] <= s) && !([47, 47, 47] <= s)
    ensures [c] <= s && c != 47 && c != 35 ==> !([35, 91] <= s) && !([47, 47, 47] <= s)
  {
    var comment: Text, hash: Text, doc: Text, attribute: Text := [47, 47, c], [35, c], [47, 47, 47], [35, 91];
    assert comment <= s ==> s[0] == comment[0] && s[2] == comment[2];
    assert hash <= s ==> s[0] == hash[0] && s[1] == hash[1];
    assert doc <= s ==> s[0] == doc[0] && s[2] == doc[2];
    assert attribute <= s ==> s[0] == attribute[0] && s[1] == attribute[1];
    assert [c] <= s ==> s[0] == [c][0];
  }

  predicate IsLine(line: Text) {
    line != [] && line[|line| - 1] == 10 && 10 !in line[..|line| - 1]
  }

  function Joined(lines: seq<Text>): Text {
    if lines == [] then [] else Joined(lines[..|lines| - 1]) + lines[|lines| - 1]
  }

  lemma LineStartAfter(before: Text, line: Text, rest: Text)
    requires (before == [] || before[|before| - 1] == 10) && IsLine(line)
    ensures LineStart(before + line + rest, |before + line| - 1) == |before|
  {
    var s, pos := before + line + rest, |before + line| - 1;
    var r := LineStart(s, pos);
    forall i | |before| <= i < pos ensures s[i] != 10 { assert s[i] == line[..|line| - 1][i - |before|]; }
    forall i | r <= i < pos ensures s[i] != 10 { assert s[i] == s[r..pos][i - r]; }
    assert before != [] ==> s[|before| - 1] == 10;
  }

  /** The walk goes up over the marked lines, and stops below the first other line. */
  lemma {:induction false} WalksOverMarked(before: Text, line: Text, marked: seq<Text>, rest: Text)
    requires (before == [] || before[|before| - 1] == 10) && IsLine(line) && !IsMarked(line)
    requires forall m :: m in marked ==> IsLine(m) && IsMarked(m)
    ensures PrefixStart(before + line + Joined(marked) + rest, 0, |before + line + Joined(marked)|) == |before + line|
    decreases |marked|
  {
    hide IsMarked, PrefixStart, IsAttributeOrDoc, LineStart;
    var s, above := before + line + Joined(marked) + rest, before + line + Joined(marked);
    PrefixUnfolds(s, 0, |above|);
    if marked == [] {
      assert Joined(marked) == [] && above == before + line && s == before + line + rest;
      LineStartAfter(before, line, rest);
      assert s[|before|..|above|] == line;
      CrossedExactly(line);
    } else {
      var n := |marked| - 1;
      var up, last := before + line + Joined(marked[..n]), marked[n];
      assert above == up + last && s == up + last + rest && s == before + line + Joined(marked[..n]) + (last + rest);
      JoinedEnds(before + line, marked[..n]);
      LineStartAfter(up, last, rest);
      assert s[|up|..|above|] == last;
      CrossedExactly(last);
      WalksOverMarked(before, line, marked[..n], last + rest);
    }
  }

  lemma {:induction false} JoinedEnds(before: Text, lines: seq<Text>)
    requires (before == [] || before[|before| - 1] == 10) && forall l :: l in lines ==> IsLine(l)
    ensures var s := before + Joined(lines); s == [] || s[|s| - 1] == 10
  {
    if lines == [] {
      assert before + Joined(lines) == before;
    } else {
      assert lines[|lines| - 1] in lines;
    }
  }

  lemma JoinedMore(lines: seq<Text>, line: Text)
    ensures Joined([line] + lines) == line + Joined(lines)
  {
    if lines == [] {
      assert [line] + lines == [line] && [line][..0] == [];
    } else {
      var n := |lines| - 1;
      assert ([line] + lines)[..n + 1] == [line] + lines[..n];
      JoinedMore(lines[..n], line);
    }
  }

  /**
   When an item changes, the attributes and doc comments directly above it are replaced with it, and whatever
   stands above those stays: a comment, a blank line, code.
   */
  lemma LineAboveStays(before: Text, line: Text, marked: seq<Text>, code: Text, item: Text, after: Text)
    requires (before == [] || before[|before| - 1] == 10) && IsLine(line) && !IsMarked(line)
    requires forall m :: m in marked ==> IsLine(m) && IsMarked(m)
    requires var src := before + line + Joined(marked) + code; var top := |before + line + Joined(marked)|;
             && Anchor(item).Some? && Find(src, Anchor(item).value, 0).Some? && code != []
             && top <= Find(src, Anchor(item).value, 0).value && 10 !in src[top..Find(src, Anchor(item).value, 0).value]
    requires after != item
    ensures var src := before + line + Joined(marked) + code; var head := before + line;
            exists end :: |head| < end <= |src| && Locate(src, [item], 0) == Some([Span(|head|, end)])
                          && Ordered([Span(|head|, end)], 0, |src|)
                          && ReplaceChanged(src, [Span(|head|, end)], [item], [after]) == head + after + src[end..]
  {
    hide *;
    var src, above := before + line + Joined(marked) + code, before + line + Joined(marked);
    var pos := Find(src, Anchor(item).value, 0).value;
    assert above == (before + line) + Joined(marked);
    AllLines(line, marked);
    JoinedEnds(before + line, marked);
    LineStartIs(src, |above|, pos);
    WalksOverMarked(before, line, marked, code);
    assert |src| == |above| + |code| && |above| >= |before + line|;
    var start, end := |before + line|, |before + line| + ItemLen(src[|before + line|..], 0, false);
    SpanIs(src, item, pos, |above|, start);
    SomeItem(src[start..]);
    OneSpan(src, item, Span(start, end), after);
    assert src[..start] == before + line;
  }

  lemma AllLines(line: Text, marked: seq<Text>)
    requires IsLine(line) && forall m :: m in marked ==> IsLine(m) && IsMarked(m)
    ensures line != [] && line[|line| - 1] == 10 && forall m :: m in marked ==> IsLine(m)
  {
    hide IsMarked;
  }

  lemma LineStartIs(s: Text, top: nat, pos: nat)
    requires top <= pos <= |s| && (top == 0 || s[top - 1] == 10) && 10 !in s[top..pos]
    ensures LineStart(s, pos) == top
  {
    var r := LineStart(s, pos);
    forall i | top <= i < pos ensures s[i] != 10 { assert s[i] == s[top..pos][i - top]; }
    forall i | r <= i < pos ensures s[i] != 10 { assert s[i] == s[r..pos][i - r]; }
  }

  lemma SpanIs(src: Text, item: Text, pos: nat, top: nat, start: nat)
    requires Anchor(item).Some? && Find(src, Anchor(item).value, 0) == Some(pos) && LineStart(src, pos) == top
    requires PrefixStart(src, 0, top) == start
    ensures ItemSpan(src, 0, item) == Span(start, start + ItemLen(src[start..], 0, false))
  {
    hide Anchor, Find, LineStart, PrefixStart, ItemLen;
  }

  lemma SomeItem(s: Text)
    requires s != []
    ensures 0 < ItemLen(s, 0, false) <= |s|
  {
    hide SkipLen;
  }

  lemma OneSpan(src: Text, item: Text, span: Span, after: Text)
    requires ItemSpan(src, 0, item) == span && span.start < span.end <= |src| && after != item
    ensures Locate(src, [item], 0) == Some([span]) && Ordered([span], 0, |src|)
    ensures ReplaceChanged(src, [span], [item], [after]) == src[..span.start] + after + src[span.end..]
  {
    hide ItemSpan;
    assert [item][1..] == [] && Locate(src, [], span.end) == Some([]) && [span] + [] == [span];
  }

  // ----- The line that locates an item -----

  /** Neither blank, nor a comment, nor an attribute. */
  ghost predicate Locating(line: Text) {
    !AllWhite(line) && !StartsWith(line, [47, 47]) && !StartsWith(line, [35, 91])
  }

  lemma LocatingExactly(line: Text)
    ensures CanAnchor(line) <==> Locating(line)
  {
    BlankExactly(line);
    StartsExactly(line, [47, 47]);
    StartsExactly(line, [35, 91]);
  }

  /** A line without its line ending. */
  function Content(line: Text): Text
    requires IsLine(line)
  {
    if |line| > 1 && line[|line| - 2] == 13 then line[..|line| - 2] else line[..|line| - 1]
  }

  /** `a` is what the lines of `s` start with: the text ends behind it, or a line ending follows. */
  predicate IsFirst(a: Text, s: Text) {
    && a <= s && 10 !in a
    && var rest := s[|a|..];
       rest == [] || (rest[0] == 10 && (a == [] || a[|a| - 1] != 13)) || [13, 10] <= rest
  }

  lemma FirstLineExactly(s: Text, a: Text)
    ensures FirstLine(s) == a <==> IsFirst(a, s)
  {
    var n := LineLen(s);
    forall i | 0 <= i < n ensures s[i] != 10 { assert s[i] == s[..n][i]; }
    if IsFirst(a, s) {
      assert a == s[..|a|];
      forall i | 0 <= i < |a| ensures s[i] != 10 { assert s[i] == a[i] && a[i] in a; }
      var rest := s[|a|..];
      assert rest != [] ==> rest[0] == s[|a|];
      assert [13, 10] <= rest ==> rest[1] == s[|a| + 1] == 10;
      assert n >= |a|;
    }
    if FirstLine(s) == a {
      assert [13, 10] <= s[|a|..] <==> |s| >= |a| + 2 && s[|a|] == 13 && s[|a| + 1] == 10;
    }
  }

  /** The first lines of `item` locate nothing; `a` is the next one, and does. */
  ghost predicate Locates(item: Text, skipped: seq<Text>, a: Text) {
    && (forall l :: l in skipped ==> IsLine(l) && !Locating(Content(l)))
    && Joined(skipped) <= item && IsFirst(a, item[|Joined(skipped)|..]) && Locating(a)
  }

  lemma ContentIsFirst(line: Text, rest: Text)
    requires IsLine(line)
    ensures FirstLine(line + rest) == Content(line) && LineLen(line + rest) == |line| - 1
  {
    var s := line + rest;
    var n := LineLen(s);
    forall i | 0 <= i < n ensures s[i] != 10 { assert s[i] == s[..n][i]; }
    forall i | 0 <= i < |line| - 1 ensures s[i] != 10 { assert s[i] == line[..|line| - 1][i]; }
    assert s[|line| - 1] == 10;
  }

  lemma AnchorUnfolds(item: Text)
    ensures Anchor(item) == if item == [] then None
                            else if CanAnchor(FirstLine(item)) then Some(FirstLine(item))
                            else if LineLen(item) == |item| then None
                            else Anchor(item[LineLen(item) + 1..])
  {
    hide CanAnchor, FirstLine, LineLen;
  }

  /** What `Anchor` finds is such a line. */
  lemma {:induction false} AnchorLocates(item: Text) returns (skipped: seq<Text>)
    requires Anchor(item).Some?
    ensures Locates(item, skipped, Anchor(item).value)
    decreases |item|
  {
    hide Anchor, Locating, FirstLine, CanAnchor, IsFirst;
    AnchorUnfolds(item);
    LocatingExactly(FirstLine(item));
    FirstLineExactly(item, FirstLine(item));
    if CanAnchor(FirstLine(item)) {
      skipped := [];
      assert item[0..] == item;
    } else {
      var n := LineLen(item) + 1;
      var line, rest := item[..n], item[n..];
      assert item == line + rest;
      FirstIsLine(item);
      ContentIsFirst(line, rest);
      var more := AnchorLocates(rest);
      skipped := [line] + more;
      JoinedMore(more, line);
      assert item[|Joined(skipped)|..] == rest[|Joined(more)|..];
      assert forall l :: l in skipped ==> l == line || l in more;
    }
  }

  lemma FirstIsLine(s: Text)
    requires LineLen(s) < |s|
    ensures IsLine(s[..LineLen(s) + 1])
  {
    var n := LineLen(s);
    assert s[..n + 1][..n] == s[..n];
  }

  /** And such a line is what it finds. */
  lemma {:induction false} LocatesAnchor(item: Text, skipped: seq<Text>, a: Text)
    requires Locates(item, skipped, a)
    ensures Anchor(item) == Some(a)
    decreases |skipped|
  {
    hide Anchor, Locating, FirstLine, CanAnchor, IsFirst;
    AnchorUnfolds(item);
    if skipped == [] {
      assert item[0..] == item;
      FirstLineExactly(item, a);
      LocatingExactly(a);
      NothingLocates(item, a);
    } else {
      var line, more := skipped[0], skipped[1..];
      assert skipped == [line] + more && line in skipped;
      JoinedMore(more, line);
      var rest := item[|line|..];
      assert line <= Joined(skipped) <= item;
      assert item == line + rest && Joined(more) <= rest && rest[|Joined(more)|..] == item[|Joined(skipped)|..];
      ContentIsFirst(line, rest);
      LocatingExactly(Content(line));
      LocatesAnchor(rest, more, a);
    }
  }

  lemma NothingLocates(item: Text, a: Text)
    requires IsFirst(a, item) && Locating(a)
    ensures item != []
  {
    NothingIsWhite();
  }

  /** The line that locates an item: its first one that is neither blank, nor a comment, nor an attribute. */
  lemma AnchorExactly(item: Text, a: Text)
    ensures Anchor(item) == Some(a) <==> exists skipped :: Locates(item, skipped, a)
  {
    hide *;
    if Anchor(item) == Some(a) {
      var skipped := AnchorLocates(item);
    }
    if skipped :| Locates(item, skipped, a) {
      LocatesAnchor(item, skipped, a);
    }
  }
}
