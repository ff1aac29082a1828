/**
 The codemod's splicer: it finds each item of a file by its formatted text and replaces the source of
 the items that changed. The formatted texts of the old and new items are inputs.
 */
module MigrateV2 {
  import opened Wrappers
  import opened ItemScanner

  datatype Span = Span(start: nat, end: nat)

  // ----- Lines and trimming -----

  /** Length of the white-space character that `s` starts with, or zero. */
  function WhiteLen(s: Text): (n: nat)
    ensures n <= |s|
  {
    if s == [] then 0
    else if 9 <= s[0] <= 13 || s[0] == 32 then 1
    else if |s| >= 2 && s[0] == 0xC2 && (s[1] == 0x85 || s[1] == 0xA0) then 2
    else if |s| >= 3 && s[0] == 0xE1 && s[1] == 0x9A && s[2] == 0x80 then 3
    else if |s| >= 3 && s[0] == 0xE2 && s[1] == 0x80
      && (0x80 <= s[2] <= 0x8A || s[2] == 0xA8 || s[2] == 0xA9 || s[2] == 0xAF) then 3
    else if |s| >= 3 && s[0] == 0xE2 && s[1] == 0x81 && s[2] == 0x9F then 3
    else if |s| >= 3 && s[0] == 0xE3 && s[1] == 0x80 && s[2] == 0x80 then 3
    else 0
  }

  function TrimStart(s: Text): Text {
    if WhiteLen(s) == 0 then s else TrimStart(s[WhiteLen(s)..])
  }

  predicate IsAttributeOrDoc(line: Text) {
    [HASH, LEFT_BRACKET] <= TrimStart(line) || [SLASH, SLASH, SLASH] <= TrimStart(line)
  }

  /** A line that can locate its item: not blank, a comment or an attribute. */
  predicate CanAnchor(line: Text) {
    TrimStart(line) != [] && !([SLASH, SLASH] <= TrimStart(line)) && !([HASH, LEFT_BRACKET] <= TrimStart(line))
  }

  /** The first line of `s`, without its line ending. */
  function FirstLine(s: Text): Text {
    var n := LineLen(s);
    if 0 < n < |s| && s[n - 1] == CR then s[..n - 1] else s[..n]
  }

  /** The first line of the formatted item that can locate it. */
  function Anchor(item: Text): Option<Text>
    decreases |item|
  {
    if item == [] then None
    else if CanAnchor(FirstLine(item)) then Some(FirstLine(item))
    else if LineLen(item) == |item| then None
    else Anchor(item[LineLen(item) + 1..])
  }

  /** The first position at or after `from` where `pattern` occurs. */
  function Find(s: Text, pattern: Text, from: nat): (r: Option<nat>)
    requires from <= |s|
    ensures r.Some? ==> from <= r.value <= |s| && pattern <= s[r.value..]
    ensures r.Some? ==> forall p :: from <= p < r.value ==> !(pattern <= s[p..])
    ensures r.None? ==> forall p :: from <= p <= |s| ==> !(pattern <= s[p..])
    decreases |s| - from
  {
    if pattern <= s[from..] then Some(from)
    else if from == |s| then None
    else Find(s, pattern, from + 1)
  }

  /** The start of the line that `pos` is on. */
  function LineStart(s: Text, pos: nat): (r: nat)
    requires pos <= |s|
    ensures r <= pos && (r == 0 || s[r - 1] == LF) && LF !in s[r..pos]
  {
    if pos == 0 || s[pos - 1] == LF then pos
    else
      var r := LineStart(s, pos - 1);
      assert s[r..pos] == s[r..pos - 1] + [s[pos - 1]];
      r
  }

  // ----- Finding an item -----

  /** The attribute and doc-comment lines directly above `start`, down to the limit `from`. */
  function PrefixStart(s: Text, from: nat, start: nat): (r: nat)
    requires start <= |s|
    ensures r <= start
    decreases start
  {
    if start <= from || start == 0 then start
    else
      var previous := LineStart(s, start - 1);
      if IsAttributeOrDoc(s[previous..start]) then PrefixStart(s, from, previous) else start
  }

  method FindItemStartWithPrefix(src: Text, searchFrom: nat, itemStart: nat) returns (start: nat)
    requires itemStart <= |src|
    ensures start == PrefixStart(src, searchFrom, LineStart(src, itemStart))
  {
    hide *;
    start := LineStart(src, itemStart);
    while start > searchFrom
      invariant start <= |src|
      invariant PrefixStart(src, searchFrom, start) == PrefixStart(src, searchFrom, LineStart(src, itemStart))
    {
      PrefixUnfolds(src, searchFrom, start);
      var previousEnd := start - 1;
      var previousStart := LineStart(src, previousEnd);
      if IsAttributeOrDoc(src[previousStart..start]) {
        start := previousStart;
      } else {
        break;
      }
    }
    PrefixUnfolds(src, searchFrom, start);
  }

  lemma PrefixUnfolds(s: Text, from: nat, start: nat)
    requires start <= |s|
    ensures PrefixStart(s, from, start) ==
            if start <= from || start == 0 || !IsAttributeOrDoc(s[LineStart(s, start - 1)..start]) then start
            else PrefixStart(s, from, LineStart(s, start - 1))
  {
  }

  /** `s[a..b]` is a run of whole lines, each an attribute or a doc comment. */
  ghost predicate AttributeLines(s: Text, a: nat, b: nat)
    requires b <= |s|
    decreases b - a
  {
    a <= b && (a == b || exists e :: a < e <= b && IsAttributeLine(s, a, e) && AttributeLines(s, e, b))
  }

  predicate IsAttributeLine(s: Text, a: nat, e: nat)
    requires a < e <= |s|
  {
    s[e - 1] == LF && LF !in s[a..e - 1] && IsAttributeOrDoc(s[a..e])
  }

  /**
   The backward walk ends at a line start; every line it crosses is an attribute or doc comment; it
   stops at the limit or below a line that is neither.
   */
  lemma {:induction false} PrefixIsAttributes(s: Text, from: nat, start: nat)
    requires start <= |s| && (start == 0 || s[start - 1] == LF)
    ensures var r := PrefixStart(s, from, start);
            && (r == 0 || s[r - 1] == LF)
            && AttributeLines(s, r, start)
            && (r <= from || r == 0 || !IsAttributeOrDoc(s[LineStart(s, r - 1)..r]))
    decreases start
  {
    hide *;
    PrefixUnfolds(s, from, start);
    if start <= from || start == 0 || !IsAttributeOrDoc(s[LineStart(s, start - 1)..start]) {
      NoLines(s, start);
    } else {
      var previous := LineStart(s, start - 1);
      PrefixIsAttributes(s, from, previous);
      OneLine(s, previous, start);
      AttributeLinesJoin(s, PrefixStart(s, from, previous), previous, start);
    }
  }

  lemma NoLines(s: Text, a: nat)
    requires a <= |s|
    ensures AttributeLines(s, a, a)
  {
  }

  lemma OneLine(s: Text, a: nat, b: nat)
    requires a < b <= |s| && s[b - 1] == LF && LF !in s[a..b - 1] && IsAttributeOrDoc(s[a..b])
    ensures AttributeLines(s, a, b)
  {
    hide IsAttributeOrDoc;
    assert IsAttributeLine(s, a, b) && AttributeLines(s, b, b);
  }

  lemma {:induction false} AttributeLinesJoin(s: Text, a: nat, b: nat, c: nat)
    requires b <= c <= |s| && AttributeLines(s, a, b) && AttributeLines(s, b, c)
    ensures AttributeLines(s, a, c)
    decreases b - a
  {
    hide IsAttributeLine;
    if a < b {
      var e :| a < e <= b && IsAttributeLine(s, a, e) && AttributeLines(s, e, b);
      AttributeLinesJoin(s, e, b, c);
    }
  }

  /** The span of the item whose formatted text is `item`; an empty span when it has no anchor or none is found. */
  function ItemSpan(src: Text, from: nat, item: Text): (r: Span)
    requires from <= |src|
    ensures r.start <= r.end <= |src|
  {
    var anchor := Anchor(item);
    if anchor.None? then Span(from, from)
    else
      var found := Find(src, anchor.value, from);
      if found.None? then Span(from, from)
      else
        var start := PrefixStart(src, from, LineStart(src, found.value));
        Span(start, start + ItemLen(src[start..], 0, false))
  }

  /** The span is empty when no line locates the item, or its line does not occur; otherwise it runs to the scanner's end. */
  lemma SpanExactly(src: Text, from: nat, item: Text)
    requires from <= |src|
    ensures var span, anchor := ItemSpan(src, from, item), Anchor(item);
            if anchor.Some? && exists p :: from <= p <= |src| && anchor.value <= src[p..]
            then span.end == span.start + ItemLen(src[span.start..], 0, false) else span == Span(from, from)
  {
    hide Anchor, PrefixStart, LineStart, ItemLen;
  }

  method FindItemInSource(src: Text, searchFrom: nat, item: Text) returns (r: Span)
    requires searchFrom <= |src|
    ensures r == ItemSpan(src, searchFrom, item)
  {
    var anchor := Anchor(item);
    if anchor.None? {
      return Span(searchFrom, searchFrom);
    }
    var found := Find(src, anchor.value, searchFrom);
    if found.None? {
      return Span(searchFrom, searchFrom);
    }
    var start := FindItemStartWithPrefix(src, searchFrom, found.value);
    var endOffset := FindItemEndOffset(src[start..]);
    return Span(start, start + endOffset);
  }

  // ----- Splicing -----

  /** The spans of the items, each searched for after the one before; `None` when one of them is unusable. */
  function Locate(src: Text, items: seq<Text>, from: nat): Option<seq<Span>>
    requires from <= |src|
  {
    if items == [] then Some([])
    else
      var span := ItemSpan(src, from, items[0]);
      if span.start < from || span.start >= span.end then None
      else match Locate(src, items[1..], span.end)
           case None => None
           case Some(rest) => Some([span] + rest)
  }

  /** Nonempty spans in source order, without overlap, from `from` up to the end. */
  ghost predicate Ordered(spans: seq<Span>, from: nat, end: nat) {
    && (forall i :: 0 <= i < |spans| ==> from <= spans[i].start < spans[i].end <= end)
    && (forall i, j :: 0 <= i < j < |spans| ==> spans[i].end <= spans[j].start)
  }

  lemma {:induction false} LocateIsOrdered(src: Text, items: seq<Text>, from: nat)
    requires from <= |src| && Locate(src, items, from).Some?
    ensures var spans := Locate(src, items, from).value; |spans| == |items| && Ordered(spans, from, |src|)
  {
    hide ItemSpan;
    if items != [] {
      LocateIsOrdered(src, items[1..], ItemSpan(src, from, items[0]).end);
    }
  }

  /** Replaces one span; the text before and after it is untouched. */
  function ReplaceSpan(src: Text, span: Span, text: Text): Text
    requires span.start <= span.end <= |src|
  {
    src[..span.start] + text + src[span.end..]
  }

  /** Replaces the spans of the items that changed, the last one first. */
  function ReplaceChanged(src: Text, spans: seq<Span>, before: seq<Text>, after: seq<Text>): Text
    requires |spans| == |before| == |after| && Ordered(spans, 0, |src|)
    decreases |spans|
  {
    if spans == [] then src
    else
      var n := |spans| - 1;
      var src' := if before[n] == after[n] then src else ReplaceSpan(src, spans[n], after[n]);
      ReplaceChanged(src', spans[..n], before[..n], after[..n])
  }

  lemma ReplaceSpanIsLocal(src: Text, tail: Text, span: Span, text: Text)
    requires span.start <= span.end <= |src|
    ensures ReplaceSpan(src + tail, span, text) == ReplaceSpan(src, span, text) + tail
    ensures |ReplaceSpan(src, span, text)| >= span.start
  {
  }

  /** Text past all the spans is carried along. */
  lemma {:induction false} ReplaceIsLocal(src: Text, tail: Text, spans: seq<Span>, before: seq<Text>, after: seq<Text>)
    requires |spans| == |before| == |after| && Ordered(spans, 0, |src|)
    ensures Ordered(spans, 0, |src + tail|)
    ensures ReplaceChanged(src + tail, spans, before, after) == ReplaceChanged(src, spans, before, after) + tail
    decreases |spans|
  {
    OrderedWidens(spans, |src|, |src + tail|);
    if spans == [] {
      assert ReplaceChanged(src + tail, spans, before, after) == src + tail;
    } else {
      hide *;
      var n := |spans| - 1;
      ReplaceUnfolds(src, spans, before, after);
      ReplaceUnfolds(src + tail, spans, before, after);
      ReplaceSpanIsLocal(src, tail, spans[n], after[n]);
      var src' := if before[n] == after[n] then src else ReplaceSpan(src, spans[n], after[n]);
      ReplaceIsLocal(src', tail, spans[..n], before[..n], after[..n]);
    }
  }

  lemma OrderedWidens(spans: seq<Span>, end: nat, end': nat)
    requires Ordered(spans, 0, end) && end <= end'
    ensures Ordered(spans, 0, end')
  {
  }

  lemma ReplaceUnfolds(src: Text, spans: seq<Span>, before: seq<Text>, after: seq<Text>)
    requires |spans| == |before| == |after| && Ordered(spans, 0, |src|) && spans != []
    ensures var n := |spans| - 1;
            && spans[n].start <= spans[n].end <= |src|
            && var src' := if before[n] == after[n] then src else ReplaceSpan(src, spans[n], after[n]);
               && Ordered(spans[..n], 0, |src'|)
               && ReplaceChanged(src, spans, before, after) == ReplaceChanged(src', spans[..n], before[..n], after[..n])
  {
  }

  lemma CancelRight(a: Text, b: Text, tail: Text)
    requires a + tail == b + tail
    ensures a == b
  {
    assert |a + tail| == |a| + |tail| && |b + tail| == |b| + |tail|;
    assert a == (a + tail)[..|a|] && b == (b + tail)[..|b|];
  }

  /** The last span is replaced first. */
  lemma ReplaceLast(src: Text, spans: seq<Span>, before: seq<Text>, after: seq<Text>, span: Span, old1: Text, new1: Text)
    requires |spans| == |before| == |after| && Ordered(spans + [span], 0, |src|) && Ordered(spans, 0, span.start)
    requires span.start < span.end <= |src|
    ensures var src' := src[..span.start] + (if old1 == new1 then src[span.start..span.end] else new1) + src[span.end..];
            && Ordered(spans, 0, |src'|)
            && ReplaceChanged(src, spans + [span], before + [old1], after + [new1]) == ReplaceChanged(src', spans, before, after)
  {
    assert (spans + [span])[..|spans|] == spans && (before + [old1])[..|before|] == before && (after + [new1])[..|after|] == after;
    assert src == src[..span.start] + src[span.start..span.end] + src[span.end..];
  }

  lemma OrderedMore(spans: seq<Span>, pos: nat, span: Span, end: nat)
    requires Ordered(spans, 0, pos) && pos <= span.start < span.end <= end
    ensures Ordered(spans, 0, span.start) && Ordered(spans + [span], 0, span.end) && Ordered(spans + [span], 0, end)
  {
  }

  /** Appending one more span extends what has been copied so far by the gap and the item. */
  lemma ReplaceOneMore(src: Text, spans: seq<Span>, before: seq<Text>, after: seq<Text>, copied: Text, pos: nat,
                       span: Span, old1: Text, new1: Text)
    requires |spans| == |before| == |after| && pos <= |src| && Ordered(spans, 0, pos) && Ordered(spans, 0, |src|)
    requires copied + src[pos..] == ReplaceChanged(src, spans, before, after)
    requires pos <= span.start < span.end <= |src|
    ensures Ordered(spans + [span], 0, span.end) && Ordered(spans + [span], 0, |src|)
    ensures copied + src[pos..span.start] + (if old1 == new1 then src[span.start..span.end] else new1) + src[span.end..]
            == ReplaceChanged(src, spans + [span], before + [old1], after + [new1])
  {
    hide *;
    var item := if old1 == new1 then src[span.start..span.end] else new1;
    var head, tail := src[..pos], src[pos..span.start] + item + src[span.end..];
    OrderedMore(spans, pos, span, |src|);
    ReplaceLast(src, spans, before, after, span, old1, new1);
    Pieces(src, copied, item, pos, span);
    ReplaceIsLocal(head, src[pos..], spans, before, after);
    CancelRight(ReplaceChanged(head, spans, before, after), copied, src[pos..]);
    ReplaceIsLocal(head, tail, spans, before, after);
  }

  lemma Pieces(src: Text, copied: Text, item: Text, pos: nat, span: Span)
    requires pos <= span.start < span.end <= |src|
    ensures src == src[..pos] + src[pos..]
    ensures src[..span.start] + item + src[span.end..] == src[..pos] + (src[pos..span.start] + item + src[span.end..])
    ensures copied + src[pos..span.start] + item + src[span.end..] == copied + (src[pos..span.start] + item + src[span.end..])
  {
  }

  /** `unparsed` is the whole new file, formatted afresh. */
  method ApplyChangesPreservingFormatting(src: Text, before: seq<Text>, after: seq<Text>, unparsed: Text)
    returns (out: Text)
    ensures |before| != |after| || Locate(src, before, 0).None? ==> out == unparsed
    ensures |before| == |after| && Locate(src, before, 0).Some? ==>
      var spans := Locate(src, before, 0).value;
      && |spans| == |before| && Ordered(spans, 0, |src|)
      && out == ReplaceChanged(src, spans, before, after)
  {
    hide ItemSpan, ReplaceChanged, Locate, Ordered;
    if |before| != |after| {
      return unparsed;
    }
    var result: Text := [];
    var lastPos: nat := 0;
    ghost var spans: seq<Span> := [];
    NothingReplaced(src, before, after);
    for i := 0 to |before|
      invariant |spans| == i && lastPos <= |src|
      invariant Ordered(spans, 0, lastPos) && Ordered(spans, 0, |src|)
      invariant LocatedSoFar(src, before, i, spans, lastPos)
      invariant result + src[lastPos..] == ReplaceChanged(src, spans, before[..i], after[..i])
    {
      var span := FindItemInSource(src, lastPos, before[i]);
      LocateNext(src, before, i, spans, lastPos);
      if span.start < lastPos || span.start >= span.end || span.end > |src| {
        return unparsed;
      }
      ReplaceOneMore(src, spans, before[..i], after[..i], result, lastPos, span, before[i], after[i]);
      assert before[..i + 1] == before[..i] + [before[i]] && after[..i + 1] == after[..i] + [after[i]];
      result := result + src[lastPos..span.start];
      if before[i] == after[i] {
        result := result + src[span.start..span.end];
      } else {
        result := result + after[i];
      }
      spans := spans + [span];
      lastPos := span.end;
    }
    AllLocated(src, before, spans, lastPos);
    assert before[..|before|] == before && after[..|after|] == after;
    if lastPos < |src| {
      result := result + src[lastPos..];
    }
    return result;
  }

  /** The first `i` items sit at `spans`; the rest are searched for from `pos` on. */
  ghost predicate LocatedSoFar(src: Text, items: seq<Text>, i: nat, spans: seq<Span>, pos: nat)
    requires i <= |items| && pos <= |src|
  {
    Locate(src, items, 0) == match Locate(src, items[i..], pos)
                             case None => None
                             case Some(rest) => Some(spans + rest)
  }

  lemma NothingReplaced(src: Text, before: seq<Text>, after: seq<Text>)
    requires |before| == |after|
    ensures Ordered([], 0, 0) && Ordered([], 0, |src|) && ReplaceChanged(src, [], before[..0], after[..0]) == src
    ensures LocatedSoFar(src, before, 0, [], 0) && [] + src[0..] == src
  {
    assert before[0..] == before;
    if Locate(src, before, 0).Some? { assert [] + Locate(src, before, 0).value == Locate(src, before, 0).value; }
  }

  lemma LocateNext(src: Text, items: seq<Text>, i: nat, spans: seq<Span>, pos: nat)
    requires i < |items| && pos <= |src| && LocatedSoFar(src, items, i, spans, pos)
    ensures var span := ItemSpan(src, pos, items[i]);
            if span.start < pos || span.start >= span.end || span.end > |src| then Locate(src, items, 0).None?
            else LocatedSoFar(src, items, i + 1, spans + [span], span.end)
  {
    hide ItemSpan;
    var span := ItemSpan(src, pos, items[i]);
    assert items[i..][1..] == items[i + 1..];
    if !(span.start < pos || span.start >= span.end) && Locate(src, items[i + 1..], span.end).Some? {
      var rest := Locate(src, items[i + 1..], span.end).value;
      assert spans + ([span] + rest) == (spans + [span]) + rest;
    }
  }

  lemma AllLocated(src: Text, items: seq<Text>, spans: seq<Span>, pos: nat)
    requires pos <= |src| && LocatedSoFar(src, items, |items|, spans, pos)
    ensures Locate(src, items, 0) == Some(spans)
  {
    assert items[|items|..] == [];
    assert spans + [] == spans;
  }

  /** A run in which no item changes returns the source byte for byte, unless it falls back. */
  lemma {:induction false} UnchangedIsIdentity(src: Text, spans: seq<Span>, items: seq<Text>)
    requires |spans| == |items| && Ordered(spans, 0, |src|)
    ensures ReplaceChanged(src, spans, items, items) == src
    decreases |spans|
  {
    if spans != [] {
      UnchangedIsIdentity(src, spans[..|spans| - 1], items[..|items| - 1]);
    }
  }
}
