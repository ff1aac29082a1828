/**
 The splicer on whole files, where items stand as their formatted texts say: the part of each item that it
 finds, and what it leaves behind of the items that it does not find whole.
 */
module MigrateLayout {
  import opened Wrappers
  import opened ItemScanner
  import opened ItemTokens
  import opened LanguageItems
  import opened MigrateV2

  // ----- What a well laid out file is -----

  /** From `span.start` on the source is a list of tokens; the first `count` of them are an item and stand at `span`. */
  ghost predicate ItemAt(src: Text, span: Span, ts: seq<Token>, count: nat) {
    && span.start < span.end <= |src|
    && Tokens(ts) && count <= |ts| && IsItem(ts[..count])
    && Render(ts) == src[span.start..] && Render(ts[..count]) == src[span.start..span.end]
  }

  ghost predicate HoldsItem(src: Text, span: Span) {
    exists ts, count :: ItemAt(src, span, ts, count)
  }

  /** Neither a closing brace nor a semicolon stands in the head of the item. */
  ghost predicate HasPlainHead(src: Text, span: Span) {
    exists ts, count, b :: ItemAt(src, span, ts, count) && IsHead(ts[..count], b) && Close !in ts[..b] && Semi !in ts[..b]
  }

  /** `start` is where the attributes above the line at `l` begin: nothing more of the kind stands above it. */
  ghost predicate BeginsAt(src: Text, from: nat, start: nat, l: nat)
    requires l <= |src|
  {
    && AttributeLines(src, start, l)
    && (start == 0 || src[start - 1] == LF)
    && (start <= from || start == 0 || !IsAttributeOrDoc(src[LineStart(src, start - 1)..start]))
  }

  /** The item's anchor occurs, first after `from`, on a line of its own with its attributes above. */
  ghost predicate Sits(src: Text, from: nat, item: Text, span: Span) {
    && from <= span.start && HoldsItem(src, span) && Anchor(item).Some?
    && var found := Find(src, Anchor(item).value, from);
       found.Some? && BeginsAt(src, from, span.start, LineStart(src, found.value))
  }

  /** The end that the scanner finds for the item at `span`. */
  function FoundEnd(src: Text, span: Span): nat
    requires span.start <= |src|
  {
    span.start + ItemLen(src[span.start..], 0, false)
  }

  /** The items sit at their spans, one after the other, each first anchored there after what was found of the one before. */
  ghost predicate LaidOut(src: Text, from: nat, items: seq<Text>, spans: seq<Span>)
    decreases |items|
  {
    && |items| == |spans|
    && (items == [] || (
      && Sits(src, from, items[0], spans[0])
      && (|spans| > 1 ==> spans[0].end <= spans[1].start)
      && LaidOut(src, FoundEnd(src, spans[0]), items[1..], spans[1..])))
  }

  // ----- The backward walk crosses exactly the attributes -----

  lemma {:induction false} LastAttributeLine(s: Text, a: nat, b: nat) returns (p: nat)
    requires a < b <= |s| && AttributeLines(s, a, b) && (a == 0 || s[a - 1] == LF)
    ensures a <= p < b && AttributeLines(s, a, p) && IsAttributeLine(s, p, b) && (p == 0 || s[p - 1] == LF)
    decreases b - a
  {
    hide IsAttributeLine;
    var e :| a < e <= b && IsAttributeLine(s, a, e) && AttributeLines(s, e, b);
    EndsInFeed(s, a, e);
    if e == b {
      p := a;
      assert AttributeLines(s, a, a);
    } else {
      p := LastAttributeLine(s, e, b);
      assert AttributeLines(s, a, p);
    }
  }

  lemma EndsInFeed(s: Text, a: nat, e: nat)
    requires a < e <= |s| && IsAttributeLine(s, a, e)
    ensures s[e - 1] == LF
  {
  }

  lemma LineStartsAt(s: Text, p: nat, b: nat)
    requires p < b <= |s| && IsAttributeLine(s, p, b) && (p == 0 || s[p - 1] == LF)
    ensures LineStart(s, b - 1) == p && IsAttributeOrDoc(s[p..b])
  {
    hide IsAttributeOrDoc;
    NoFeedWithin(s, p, b - 1);
    NoFeedWithin(s, LineStart(s, b - 1), b - 1);
  }

  lemma NoFeedWithin(s: Text, a: nat, b: nat)
    requires a <= b <= |s| && LF !in s[a..b]
    ensures forall i :: a <= i < b ==> s[i] != LF
  {
    forall i | a <= i < b ensures s[i] != LF { assert s[a..b][i - a] == s[i]; }
  }

  lemma {:induction false} WalksToStart(src: Text, from: nat, start: nat, l: nat)
    requires from <= start <= l <= |src| && BeginsAt(src, from, start, l)
    ensures PrefixStart(src, from, l) == start
    decreases l
  {
    hide *;
    BeginsFacts(src, from, start, l);
    PrefixUnfolds(src, from, l);
    if start < l {
      var p := LastAttributeLine(src, start, l);
      LineStartsAt(src, p, l);
      BeginsEarlier(src, from, start, l, p);
      WalksToStart(src, from, start, p);
    }
  }

  lemma BeginsFacts(src: Text, from: nat, start: nat, l: nat)
    requires l <= |src| && BeginsAt(src, from, start, l)
    ensures start <= l && AttributeLines(src, start, l) && (start == 0 || src[start - 1] == LF)
    ensures start <= from || start == 0 || !IsAttributeOrDoc(src[LineStart(src, start - 1)..start])
  {
  }

  lemma BeginsEarlier(src: Text, from: nat, start: nat, l: nat, p: nat)
    requires l <= |src| && BeginsAt(src, from, start, l) && p <= l && AttributeLines(src, start, p)
    ensures BeginsAt(src, from, start, p)
  {
    hide AttributeLines, IsAttributeOrDoc;
  }

  /**
   What the scanner finds of an item: all of it exactly when its head is plain, and otherwise a part of it
   behind which the item's last byte, a semicolon or a closing brace, is left.
   */
  lemma FindsPart(src: Text, span: Span)
    requires HoldsItem(src, span)
    ensures span.start < FoundEnd(src, span) <= span.end <= |src|
    ensures FoundEnd(src, span) == span.end <==> HasPlainHead(src, span)
    ensures src[span.end - 1] == SEMICOLON || src[span.end - 1] == RIGHT_BRACE
  {
    hide Tokens, Render, ItemLen, IsItem, Unbroken;
    var ts, count :| ItemAt(src, span, ts, count);
    var m := StopsWithin(ts, count);
    if m < count { ShorterRender(ts, m, count); }
    ShorterRender(ts, 0, m);
    var b := HasHead(ts[..count]);
    HeadIsShorter(ts[..count], b);
    FoundWholeExactly(ts, count, b);
    if HasPlainHead(src, span) {
      var ts', count', b' :| ItemAt(src, span, ts', count') && IsHead(ts'[..count'], b')
                             && Close !in ts'[..b'] && Semi !in ts'[..b'];
      FoundWholeExactly(ts', count', b');
    }
    LastByte(ts, count);
  }

  lemma LastByte(ts: seq<Token>, n: nat)
    requires n <= |ts| && IsItem(ts[..n])
    ensures var text := Render(ts[..n]); text != [] && text[|text| - 1] in {SEMICOLON, RIGHT_BRACE} && text[|text| - 1] != CR
  {
    ItemNests(ts[..n]);
    ShorterRender(ts, n - 1, n);
    assert ts[n - 1..n] == [ts[n - 1]] && ts[n - 1] == ts[..n][n - 1];
  }

  /** The span found for an item runs from where it sits to the end found. */
  lemma FindsItsSpan(src: Text, from: nat, item: Text, span: Span)
    requires from <= |src| && Sits(src, from, item, span)
    ensures span.start < FoundEnd(src, span) <= span.end <= |src|
    ensures ItemSpan(src, from, item) == Span(span.start, FoundEnd(src, span))
  {
    hide BeginsAt, PrefixStart, Anchor, ItemLen, HoldsItem, HasPlainHead;
    FindsPart(src, span);
    var found := Find(src, Anchor(item).value, from).value;
    BeginsFacts(src, from, span.start, LineStart(src, found));
    WalksToStart(src, from, span.start, LineStart(src, found));
  }

  /** What is found of the items. */
  function Found(src: Text, spans: seq<Span>): (found: seq<Span>)
    requires forall i :: 0 <= i < |spans| ==> spans[i].start <= |src|
    ensures |found| == |spans|
  {
    seq(|spans|, i requires 0 <= i < |spans| => Span(spans[i].start, FoundEnd(src, spans[i])))
  }

  /** In a well laid out file the items stand in order, and what is found of each is the front of it. */
  ghost predicate PartsFound(src: Text, from: nat, spans: seq<Span>) {
    && Ordered(spans, from, |src|)
    && (forall i :: 0 <= i < |spans| ==> HoldsItem(src, spans[i]))
    && (forall i :: 0 <= i < |spans| ==> spans[i].start < FoundEnd(src, spans[i]) <= spans[i].end)
  }

  lemma PartsStep(src: Text, from: nat, spans: seq<Span>)
    requires spans != [] && from <= spans[0].start && HoldsItem(src, spans[0]) && spans[0].end <= |src|
    requires spans[0].start < FoundEnd(src, spans[0]) <= spans[0].end
    requires |spans| > 1 ==> spans[0].end <= spans[1].start
    requires PartsFound(src, FoundEnd(src, spans[0]), spans[1..])
    ensures PartsFound(src, from, spans)
    ensures Found(src, spans) == [Span(spans[0].start, FoundEnd(src, spans[0]))] + Found(src, spans[1..])
  {
    hide HoldsItem, FoundEnd;
    var rest := spans[1..];
    forall i | 0 < i < |spans|
      ensures spans[0].end <= spans[i].start < spans[i].end <= |src| && HoldsItem(src, spans[i])
      ensures spans[i].start < FoundEnd(src, spans[i]) <= spans[i].end
    {
      assert spans[i] == rest[i - 1];
      assert i > 1 ==> rest[0].end <= rest[i - 1].start;
    }
    forall i, j | 0 < i < j < |spans| ensures spans[i].end <= spans[j].start {
      assert rest[i - 1].end <= rest[j - 1].start;
    }
  }

  /** In a well laid out file every item is located: its start exactly, and of the rest what the scanner finds. */
  lemma {:induction false} LocatesItems(src: Text, from: nat, items: seq<Text>, spans: seq<Span>)
    requires from <= |src| && LaidOut(src, from, items, spans)
    ensures PartsFound(src, from, spans) && Locate(src, items, from) == Some(Found(src, spans))
    decreases |items|
  {
    hide ItemSpan, HoldsItem, FoundEnd, PartsFound, BeginsAt, Anchor;
    if items == [] {
      NoParts(src, from);
    } else {
      FindsItsSpan(src, from, items[0], spans[0]);
      LocatesItems(src, FoundEnd(src, spans[0]), items[1..], spans[1..]);
      PartsStep(src, from, spans);
    }
  }

  lemma NoParts(src: Text, from: nat)
    ensures PartsFound(src, from, []) && Found(src, []) == []
  {
  }

  /** Every item is found whole exactly when every head is plain. */
  lemma FoundWhole(src: Text, spans: seq<Span>)
    requires PartsFound(src, 0, spans)
    ensures Found(src, spans) == spans <==> forall i :: 0 <= i < |spans| ==> HasPlainHead(src, spans[i])
  {
    hide HoldsItem, HasPlainHead, FoundEnd;
    forall i | 0 <= i < |spans| ensures Found(src, spans)[i] == spans[i] <==> HasPlainHead(src, spans[i]) {
      FindsPart(src, spans[i]);
    }
  }

  // ----- The output, front to back -----

  function EndOf(spans: seq<Span>): nat {
    if spans == [] then 0 else spans[|spans| - 1].end
  }

  /** The gaps of the source with these texts between them, up to the end of the last span. */
  ghost function Assembled(src: Text, spans: seq<Span>, texts: seq<Text>): Text
    requires |spans| == |texts| && Ordered(spans, 0, |src|)
  {
    if spans == [] then []
    else
      var n := |spans| - 1;
      FrontOrdered(spans, |src|);
      Assembled(src, spans[..n], texts[..n]) + src[EndOf(spans[..n])..spans[n].start] + texts[n]
  }

  lemma FrontOrdered(spans: seq<Span>, end: nat)
    requires Ordered(spans, 0, end) && spans != []
    ensures var n := |spans| - 1;
            && Ordered(spans[..n], 0, end) && Ordered(spans[..n], 0, EndOf(spans[..n]))
            && EndOf(spans[..n]) <= spans[n].start < spans[n].end <= end
  {
  }

  /** What stands for an item in the output: its source when it did not change, its new text when it did. */
  ghost function Rewritten(src: Text, spans: seq<Span>, before: seq<Text>, after: seq<Text>): (texts: seq<Text>)
    requires |spans| == |before| == |after| && Ordered(spans, 0, |src|)
    ensures |texts| == |spans|
  {
    seq(|spans|, i requires 0 <= i < |spans| =>
      if before[i] == after[i] then src[spans[i].start..spans[i].end] else after[i])
  }

  /** Replacing the changed items gives every gap of the source, in order, with the items as rewritten between them. */
  lemma {:induction false} ReplacedIsAssembled(src: Text, spans: seq<Span>, before: seq<Text>, after: seq<Text>)
    requires |spans| == |before| == |after| && Ordered(spans, 0, |src|)
    ensures EndOf(spans) <= |src|
    ensures ReplaceChanged(src, spans, before, after) ==
            Assembled(src, spans, Rewritten(src, spans, before, after)) + src[EndOf(spans)..]
    decreases |spans|
  {
    hide *;
    if spans == [] {
      NothingAssembled(src, before, after);
    } else {
      var n := |spans| - 1;
      FrontOrdered(spans, |src|);
      ReplacedIsAssembled(src, spans[..n], before[..n], after[..n]);
      AssembledUnfolds(src, spans, before, after);
      ReplaceOneMore(src, spans[..n], before[..n], after[..n],
                     Assembled(src, spans[..n], Rewritten(src, spans[..n], before[..n], after[..n])), EndOf(spans[..n]),
                     spans[n], before[n], after[n]);
      assert spans == spans[..n] + [spans[n]] && before == before[..n] + [before[n]] && after == after[..n] + [after[n]];
    }
  }

  lemma NothingAssembled(src: Text, before: seq<Text>, after: seq<Text>)
    requires before == after == [] && Ordered([], 0, |src|)
    ensures EndOf([]) == 0
    ensures ReplaceChanged(src, [], before, after) == Assembled(src, [], Rewritten(src, [], before, after)) + src[0..]
  {
    assert src[0..] == src;
  }

  lemma AssembledUnfolds(src: Text, spans: seq<Span>, before: seq<Text>, after: seq<Text>)
    requires |spans| == |before| == |after| && Ordered(spans, 0, |src|) && spans != []
    ensures var n := |spans| - 1;
            && Ordered(spans[..n], 0, |src|) && EndOf(spans[..n]) <= spans[n].start && EndOf(spans) == spans[n].end
            && Assembled(src, spans, Rewritten(src, spans, before, after)) ==
               Assembled(src, spans[..n], Rewritten(src, spans[..n], before[..n], after[..n]))
               + src[EndOf(spans[..n])..spans[n].start]
               + (if before[n] == after[n] then src[spans[n].start..spans[n].end] else after[n])
  {
    var n := |spans| - 1;
    FrontOrdered(spans, |src|);
    assert Rewritten(src, spans, before, after)[..n] == Rewritten(src, spans[..n], before[..n], after[..n]);
  }

  // ----- What the splice leaves behind -----

  /**
   What stands for an item in the output of a well laid out file: its source when it did not change, and
   otherwise its new text with what was not found of the old one behind it.
   */
  ghost function Spliced(src: Text, spans: seq<Span>, before: seq<Text>, after: seq<Text>): (texts: seq<Text>)
    requires |spans| == |before| == |after| && PartsFound(src, 0, spans)
    ensures |texts| == |spans|
  {
    seq(|spans|, i requires 0 <= i < |spans| =>
      if before[i] == after[i] then src[spans[i].start..spans[i].end]
      else after[i] + src[FoundEnd(src, spans[i])..spans[i].end])
  }

  lemma PartsOfFront(src: Text, spans: seq<Span>)
    requires PartsFound(src, 0, spans)
    ensures Ordered(spans, 0, |src|) && Ordered(Found(src, spans), 0, |src|)
    ensures EndOf(Found(src, spans)) <= EndOf(spans) <= |src|
    ensures forall i :: 0 <= i < |spans| ==> spans[i].start <= |src|
    ensures spans != [] ==>
      && PartsFound(src, 0, spans[..|spans| - 1])
      && Found(src, spans)[..|spans| - 1] == Found(src, spans[..|spans| - 1])
      && EndOf(spans[..|spans| - 1]) <= spans[|spans| - 1].start
  {
    hide HoldsItem, FoundEnd;
  }

  /** Between the parts found and the ends of the items lies what each was not found of. */
  lemma {:induction false} PartsAssembled(src: Text, spans: seq<Span>, before: seq<Text>, after: seq<Text>)
    requires |spans| == |before| == |after| && PartsFound(src, 0, spans)
    ensures Ordered(spans, 0, |src|) && Ordered(Found(src, spans), 0, |src|)
    ensures EndOf(Found(src, spans)) <= EndOf(spans) <= |src|
    ensures Assembled(src, Found(src, spans), Rewritten(src, Found(src, spans), before, after))
            + src[EndOf(Found(src, spans))..EndOf(spans)] == Assembled(src, spans, Spliced(src, spans, before, after))
    decreases |spans|
  {
    hide *;
    PartsOfFront(src, spans);
    if spans == [] {
      NothingSpliced(src, before, after);
    } else {
      var n := |spans| - 1;
      PartsAssembled(src, spans[..n], before[..n], after[..n]);
      PartUnfolds(src, spans, before, after);
    }
  }

  lemma NothingSpliced(src: Text, before: seq<Text>, after: seq<Text>)
    requires before == after == [] && PartsFound(src, 0, [])
    ensures EndOf([]) == 0 && Found(src, []) == [] && Ordered([], 0, |src|)
    ensures Assembled(src, [], Rewritten(src, [], before, after)) + src[0..0]
            == Assembled(src, [], Spliced(src, [], before, after))
  {
  }

  lemma SplicedUnfolds(src: Text, spans: seq<Span>, before: seq<Text>, after: seq<Text>)
    requires |spans| == |before| == |after| && PartsFound(src, 0, spans) && Ordered(spans, 0, |src|) && spans != []
    ensures var n := |spans| - 1;
            && PartsFound(src, 0, spans[..n]) && Ordered(spans[..n], 0, |src|) && EndOf(spans[..n]) <= spans[n].start
            && spans[n].start < FoundEnd(src, spans[n]) <= spans[n].end <= |src|
            && Assembled(src, spans, Spliced(src, spans, before, after)) ==
               Assembled(src, spans[..n], Spliced(src, spans[..n], before[..n], after[..n]))
               + src[EndOf(spans[..n])..spans[n].start]
               + (if before[n] == after[n] then src[spans[n].start..spans[n].end]
                  else after[n] + src[FoundEnd(src, spans[n])..spans[n].end])
  {
    hide FoundEnd, HoldsItem;
    var n := |spans| - 1;
    FrontOrdered(spans, |src|);
    PartsOfFront(src, spans);
    assert Spliced(src, spans, before, after)[..n] == Spliced(src, spans[..n], before[..n], after[..n]);
  }

  lemma PartUnfolds(src: Text, spans: seq<Span>, before: seq<Text>, after: seq<Text>)
    requires |spans| == |before| == |after| && PartsFound(src, 0, spans) && spans != []
    requires var n := |spans| - 1; var front, found := spans[..n], Found(src, spans[..n]);
             && PartsFound(src, 0, front) && Ordered(front, 0, |src|) && Ordered(found, 0, |src|)
             && EndOf(found) <= EndOf(front) <= |src|
             && Assembled(src, found, Rewritten(src, found, before[..n], after[..n])) + src[EndOf(found)..EndOf(front)]
                == Assembled(src, front, Spliced(src, front, before[..n], after[..n]))
    ensures Ordered(spans, 0, |src|) && Ordered(Found(src, spans), 0, |src|)
    ensures EndOf(Found(src, spans)) <= EndOf(spans) <= |src|
    ensures Assembled(src, Found(src, spans), Rewritten(src, Found(src, spans), before, after))
            + src[EndOf(Found(src, spans))..EndOf(spans)] == Assembled(src, spans, Spliced(src, spans, before, after))
  {
    hide *;
    var n := |spans| - 1;
    PartsOfFront(src, spans);
    LastFound(src, spans);
    AssembledUnfolds(src, Found(src, spans), before, after);
    SplicedUnfolds(src, spans, before, after);
    var found, front, last, end := EndOf(Found(src, spans[..n])), EndOf(spans[..n]), spans[n], FoundEnd(src, spans[n]);
    assert src[found..last.start] == src[found..front] + src[front..last.start];
    assert src[last.start..end] + src[end..last.end] == src[last.start..last.end];
    EndOfLast(spans);
    EndOfLast(Found(src, spans));
  }

  lemma LastFound(src: Text, spans: seq<Span>)
    requires PartsFound(src, 0, spans) && spans != []
    ensures var n := |spans| - 1;
            && |Found(src, spans)| == |spans| && Found(src, spans)[n] == Span(spans[n].start, FoundEnd(src, spans[n]))
  {
    hide FoundEnd, HoldsItem;
  }

  lemma EndOfLast(spans: seq<Span>)
    requires spans != []
    ensures EndOf(spans) == spans[|spans| - 1].end
  {
  }

  /** Texts that are longer, one by one, assemble to the same output only when they are the same. */
  lemma {:induction false} LongerTexts(src: Text, spans: seq<Span>, shorter: seq<Text>, longer: seq<Text>)
    requires |spans| == |shorter| == |longer| && Ordered(spans, 0, |src|)
    requires forall i :: 0 <= i < |spans| ==> shorter[i] <= longer[i]
    ensures |Assembled(src, spans, shorter)| <= |Assembled(src, spans, longer)|
    ensures Assembled(src, spans, longer) == Assembled(src, spans, shorter) <==> longer == shorter
    decreases |spans|
  {
    hide Ordered, EndOf;
    if spans != [] {
      var n := |spans| - 1;
      FrontOrdered(spans, |src|);
      LongerTexts(src, spans[..n], shorter[..n], longer[..n]);
      LongerPieces(Assembled(src, spans[..n], shorter[..n]), Assembled(src, spans[..n], longer[..n]),
                   src[EndOf(spans[..n])..spans[n].start], shorter[n], longer[n]);
      assert longer == longer[..n] + [longer[n]] && shorter == shorter[..n] + [shorter[n]];
    }
  }

  lemma LongerPieces(a: Text, a': Text, gap: Text, t: Text, t': Text)
    requires |a| <= |a'| && t <= t'
    ensures a + gap + t == a' + gap + t' <==> a == a' && t == t'
  {
    if a + gap + t == a' + gap + t' {
      assert |a + gap + t| == |a| + |gap| + |t| && |a' + gap + t'| == |a'| + |gap| + |t'|;
      assert a == (a + gap + t)[..|a|] && a' == (a' + gap + t')[..|a'|];
    }
  }

  lemma SplitTail(s: Text, a: nat, b: nat)
    requires a <= b <= |s|
    ensures s[a..] == s[a..b] + s[b..]
  {
  }

  /** All of the source's gaps, in order, with these texts between them. */
  ghost function WithGaps(src: Text, spans: seq<Span>, texts: seq<Text>): Text
    requires |spans| == |texts| && Ordered(spans, 0, |src|)
  {
    Assembled(src, spans, texts) + src[EndOf(spans)..]
  }

  /** The output is as wanted exactly when nothing of a changed item stays behind. */
  lemma SplicesParts(src: Text, spans: seq<Span>, before: seq<Text>, after: seq<Text>)
    requires |before| == |after| == |spans| && PartsFound(src, 0, spans)
    ensures Ordered(spans, 0, |src|) && Ordered(Found(src, spans), 0, |src|)
    ensures ReplaceChanged(src, Found(src, spans), before, after) == WithGaps(src, spans, Spliced(src, spans, before, after))
    ensures var wanted, got := Rewritten(src, spans, before, after), Spliced(src, spans, before, after);
            WithGaps(src, spans, got) == WithGaps(src, spans, wanted) <==>
            forall i :: 0 <= i < |spans| && before[i] != after[i] ==> HasPlainHead(src, spans[i])
  {
    hide *;
    PartsOfFront(src, spans);
    var found, tail := Found(src, spans), src[EndOf(spans)..];
    ReplacedIsAssembled(src, found, before, after);
    PartsAssembled(src, spans, before, after);
    SplitTail(src, EndOf(found), EndOf(spans));
    var wanted, got := Rewritten(src, spans, before, after), Spliced(src, spans, before, after);
    SplicedIsLonger(src, spans, before, after);
    LongerTexts(src, spans, wanted, got);
    GapsAndTail(src, spans, wanted);
    GapsAndTail(src, spans, got);
    if Assembled(src, spans, got) + tail == Assembled(src, spans, wanted) + tail {
      CancelRight(Assembled(src, spans, got), Assembled(src, spans, wanted), tail);
    }
  }

  lemma GapsAndTail(src: Text, spans: seq<Span>, texts: seq<Text>)
    requires |spans| == |texts| && Ordered(spans, 0, |src|) && EndOf(spans) <= |src|
    ensures WithGaps(src, spans, texts) == Assembled(src, spans, texts) + src[EndOf(spans)..]
  {
  }

  /**
   In a well laid out file the codemod does not fall back. Its output is the source's gaps, in order, with
   every unchanged item as it stood and every changed one rewritten, behind which stays what was not found of
   it; nothing stays, and the output is what was wanted, exactly when the head of every changed item is plain.
   */
  lemma SplicesLaidOut(src: Text, before: seq<Text>, after: seq<Text>, spans: seq<Span>)
    requires |before| == |after| && LaidOut(src, 0, before, spans)
    ensures |spans| == |before| && PartsFound(src, 0, spans) && Locate(src, before, 0) == Some(Found(src, spans))
    ensures Ordered(spans, 0, |src|) && Ordered(Found(src, spans), 0, |src|)
    ensures var out := ReplaceChanged(src, Found(src, spans), before, after);
            && out == WithGaps(src, spans, Spliced(src, spans, before, after))
            && (out == WithGaps(src, spans, Rewritten(src, spans, before, after)) <==>
                forall i :: 0 <= i < |spans| && before[i] != after[i] ==> HasPlainHead(src, spans[i]))
  {
    hide *;
    LocatesItems(src, 0, before, spans);
    OneSpanEach(src, 0, before, spans);
    SplicesParts(src, spans, before, after);
  }

  lemma OneSpanEach(src: Text, from: nat, items: seq<Text>, spans: seq<Span>)
    requires LaidOut(src, from, items, spans)
    ensures |spans| == |items|
  {
  }

  lemma SplicedIsLonger(src: Text, spans: seq<Span>, before: seq<Text>, after: seq<Text>)
    requires |spans| == |before| == |after| && PartsFound(src, 0, spans) && Ordered(spans, 0, |src|)
    ensures var wanted, got := Rewritten(src, spans, before, after), Spliced(src, spans, before, after);
            && (forall i :: 0 <= i < |spans| ==> wanted[i] <= got[i])
            && (got == wanted <==> forall i :: 0 <= i < |spans| && before[i] != after[i] ==> HasPlainHead(src, spans[i]))
  {
    hide FoundEnd, HoldsItem, HasPlainHead;
    var wanted, got := Rewritten(src, spans, before, after), Spliced(src, spans, before, after);
    forall i | 0 <= i < |spans|
      ensures wanted[i] <= got[i] && (got[i] == wanted[i] <==> before[i] == after[i] || HasPlainHead(src, spans[i]))
    {
      FindsPart(src, spans[i]);
    }
  }
}
