/** Items as the language ends them, and which of them the scanner finds whole. */
module LanguageItems {
  import opened Wrappers
  import opened ItemScanner
  import opened ItemTokens

  const LEFT_PAREN: Byte := 40
  const RIGHT_PAREN: Byte := 41
  const RIGHT_BRACKET: Byte := 93

  // ----- Groups and items -----

  datatype Group = Parens | Brackets | Braces

  function OpenedBy(b: Byte): Option<Group> {
    if b == LEFT_PAREN then Some(Parens) else if b == LEFT_BRACKET then Some(Brackets) else None
  }

  function ClosedBy(b: Byte): Option<Group> {
    if b == RIGHT_PAREN then Some(Parens) else if b == RIGHT_BRACKET then Some(Brackets) else None
  }

  /** The group a token opens. */
  function Opened(t: Token): Option<Group> {
    match t
    case Open => Some(Braces)
    case Plain(b) => OpenedBy(b)
    case QuotedLetter(_, after) => OpenedBy(after)
    case _ => None
  }

  /** The group a token closes. */
  function Closed(t: Token): Option<Group> {
    match t
    case Close => Some(Braces)
    case Plain(b) => ClosedBy(b)
    case QuotedLetter(_, after) => ClosedBy(after)
    case _ => None
  }

  /** The groups open after the tokens, outermost first; none when one is closed that is not the innermost. */
  function Nesting(ts: seq<Token>): Option<seq<Group>> {
    if ts == [] then Some([])
    else match Nesting(ts[..|ts| - 1])
         case None => None
         case Some(open) => Nest(open, ts[|ts| - 1])
  }

  function Nest(open: seq<Group>, t: Token): Option<seq<Group>> {
    if Opened(t).Some? then Some(open + [Opened(t).value])
    else if Closed(t).None? then Some(open)
    else if open != [] && open[|open| - 1] == Closed(t).value then Some(open[..|open| - 1])
    else None
  }

  /** The last token is the semicolon of the item: it stands in no group. */
  predicate EndsInSemicolon(ts: seq<Token>) {
    ts != [] && ts[|ts| - 1] == Semi && Nesting(ts[..|ts| - 1]) == Some([])
  }

  /** The last token closes the block of the item: a brace group that stands in no group. */
  predicate EndsInBlock(ts: seq<Token>) {
    ts != [] && ts[|ts| - 1] == Close && Nesting(ts[..|ts| - 1]) == Some([Braces])
  }

  /** The tokens of one item: its groups nest, and no semicolon before its end stands outside them all. */
  predicate IsItem(ts: seq<Token>) {
    && (EndsInSemicolon(ts) || EndsInBlock(ts))
    && forall k :: 0 <= k < |ts| - 1 && ts[k] == Semi ==> Nesting(ts[..k]) != Some([])
  }

  predicate InBraces(ts: seq<Token>) {
    Nesting(ts).Some? && Braces in Nesting(ts).value
  }

  /** At token `k` a semicolon stands outside all braces, or the last open brace is closed. */
  predicate Breaks(ts: seq<Token>, k: nat) {
    k < |ts| && ((ts[k] == Semi && !InBraces(ts[..k])) || (ts[k] == Close && !InBraces(ts[..k + 1])))
  }

  /** Nothing before its end breaks the item: its semicolons stand inside braces, and no brace group closes for good. */
  predicate Unbroken(ts: seq<Token>) {
    forall k :: 0 <= k < |ts| - 1 ==> !Breaks(ts, k)
  }

  // ----- What the scanner counts of the groups -----

  lemma {:induction false} NestingOfPrefix(ts: seq<Token>, k: nat)
    requires k <= |ts| && Nesting(ts).Some?
    ensures Nesting(ts[..k]).Some?
    decreases |ts|
  {
    hide Nest;
    if k == |ts| {
      assert ts[..k] == ts;
    } else {
      NestingOfPrefix(ts[..|ts| - 1], k);
      assert ts[..|ts| - 1][..k] == ts[..k];
    }
  }

  /** The scanner's depth counts the open braces. */
  lemma {:induction false} DepthCountsBraces(ts: seq<Token>)
    requires Nesting(ts).Some?
    ensures Depth(ts, 0) == multiset(Nesting(ts).value)[Braces]
  {
    if ts != [] {
      var front, t := ts[..|ts| - 1], ts[|ts| - 1];
      DepthCountsBraces(front);
      var open := Nesting(front).value;
      if Opened(t).None? && Closed(t).Some? { assert open == open[..|open| - 1] + [open[|open| - 1]]; }
    }
  }

  lemma InBracesByDepth(ts: seq<Token>)
    requires Nesting(ts).Some?
    ensures InBraces(ts) <==> Depth(ts, 0) > 0
    ensures Depth(ts, 0) >= 0
  {
    DepthCountsBraces(ts);
    assert Braces in Nesting(ts).value <==> Braces in multiset(Nesting(ts).value);
  }

  lemma {:induction false} BracesWereOpened(ts: seq<Token>)
    requires Depth(ts, 0) > 0
    ensures Open in ts
  {
    if ts[|ts| - 1] != Open { BracesWereOpened(ts[..|ts| - 1]); }
  }

  /** The scanner ends an item where its groups are broken. */
  lemma EndsByNesting(ts: seq<Token>, k: nat)
    requires k < |ts| && Nesting(ts[..k + 1]).Some?
    ensures Ends(ts, k, 0, false) <==> Breaks(ts, k)
  {
    hide InBraces;
    assert ts[..k + 1][..k] == ts[..k];
    NestingOfPrefix(ts[..k + 1], k);
    hide Nesting;
    InBracesByDepth(ts[..k]);
    InBracesByDepth(ts[..k + 1]);
    if Depth(ts[..k], 0) > 0 { BracesWereOpened(ts[..k]); }
  }

  lemma EndsInItem(ts: seq<Token>, n: nat, k: nat)
    requires k < n <= |ts| && Nesting(ts[..n]).Some?
    ensures Ends(ts, k, 0, false) <==> Breaks(ts[..n], k)
  {
    hide Nesting, InBraces, Ends;
    NestingOfPrefix(ts[..n], k + 1);
    assert ts[..n][..k + 1] == ts[..k + 1] && ts[..n][..k] == ts[..k] && ts[..n][k] == ts[k];
    EndsByNesting(ts, k);
  }

  /** The end of an item ends it for the scanner too, and nothing before does exactly when it is unbroken. */
  lemma EndsOfItem(ts: seq<Token>, n: nat)
    requires 0 < n <= |ts| && IsItem(ts[..n])
    ensures Ends(ts, n - 1, 0, false)
    ensures Unbroken(ts[..n]) <==> forall k :: 0 <= k < n - 1 ==> !Ends(ts, k, 0, false)
  {
    hide *;
    ItemNests(ts[..n]);
    forall k | 0 <= k < n ensures Ends(ts, k, 0, false) <==> Breaks(ts[..n], k) { EndsInItem(ts, n, k); }
    assert |ts[..n]| == n;
    UnbrokenMeans(ts[..n]);
  }

  lemma UnbrokenMeans(item: seq<Token>)
    ensures Unbroken(item) <==> forall k :: 0 <= k < |item| - 1 ==> !Breaks(item, k)
  {
  }

  lemma ItemNests(item: seq<Token>)
    requires IsItem(item)
    ensures item != [] && Nesting(item) == Some([])
    ensures Breaks(item, |item| - 1)
  {
    assert item[..|item|] == item;
  }

  // ----- Where the scanner stops in an item -----

  lemma {:induction false} RenderOfSplit(a: seq<Token>, b: seq<Token>)
    ensures Render(a + b) == Render(a) + Render(b)
  {
    hide Render1;
    if a == [] {
      assert a + b == b;
    } else {
      assert (a + b)[1..] == a[1..] + b;
      RenderOfSplit(a[1..], b);
    }
  }

  lemma ShorterRender(ts: seq<Token>, m: nat, n: nat)
    requires m < n <= |ts|
    ensures |Render(ts[..m])| < |Render(ts[..n])|
    ensures Render(ts[..n]) == Render(ts[..m]) + Render(ts[m..n])
  {
    hide Render1;
    assert ts[..n] == ts[..m] + ts[m..n];
    RenderOfSplit(ts[..m], ts[m..n]);
    assert Render1(ts[m..n][0]) != [];
  }

  lemma {:induction false} FirstEnd(ts: seq<Token>, n: nat) returns (m: nat)
    requires n <= |ts|
    ensures m <= n && forall k :: 0 <= k < m - 1 ==> !Ends(ts, k, 0, false)
    ensures m == n || (m > 0 && Ends(ts, m - 1, 0, false))
  {
    hide Ends;
    if n == 0 {
      m := 0;
    } else {
      m := FirstEnd(ts, n - 1);
      if m == n - 1 && !(m > 0 && Ends(ts, m - 1, 0, false)) { m := n; }
    }
  }

  /** The scanner stops after `n` tokens exactly when the item as it sees it has `n` tokens. */
  lemma StopsExactly(ts: seq<Token>, n: nat)
    requires Tokens(ts) && 0 < n <= |ts|
    ensures ItemLen(Render(ts), 0, false) == |Render(ts[..n])| <==> EndsAfter(ts, n, 0, false)
  {
    hide Ends, Tokens, ItemLen, Render;
    var m := FirstEnd(ts, |ts|);
    FindsItemEnd(ts, m);
    if m < n { ShorterRender(ts, m, n); }
    if n < m { ShorterRender(ts, n, m); }
  }

  /**
   On an item, and whatever follows it, the scanner stops inside the item or at its end, and at its end
   exactly when the item is unbroken.
   */
  lemma StopsWithin(ts: seq<Token>, n: nat) returns (m: nat)
    requires Tokens(ts) && n <= |ts| && IsItem(ts[..n])
    ensures 0 < m <= n && ItemLen(Render(ts), 0, false) == |Render(ts[..m])|
    ensures m == n <==> Unbroken(ts[..n])
    ensures ItemLen(Render(ts), 0, false) == |Render(ts[..n])| <==> Unbroken(ts[..n])
  {
    hide Ends, Tokens, ItemLen, Render, IsItem, Unbroken;
    ItemNests(ts[..n]);
    EndsOfItem(ts, n);
    m := FirstEnd(ts, n);
    FindsItemEnd(ts, m);
    if m < n { ShorterRender(ts, m, n); }
  }

  // ----- Which items are unbroken -----

  /** The first `b` tokens are the head of the item: what stands before its semicolon, or before its block. */
  predicate IsHead(item: seq<Token>, b: nat) {
    && b < |item| && Nesting(item[..b]) == Some([])
    && if item[b] == Semi then b == |item| - 1
       else item[b] == Open && forall j :: b < j < |item| ==> StartsInBraces(item[..j])
  }

  /** The outermost open group is a brace group. */
  predicate StartsInBraces(ts: seq<Token>) {
    Nesting(ts).Some? && Nesting(ts).value != [] && Nesting(ts).value[0] == Braces
  }

  /** Where the group that is open at the end was opened. */
  lemma {:induction false} Opening(ts: seq<Token>) returns (b: nat)
    requires StartsInBraces(ts)
    ensures b < |ts| && ts[b] == Open && Nesting(ts[..b]) == Some([])
    ensures forall j :: b < j <= |ts| ==> StartsInBraces(ts[..j])
  {
    var front := ts[..|ts| - 1];
    assert ts[..|ts|] == ts;
    if Nesting(front) == Some([]) {
      b := |ts| - 1;
    } else {
      StartsBefore(ts);
      b := Opening(front);
      assert forall j :: 0 <= j <= |front| ==> front[..j] == ts[..j];
    }
  }

  lemma StartsBefore(ts: seq<Token>)
    requires StartsInBraces(ts) && Nesting(ts[..|ts| - 1]) != Some([])
    ensures StartsInBraces(ts[..|ts| - 1])
  {
  }

  /** Every item has a head. */
  lemma HasHead(item: seq<Token>) returns (b: nat)
    requires IsItem(item)
    ensures IsHead(item, b)
  {
    var n := |item| - 1;
    if item[n] == Semi {
      b := n;
    } else {
      b := Opening(item[..n]);
      hide Nesting;
      assert forall j :: 0 <= j <= n ==> item[..n][..j] == item[..j];
    }
  }

  /** Braces stay open until one is closed. */
  lemma {:induction false} StaysInBraces(ts: seq<Token>, i: nat, j: nat)
    requires i <= j <= |ts| && InBraces(ts[..i]) && Nesting(ts[..j]).Some? && Close !in ts[i..j]
    ensures InBraces(ts[..j])
    decreases j
  {
    if i < j {
      assert ts[..j][..j - 1] == ts[..j - 1] && ts[i..j][j - 1 - i] == ts[j - 1];
      NestingOfPrefix(ts[..j], j - 1);
      assert forall k :: i <= k < j - 1 ==> ts[k] == ts[i..j][k - i];
      StaysInBraces(ts, i, j - 1);
      NestKeepsBraces(Nesting(ts[..j - 1]).value, ts[j - 1]);
    }
  }

  lemma NestKeepsBraces(open: seq<Group>, t: Token)
    requires Braces in open && t != Close && Nest(open, t).Some?
    ensures Braces in Nest(open, t).value
  {
    var k :| 0 <= k < |open| && open[k] == Braces;
    assert k < |Nest(open, t).value| ==> Nest(open, t).value[k] == Braces;
  }

  /** Where a brace is closed before all groups are, some closing brace leaves none open. */
  lemma {:induction false} LastClose(ts: seq<Token>, k: nat, b: nat) returns (c: nat)
    requires k < b <= |ts| && ts[k] == Close && Nesting(ts[..b]) == Some([])
    ensures k <= c < b && Breaks(ts, c)
    decreases b - k
  {
    hide Nesting;
    if c' :| k < c' < b && ts[c'] == Close {
      c := LastClose(ts, c', b);
    } else {
      c := k;
      if InBraces(ts[..k + 1]) { StaysInBraces(ts, k + 1, b); }
    }
  }

  /** An item is unbroken exactly when its head holds no closing brace and no semicolon. */
  lemma HeadDecides(item: seq<Token>, b: nat)
    requires IsItem(item) && IsHead(item, b)
    ensures Unbroken(item) <==> Close !in item[..b] && Semi !in item[..b]
  {
    hide Nesting;
    if Close in item[..b] {
      var k :| 0 <= k < b && item[k] == Close;
      var c := LastClose(item, k, b);
    } else if Semi in item[..b] {
      var k :| 0 <= k < b && item[k] == Semi;
      if InBraces(item[..k]) {
        assert forall c :: k <= c < b ==> item[k..b][c - k] == item[..b][c];
        StaysInBraces(item, k, b);
      }
      assert Breaks(item, k);
    } else {
      forall k | 0 <= k < |item| - 1 ensures !Breaks(item, k) {
        if k < b { assert item[..b][k] == item[k]; }
        if b < k { assert StartsInBraces(item[..k]); }
        if b <= k { assert StartsInBraces(item[..k + 1]); }
      }
    }
  }

  /** The scanner finds an item whole exactly when no closing brace and no semicolon stands in its head. */
  lemma FoundWholeExactly(ts: seq<Token>, n: nat, b: nat)
    requires Tokens(ts) && n <= |ts| && IsItem(ts[..n]) && IsHead(ts[..n], b)
    ensures ItemLen(Render(ts), 0, false) == |Render(ts[..n])| <==> Close !in ts[..b] && Semi !in ts[..b]
  {
    hide *;
    var m := StopsWithin(ts, n);
    HeadDecides(ts[..n], b);
    assert b <= n by { HeadIsShorter(ts[..n], b); }
    assert ts[..n][..b] == ts[..b];
  }

  lemma HeadIsShorter(item: seq<Token>, b: nat)
    requires IsHead(item, b)
    ensures b < |item|
  {
  }

  // ----- Groups as they are written -----

  /** Which bytes open and close which groups. */
  lemma GroupsAsWritten(b: Byte)
    ensures Opened(Plain(b)) == (if b == Ascii('(') then Some(Parens) else if b == Ascii('[') then Some(Brackets) else None)
    ensures Closed(Plain(b)) == (if b == Ascii(')') then Some(Parens) else if b == Ascii(']') then Some(Brackets) else None)
  {
  }
}
