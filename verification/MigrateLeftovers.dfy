/** Ordinary items that the codemod does not find whole, and what it leaves behind of them. */
module MigrateLeftovers {
  import opened Wrappers
  import opened ItemScanner
  import opened ItemTokens
  import opened LanguageItems
  import opened MigrateV2
  import opened MigrateLayout

  // ----- A file that is one item on one line -----

  lemma AnchorsItself(src: Text)
    requires src != [] && LF !in src && src[|src| - 1] != CR && CanAnchor(src)
    ensures Anchor(src) == Some(src) && Find(src, src, 0) == Some(0) && LineStart(src, 0) == 0 && PrefixStart(src, 0, 0) == 0
  {
    hide CanAnchor;
    assert FirstLine(src) == src;
    assert src[0..] == src;
  }

  lemma LocatesOne(src: Text, item: Text, span: Span)
    requires ItemSpan(src, 0, item) == span && 0 < span.end <= |src| && span.start == 0
    ensures Locate(src, [item], 0) == Some([span]) && Ordered([span], 0, |src|)
  {
    hide ItemSpan;
    assert [item][1..] == [] && Locate(src, [], span.end) == Some([]) && [span] + [] == [span];
  }

  lemma ReplacesOne(src: Text, end: nat, after: Text)
    requires 0 < end <= |src| && after != src && Ordered([Span(0, end)], 0, |src|)
    ensures ReplaceChanged(src, [Span(0, end)], [src], [after]) == after + src[end..]
  {
    assert src[..0] + after + src[end..] == after + src[end..];
  }

  /** When an item of which `m` tokens are found changes, the others stay behind the new text. */
  lemma LeavesRest(ts: seq<Token>, m: nat, after: Text)
    requires Tokens(ts) && IsItem(ts) && 0 < m <= |ts| && EndsAfter(ts, m, 0, false)
    requires var src := Render(ts); LF !in src && CanAnchor(src) && after != src
    ensures var src := Render(ts); var found := [Span(0, |Render(ts[..m])|)];
            && Locate(src, [src], 0) == Some(found) && Ordered(found, 0, |src|)
            && ReplaceChanged(src, found, [src], [after]) == after + Render(ts[m..])
  {
    hide *;
    var src, end := Render(ts), |Render(ts[..m])|;
    assert ts[..|ts|] == ts;
    LastByte(ts, |ts|);
    FindsItemEnd(ts, m);
    ShorterRender(ts, 0, m);
    assert ts == ts[..m] + ts[m..];
    RenderOfSplit(ts[..m], ts[m..]);
    AnchorsItself(src);
    SpanOfOne(src, end);
    LocatesOne(src, src, Span(0, end));
    ReplacesOne(src, end, after);
  }

  lemma SpanOfOne(src: Text, end: nat)
    requires Anchor(src) == Some(src) && Find(src, src, 0) == Some(0)
    requires LineStart(src, 0) == 0 && PrefixStart(src, 0, 0) == 0
    requires ItemLen(src, 0, false) == end
    ensures ItemSpan(src, 0, src) == Span(0, end)
  {
    hide ItemLen, Anchor, Find, LineStart, PrefixStart;
    assert src[0..] == src;
  }

  // ----- Tokens that open and close nothing -----

  /** No group opens or closes among the tokens, and no semicolon stands there. */
  predicate Neutral(ts: seq<Token>) {
    forall t :: t in ts ==> Opened(t).None? && Closed(t).None? && t != Semi
  }

  lemma {:induction false} NeutralNests(ts: seq<Token>, more: seq<Token>)
    requires Neutral(more)
    ensures Nesting(ts + more) == Nesting(ts)
  {
    if more == [] {
      assert ts + more == ts;
    } else {
      var n := |more| - 1;
      assert (ts + more)[..|ts| + n] == ts + more[..n] && more[n] in more;
      NeutralNests(ts, more[..n]);
    }
  }

  lemma NestsOneMore(ts: seq<Token>, t: Token)
    ensures Nesting(ts + [t]) == match Nesting(ts) case None => None case Some(open) => Nest(open, t)
  {
    assert (ts + [t])[..|ts|] == ts;
  }

  /** Neutral tokens, then one token. */
  lemma NestsFurther(ts: seq<Token>, more: seq<Token>, t: Token)
    requires Neutral(more)
    ensures Nesting(ts + more + [t]) == match Nesting(ts) case None => None case Some(open) => Nest(open, t)
  {
    hide Nesting, Nest;
    NeutralNests(ts, more);
    NestsOneMore(ts + more, t);
  }

  // ----- A semicolon behind braces -----

  /** Such as `use path{names};`. */
  function BracedUse(path: seq<Token>, names: seq<Token>): seq<Token> {
    path + [Open] + names + [Close] + [Semi]
  }

  lemma BracedUseNests(path: seq<Token>, names: seq<Token>)
    requires Neutral(path) && Neutral(names)
    ensures Nesting(path) == Some([]) && Nesting(path + [Open] + names) == Some([Braces])
    ensures Nesting(path + [Open] + names + [Close]) == Some([])
  {
    assert [] + path == path;
    NeutralNests([], path);
    NestsOneMore(path, Open);
    NeutralNests(path + [Open], names);
    NestsOneMore(path + [Open] + names, Close);
  }

  lemma BracedUseIsItem(path: seq<Token>, names: seq<Token>)
    requires Neutral(path) && Neutral(names)
    ensures var ts := BracedUse(path, names); IsItem(ts) && EndsAfter(ts, |ts| - 1, 0, false)
  {
    hide Nesting, Depth;
    var ts := BracedUse(path, names);
    var n := |ts| - 2;
    BracedUseNests(path, names);
    assert ts[..n + 1] == path + [Open] + names + [Close] && ts[..n] == path + [Open] + names;
    forall k | 0 <= k < n ensures ts[k] != Semi && ts[k] != Close {
      assert ts[k] == ts[..n][k] && ts[k] in path + [Open] + names;
    }
    EndsByNesting(ts, n);
  }

  /** The semicolon behind the braces is not found; when the item changes, it stays behind the new text. */
  lemma BracedUseLeavesSemicolon(path: seq<Token>, names: seq<Token>, after: Text)
    requires Neutral(path) && Neutral(names) && Tokens(BracedUse(path, names))
    requires var src := Render(BracedUse(path, names)); LF !in src && CanAnchor(src) && after != src
    ensures var src := Render(BracedUse(path, names)); var found := [Span(0, |src| - 1)];
            && |src| > 0 && Locate(src, [src], 0) == Some(found) && Ordered(found, 0, |src|)
            && ReplaceChanged(src, found, [src], [after]) == after + [SEMICOLON]
  {
    hide *;
    var ts := BracedUse(path, names);
    BracedUseIsItem(path, names);
    ItemNests(ts);
    LastSemicolon(path, names);
    LeavesRest(ts, |ts| - 1, after);
  }

  lemma LastSemicolon(path: seq<Token>, names: seq<Token>)
    ensures var ts := BracedUse(path, names);
            && |ts| >= 2 && Render(ts[|ts| - 1..]) == [SEMICOLON] && |Render(ts)| == |Render(ts[..|ts| - 1])| + 1
  {
    var ts := BracedUse(path, names);
    assert ts[|ts| - 1..] == [Semi] && Render([Semi]) == [SEMICOLON] + Render([]);
    hide Render;
    assert ts == ts[..|ts| - 1] + [Semi];
    RenderOfSplit(ts[..|ts| - 1], [Semi]);
  }

  // ----- A semicolon between brackets -----

  function BeforeSemicolon(name: seq<Token>, param: seq<Token>, element: seq<Token>): seq<Token> {
    name + [Plain(LEFT_PAREN)] + param + [Plain(LEFT_BRACKET)] + element
  }

  function AfterSemicolon(length: seq<Token>, result: seq<Token>, body: seq<Token>): seq<Token> {
    length + [Plain(RIGHT_BRACKET)] + [Plain(RIGHT_PAREN)] + result + [Open] + body + [Close]
  }

  /** Such as `fn name(param: [element; length]) -> result {body}`. */
  function ArrayParameter(name: seq<Token>, param: seq<Token>, element: seq<Token>, length: seq<Token>,
                          result: seq<Token>, body: seq<Token>): seq<Token>
  {
    BeforeSemicolon(name, param, element) + [Semi] + AfterSemicolon(length, result, body)
  }

  lemma BeforeSemicolonNests(name: seq<Token>, param: seq<Token>, element: seq<Token>)
    requires Neutral(name) && Neutral(param) && Neutral(element)
    ensures var head := BeforeSemicolon(name, param, element);
            Nesting(head) == Some([Parens, Brackets]) && Semi !in head && Close !in head
  {
    hide Nesting, Nest;
    GroupsOfParameter();
    var a := name + [Plain(LEFT_PAREN)];
    var b := a + param + [Plain(LEFT_BRACKET)];
    assert [] + name + [Plain(LEFT_PAREN)] == a && Nesting([]) == Some([]) by { NothingNests(); }
    NestsFurther([], name, Plain(LEFT_PAREN));
    assert Nesting(a) == Some([Parens]);
    NestsFurther(a, param, Plain(LEFT_BRACKET));
    assert Nesting(b) == Some([Parens, Brackets]);
    NeutralNests(b, element);
    assert Semi !in b && Close !in b;
  }

  lemma NothingNests()
    ensures Nesting([]) == Some([])
  {
  }

  /** The groups open along `([;])`. */
  lemma GroupsOfParameter()
    ensures Nest([], Plain(LEFT_PAREN)) == Some([Parens]) && Nest([Parens], Plain(LEFT_BRACKET)) == Some([Parens, Brackets])
    ensures Nest([Parens, Brackets], Semi) == Some([Parens, Brackets])
    ensures Nest([Parens, Brackets], Plain(RIGHT_BRACKET)) == Some([Parens])
    ensures Nest([Parens], Plain(RIGHT_PAREN)) == Some([])
    ensures Nest([], Open) == Some([Braces])
  {
    assert [] + [Parens] == [Parens] && [] + [Braces] == [Braces] && [Parens] + [Brackets] == [Parens, Brackets];
    assert [Parens, Brackets][..1] == [Parens] && [Parens][..0] == [];
  }

  lemma AfterSemicolonNests(head: seq<Token>, length: seq<Token>, result: seq<Token>, body: seq<Token>)
    requires Neutral(length) && Neutral(result) && Neutral(body) && Nesting(head) == Some([Parens, Brackets])
    ensures var rest := AfterSemicolon(length, result, body);
            && rest[|rest| - 1] == Close && Semi !in rest
            && Nesting(head + [Semi] + rest[..|rest| - 1]) == Some([Braces])
  {
    hide Nesting, Nest;
    GroupsOfParameter();
    var c := head + [Semi];
    var d := c + length + [Plain(RIGHT_BRACKET)];
    var e := d + [Plain(RIGHT_PAREN)];
    var f := e + result + [Open];
    var rest := AfterSemicolon(length, result, body);
    NestsOneMore(head, Semi);
    NestsFurther(c, length, Plain(RIGHT_BRACKET));
    assert Nesting(d) == Some([Parens]);
    NestsOneMore(d, Plain(RIGHT_PAREN));
    assert Nesting(e) == Some([]);
    NestsFurther(e, result, Open);
    NeutralNests(f, body);
    assert c + rest[..|rest| - 1] == f + body;
  }

  lemma OneSemicolon(head: seq<Token>, rest: seq<Token>)
    requires Semi !in head && Close !in head && Semi !in rest && rest != []
    ensures var ts, n := head + [Semi] + rest, |head|;
            && ts[..n] == head && ts[..n + 1] == head + [Semi] && ts[n] == Semi
            && ts[..|ts| - 1] == head + [Semi] + rest[..|rest| - 1] && ts[|ts| - 1] == rest[|rest| - 1]
            && (forall k :: 0 <= k < n ==> ts[k] != Semi && ts[k] != Close)
            && (forall k :: n < k < |ts| ==> ts[k] != Semi)
  {
    var ts, n := head + [Semi] + rest, |head|;
    forall k | 0 <= k < n ensures ts[k] != Semi && ts[k] != Close { assert ts[k] == head[k]; }
    forall k | n < k < |ts| ensures ts[k] != Semi { assert ts[k] == rest[k - n - 1]; }
  }

  lemma ArrayParameterIsItem(head: seq<Token>, rest: seq<Token>)
    requires Nesting(head) == Some([Parens, Brackets]) && Semi !in head && Close !in head
    requires rest != [] && rest[|rest| - 1] == Close && Semi !in rest
    requires Nesting(head + [Semi] + rest[..|rest| - 1]) == Some([Braces])
    ensures var ts := head + [Semi] + rest; IsItem(ts) && EndsAfter(ts, |head| + 1, 0, false)
  {
    hide Nesting, Depth;
    OneSemicolon(head, rest);
    NestsOneMore(head, Semi);
    EndsByNesting(head + [Semi] + rest, |head|);
  }

  /** The item is found up to the semicolon between its brackets; when it changes, all behind that stays. */
  lemma ArrayParameterLeavesRest(name: seq<Token>, param: seq<Token>, element: seq<Token>, length: seq<Token>,
                                 result: seq<Token>, body: seq<Token>, after: Text)
    requires Neutral(name) && Neutral(param) && Neutral(element) && Neutral(length) && Neutral(result) && Neutral(body)
    requires Tokens(ArrayParameter(name, param, element, length, result, body))
    requires var src := Render(ArrayParameter(name, param, element, length, result, body));
             LF !in src && CanAnchor(src) && after != src
    ensures var src := Render(ArrayParameter(name, param, element, length, result, body));
            var rest := Render(AfterSemicolon(length, result, body));
            && |src| > |rest| && var found := [Span(0, |src| - |rest|)];
            && Locate(src, [src], 0) == Some(found) && Ordered(found, 0, |src|)
            && ReplaceChanged(src, found, [src], [after]) == after + rest
  {
    hide *;
    var ts := ArrayParameter(name, param, element, length, result, body);
    var head, rest := BeforeSemicolon(name, param, element), AfterSemicolon(length, result, body);
    ArrayParameterParts(name, param, element, length, result, body);
    BeforeSemicolonNests(name, param, element);
    AfterSemicolonNests(head, length, result, body);
    ArrayParameterIsItem(head, rest);
    assert ts[..|head| + 1] == head + [Semi] && ts[|head| + 1..] == rest;
    RenderOfSplit(head + [Semi], rest);
    ShorterRender(ts, 0, |head| + 1);
    LeavesRest(ts, |head| + 1, after);
  }

  lemma ArrayParameterParts(name: seq<Token>, param: seq<Token>, element: seq<Token>, length: seq<Token>,
                            result: seq<Token>, body: seq<Token>)
    ensures ArrayParameter(name, param, element, length, result, body) ==
            BeforeSemicolon(name, param, element) + [Semi] + AfterSemicolon(length, result, body)
    ensures AfterSemicolon(length, result, body) != []
  {
  }
}
