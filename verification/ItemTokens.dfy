/**
 The scanner on text rendered from tokens: what it skips, what it does not, and where it stops.
 */
module ItemTokens {
  import opened Wrappers
  import opened ItemScanner

  datatype Token =
    | Plain(b: Byte)
    | Open
    | Close
    | Semi
    | LineComment(body: Text)
    | BlockComment(body: Text)
    | Str(body: Text)
    | RawStr(hashes: nat, body: Text)
    | ByteLit(body: Text)
    | CharLit(body: Text)
    | Lifetime(name: Text)
    | QuotedLetter(letter: Byte, after: Byte)  // a letter between quotes, with the byte of code that follows

  function Hashes(n: nat): (s: Text)
    ensures |s| == n && forall i :: 0 <= i < n ==> s[i] == HASH
  {
    seq(n, i => HASH)
  }

  function Render1(t: Token): (s: Text)
    ensures s != []
  {
    match t
    case Plain(b) => [b]
    case Open => [LEFT_BRACE]
    case Close => [RIGHT_BRACE]
    case Semi => [SEMICOLON]
    case LineComment(body) => [SLASH, SLASH] + body
    case BlockComment(body) => [SLASH, STAR] + body + [STAR, SLASH]
    case Str(body) => [DOUBLE_QUOTE] + body + [DOUBLE_QUOTE]
    case RawStr(n, body) => [LOWER_R] + Hashes(n) + [DOUBLE_QUOTE] + body + [DOUBLE_QUOTE] + Hashes(n)
    case ByteLit(body) => [LOWER_B, QUOTE] + body + [QUOTE]
    case CharLit(body) => [QUOTE] + body + [QUOTE]
    case Lifetime(name) => [QUOTE] + name
    case QuotedLetter(letter, after) => [QUOTE, letter, QUOTE, after]
  }

  function Render(ts: seq<Token>): Text {
    if ts == [] then [] else Render1(ts[0]) + Render(ts[1..])
  }

  /** Every `quote` in the body is escaped, and no escape is cut short. */
  predicate Escaped(body: Text, quote: Byte) {
    body == [] || (
      && body[0] != quote
      && if body[0] == BACKSLASH then |body| > 1 && Escaped(body[2..], quote) else Escaped(body[1..], quote))
  }

  /** Every backslash has a byte of its own to escape: none is left over at the end. */
  predicate Paired(body: Text) {
    body == [] || if body[0] == BACKSLASH then |body| > 1 && Paired(body[2..]) else Paired(body[1..])
  }

  /** What may stand between the quotes of a raw string: no quote followed by enough hashes to end it. */
  ghost predicate IsRawBody(n: nat, body: Text) {
    forall i :: 0 <= i < |body| && body[i] == DOUBLE_QUOTE ==> HashCount(body[i + 1..]) < n
  }

  predicate NextIs(next: Text, bs: set<Byte>) {
    next != [] && next[0] in bs
  }

  /** `t` is a token of its own when `next` follows it. */
  ghost predicate IsToken(t: Token, next: Text) {
    match t
    case Plain(b) => IsCode(b, next)
    case LineComment(body) => LF !in body && (next == [] || next[0] == LF)
    case BlockComment(body) => forall i, j :: 0 <= i && j == i + 1 && j < |body| ==> !(body[i] == STAR && body[j] == SLASH)
    case Str(body) => Escaped(body, DOUBLE_QUOTE)
    case RawStr(n, body) =>
      n > 0 && IsRawBody(n, body) && Paired(body)
    case ByteLit(body) => Escaped(body, QUOTE)
    case CharLit(body) => SkippedChar(body)
    case Lifetime(name) =>
      && name != [] && IsIdentStart(name[0]) && (forall i :: 0 <= i < |name| ==> IsIdentPart(name[i]))
      && (next == [] || (!IsIdentPart(next[0]) && next[0] != QUOTE))
    case QuotedLetter(letter, after) =>
      IsIdentStart(letter) && IsCode(after, next) && !IsIdentStart(after) && after != BACKSLASH && !NextIs(next, {QUOTE})
    case _ => true
  }

  /** A byte of code; it opens no comment, raw string or byte literal with what follows. A raw identifier opens none. */
  predicate IsCode(b: Byte, next: Text) {
    && b !in {LEFT_BRACE, RIGHT_BRACE, SEMICOLON, DOUBLE_QUOTE, QUOTE}
    && !(b == SLASH && NextIs(next, {SLASH, STAR}))
    && !(b == LOWER_R && HashCount(next) < |next| && next[HashCount(next)] == DOUBLE_QUOTE)
    && !(b == LOWER_B && NextIs(next, {QUOTE}))
  }

  /** The character literals the scanner knows: one byte that cannot start a lifetime, or a two-byte escape. */
  predicate SkippedChar(body: Text) {
    || (|body| == 1 && body[0] != QUOTE && body[0] != BACKSLASH && !IsIdentStart(body[0]))
    || (|body| == 2 && body[0] == BACKSLASH)
  }

  ghost predicate Tokens(ts: seq<Token>) {
    ts == [] || (IsToken(ts[0], Render(ts[1..])) && Tokens(ts[1..]))
  }

  // ----- Each construct is skipped whole -----

  lemma {:induction false} BlockSkipped(body: Text, next: Text)
    requires forall i, j :: 0 <= i && j == i + 1 && j < |body| ==> !(body[i] == STAR && body[j] == SLASH)
    ensures BlockLen(body + [STAR, SLASH] + next) == |body| + 2
  {
    var s := body + [STAR, SLASH] + next;
    if body != [] {
      assert s[1..] == body[1..] + [STAR, SLASH] + next;
      assert !(s[0] == STAR && s[1] == SLASH);
      BlockSkipped(body[1..], next);
    }
  }

  lemma {:induction false} QuotedSkipped(body: Text, quote: Byte, next: Text)
    requires Escaped(body, quote) && quote != BACKSLASH
    ensures QuotedLen(body + [quote] + next, quote) == |body| + 1
  {
    var s := body + [quote] + next;
    if body != [] {
      var k := if body[0] == BACKSLASH then 2 else 1;
      assert s[k..] == body[k..] + [quote] + next;
      QuotedSkipped(body[k..], quote, next);
    }
  }

  lemma {:induction false} HashCountOf(s: Text, n: nat)
    requires n <= |s| && (forall i :: 0 <= i < n ==> s[i] == HASH) && (n == |s| || s[n] != HASH)
    ensures HashCount(s) == n
  {
  }

  /** The scanner reads one byte of a raw string's body, or two after a backslash. */
  lemma RawAdvance(n: nat, body: Text, next: Text)
    requires body != [] && IsRawBody(n, body)
    ensures var k := if body[0] == BACKSLASH then 2 else 1;
            && k <= |body| + 1 && (k <= |body| ==> IsRawBody(n, body[k..]))
            && RawLen(body + [DOUBLE_QUOTE] + Hashes(n) + next, n)
               == k + RawLen((body + [DOUBLE_QUOTE] + Hashes(n) + next)[k..], n)
  {
    hide Hashes;
    var s := body + [DOUBLE_QUOTE] + Hashes(n) + next;
    var rest := body[1..];
    assert s[1..][..|rest|] == rest && s[1..][|rest|] == DOUBLE_QUOTE;
    HashCountOf(s[1..], HashCount(rest));
    var k := if body[0] == BACKSLASH then 2 else 1;
    if k <= |body| {
      forall i | 0 <= i < |body[k..]| && body[k..][i] == DOUBLE_QUOTE ensures HashCount(body[k..][i + 1..]) < n {
        assert body[k..][i + 1..] == body[i + k + 1..];
      }
    }
  }

  lemma RawEnds(n: nat, next: Text)
    ensures RawLen([DOUBLE_QUOTE] + Hashes(n) + next, n) == 1 + n
  {
  }

  lemma {:induction false} RawHashes(m: nat, n: nat, next: Text)
    ensures RawLen(Hashes(m) + next, n) == m + RawLen(next, n)
  {
    if m == 0 {
      assert Hashes(m) + next == next;
    } else {
      assert (Hashes(m) + next)[1..] == Hashes(m - 1) + next;
      RawHashes(m - 1, n, next);
    }
  }

  /** The content of a raw string is skipped whole exactly when its backslashes pair up, or nothing follows it. */
  lemma {:induction false} RawSkipped(n: nat, body: Text, next: Text)
    requires IsRawBody(n, body)
    ensures RawLen(body + [DOUBLE_QUOTE] + Hashes(n) + next, n) == |body| + 1 + n <==> Paired(body) || next == []
    decreases |body|
  {
    hide RawLen, IsRawBody, Hashes;
    var s := body + [DOUBLE_QUOTE] + Hashes(n) + next;
    if body == [] {
      assert s == [DOUBLE_QUOTE] + Hashes(n) + next;
      RawEnds(n, next);
    } else {
      RawAdvance(n, body, next);
      if body == [BACKSLASH] {
        assert s[2..] == Hashes(n) + next;
        RawHashes(n, n, next);
        RawReads(next, n);
      } else {
        var k := if body[0] == BACKSLASH then 2 else 1;
        assert s[k..] == body[k..] + [DOUBLE_QUOTE] + Hashes(n) + next;
        RawSkipped(n, body[k..], next);
      }
    }
  }

  lemma RawReads(s: Text, n: nat)
    ensures RawLen(s, n) == 0 <==> s == []
  {
  }

  lemma LineSkipped(line: Text, next: Text)
    requires LF !in line && (next == [] || next[0] == LF)
    ensures LineLen(line + next) == |line|
  {
    var s := line + next;
    var n := LineLen(s);
    assert next != [] ==> s[|line|] == LF;
  }

  lemma SkipsComment(t: Token, next: Text)
    requires IsToken(t, next) && (t.LineComment? || t.BlockComment?)
    ensures SkipLen(Render1(t) + next) == |Render1(t)|
  {
    var s := Render1(t) + next;
    if t.LineComment? {
      LineSkipped([SLASH, SLASH] + t.body, next);
    } else {
      assert s[2..] == t.body + [STAR, SLASH] + next;
      BlockSkipped(t.body, next);
    }
  }

  lemma SkipsQuoted(t: Token, next: Text)
    requires IsToken(t, next) && (t.Str? || t.ByteLit?)
    ensures SkipLen(Render1(t) + next) == |Render1(t)|
  {
    var s := Render1(t) + next;
    if t.Str? {
      assert s[1..] == t.body + [DOUBLE_QUOTE] + next;
      QuotedSkipped(t.body, DOUBLE_QUOTE, next);
    } else {
      assert s[2..] == t.body + [QUOTE] + next;
      QuotedSkipped(t.body, QUOTE, next);
    }
  }

  /** A raw string with hashes is skipped whole exactly when its backslashes pair up, or nothing follows it. */
  lemma RawStringSkipped(n: nat, body: Text, next: Text)
    requires n > 0 && IsRawBody(n, body)
    ensures var raw := Render1(RawStr(n, body)); SkipLen(raw + next) == |raw| <==> Paired(body) || next == []
  {
    hide RawLen, IsRawBody;
    var s := Render1(RawStr(n, body)) + next;
    assert s[1..][n] == DOUBLE_QUOTE;
    HashCountOf(s[1..], n);
    assert s[2 + n..] == body + [DOUBLE_QUOTE] + Hashes(n) + next;
    RawSkipped(n, body, next);
  }

  lemma WordSkipped(name: Text, next: Text)
    requires (forall i :: 0 <= i < |name| ==> IsIdentPart(name[i])) && (next == [] || !IsIdentPart(next[0]))
    ensures WordLen(name + next) == |name|
  {
    var s, n := name + next, WordLen(name + next);
    assert forall i :: 0 <= i < |name| ==> s[i] == name[i];
    assert next != [] ==> s[|name|] == next[0];
  }

  lemma SkipsCharOrLifetime(t: Token, next: Text)
    requires IsToken(t, next) && (t.CharLit? || t.Lifetime?)
    ensures SkipLen(Render1(t) + next) == |Render1(t)|
  {
    hide WordLen;
    var s := Render1(t) + next;
    if t.CharLit? {
      assert s[1..] == t.body + [QUOTE] + next;
    } else {
      assert s[1..] == t.name + next;
      WordSkipped(t.name, next);
    }
  }

  /** Comments, strings and the like are skipped whole; of code at most the one byte is skipped. */
  lemma SkipsToken(t: Token, next: Text)
    requires IsToken(t, next) && !t.QuotedLetter?
    ensures var n := SkipLen(Render1(t) + next);
            if t.Open? || t.Close? || t.Semi? then n == 0 else n == |Render1(t)| || (t.Plain? && n == 0)
  {
    if t.LineComment? || t.BlockComment? {
      SkipsComment(t, next);
    } else if t.Str? || t.ByteLit? {
      SkipsQuoted(t, next);
    } else if t.RawStr? {
      RawStringSkipped(t.hashes, t.body, next);
    } else if t.CharLit? || t.Lifetime? {
      SkipsCharOrLifetime(t, next);
    } else {
      hide LineLen, BlockLen, QuotedLen, HashCount, RawLen, WordLen, AfterQuoteLen;
      assert |Render1(t) + next| > 1 ==> (Render1(t) + next)[1] == next[0];
      assert (Render1(t) + next)[1..] == next;
      HashesFirst(next);
    }
  }

  lemma HashesFirst(s: Text)
    ensures HashCount(s) == 0 <==> s == [] || s[0] != HASH
  {
  }

  /** A quoted letter is skipped as a lifetime, and its closing quote together with the byte after it. */
  lemma SkipsQuotedLetter(t: Token, next: Text)
    requires IsToken(t, next) && t.QuotedLetter?
    ensures var s := Render1(t) + next; SkipLen(s) == 2 && SkipLen(s[2..]) == 2 && s[2..][2..] == next
  {
    var s := Render1(t) + next;
    assert s[1..] == [t.letter] + ([QUOTE, t.after] + next);
    WordSkipped([t.letter], [QUOTE, t.after] + next);
    assert s[2..] == [QUOTE, t.after] + next && s[2..][1..] == [t.after] + next;
    assert next != [] ==> ([t.after] + next)[1] == next[0];
    hide WordLen;
  }

  // ----- Comments within comments -----

  /** Where the comment opened before `s` ends when comments nest, as they do in the language. */
  function NestedEnd(s: Text, depth: nat): Option<nat>
    requires depth > 0
  {
    if |s| < 2 then None
    else if s[0] == SLASH && s[1] == STAR then Further(2, NestedEnd(s[2..], depth + 1))
    else if s[0] == STAR && s[1] == SLASH then if depth == 1 then Some(2) else Further(2, NestedEnd(s[2..], depth - 1))
    else Further(1, NestedEnd(s[1..], depth))
  }

  function Further(k: nat, n: Option<nat>): Option<nat> {
    match n case None => None case Some(m) => Some(k + m)
  }

  /** Whether another comment is opened before the first closing mark. */
  predicate OpensAnother(s: Text) {
    |s| >= 2 && ((s[0] == SLASH && s[1] == STAR) || (!(s[0] == STAR && s[1] == SLASH) && OpensAnother(s[1..])))
  }

  lemma {:induction false} NestedIsLonger(s: Text, depth: nat)
    requires depth > 0 && NestedEnd(s, depth).Some?
    ensures NestedEnd(s, depth).value >= 2 && NestedEnd(s, depth).value >= BlockLen(s)
    ensures depth > 1 || OpensAnother(s) ==> NestedEnd(s, depth).value > BlockLen(s)
    ensures depth == 1 && !OpensAnother(s) ==> NestedEnd(s, depth).value == BlockLen(s)
    decreases |s|
  {
    if s[0] == SLASH && s[1] == STAR {
      NestedIsLonger(s[2..], depth + 1);
      assert s[1..][1..] == s[2..];
    } else if s[0] == STAR && s[1] == SLASH {
      if depth > 1 { NestedIsLonger(s[2..], depth - 1); }
    } else {
      NestedIsLonger(s[1..], depth);
    }
  }

  /** A comment is skipped whole exactly when no other comment opens inside it. */
  lemma NestedCommentSkipped(s: Text, n: nat)
    requires NestedEnd(s, 1) == Some(n)
    ensures SkipLen([SLASH, STAR] + s) == 2 + n <==> !OpensAnother(s)
  {
    NestedIsLonger(s, 1);
    assert ([SLASH, STAR] + s)[2..] == s;
  }

  // ----- Where the scanner stops -----

  /** Braces open after `ts` when `depth` were open before. */
  function Depth(ts: seq<Token>, depth: int): int {
    if ts == [] then depth
    else Depth(ts[..|ts| - 1], depth) + match ts[|ts| - 1] case Open => 1 case Close => -1 case _ => 0
  }

  /** Token `k` ends the item for the scanner: a semicolon outside all braces, or the brace that closes the last open one. */
  ghost predicate Ends(ts: seq<Token>, k: nat, depth: int, hasBlock: bool) {
    && k < |ts|
    && ((ts[k].Semi? && Depth(ts[..k], depth) == 0)
        || (ts[k].Close? && Depth(ts[..k], depth) == 1 && (hasBlock || Open in ts[..k])))
  }

  /** The number of tokens in the item as the scanner sees it: through the first that ends it, or all of them. */
  ghost predicate EndsAfter(ts: seq<Token>, count: nat, depth: int, hasBlock: bool) {
    && count <= |ts|
    && (forall k :: 0 <= k < count - 1 ==> !Ends(ts, k, depth, hasBlock))
    && (count == |ts| || (count > 0 && Ends(ts, count - 1, depth, hasBlock)))
  }

  lemma {:induction false} DepthShift(ts: seq<Token>, depth: int)
    requires ts != []
    ensures Depth(ts, depth) == Depth(ts[1..], Depth(ts[..1], depth))
  {
    if |ts| > 1 {
      var front := ts[..|ts| - 1];
      DepthShift(front, depth);
      assert front[..1] == ts[..1] && front[1..] == ts[1..][..|ts| - 2];
    } else {
      assert ts[..1] == ts;
    }
  }

  lemma EndsShift(ts: seq<Token>, k: nat, depth: int, hasBlock: bool)
    requires 0 < k <= |ts|
    ensures Ends(ts, k, depth, hasBlock) <==> Ends(ts[1..], k - 1, Depth(ts[..1], depth), hasBlock || ts[0] == Open)
  {
    if k < |ts| {
      DepthShift(ts[..k], depth);
      assert ts[..k][..1] == ts[..1] && ts[..k][1..] == ts[1..][..k - 1];
      assert ts[..k] == [ts[0]] + ts[1..][..k - 1];
    }
  }

  lemma {:induction false} ScansTokens(ts: seq<Token>, count: nat, depth: int, hasBlock: bool)
    requires Tokens(ts) && EndsAfter(ts, count, depth, hasBlock)
    ensures ItemLen(Render(ts), depth, hasBlock) == |Render(ts[..count])|
    decreases |ts|
  {
    hide ItemLen, Depth, Ends, Render1, IsToken;
    if ts == [] {
      NothingToScan(depth, hasBlock);
    } else {
      hide *;
      var t, rest := ts[0], ts[1..];
      FirstToken(ts, count, depth, hasBlock);
      RenderCons(ts, |ts|);
      RenderCons(ts, count);
      assert ts[..|ts|] == ts && rest[..|rest|] == rest;
      ScansFirst(t, Render(rest), depth, hasBlock);
      if !Ends(ts, 0, depth, hasBlock) {
        ScansTokens(rest, count - 1, Depth(ts[..1], depth), hasBlock || t == Open);
      }
    }
  }

  lemma NothingToScan(depth: int, hasBlock: bool)
    ensures ItemLen([], depth, hasBlock) == 0 == |Render([])|
  {
  }

  lemma RenderCons(ts: seq<Token>, count: nat)
    requires 0 < count <= |ts| && Tokens(ts)
    ensures Render(ts[..count]) == Render1(ts[0]) + Render(ts[1..][..count - 1])
    ensures IsToken(ts[0], Render(ts[1..])) && Tokens(ts[1..])
    ensures count == 1 ==> Render(ts[1..][..count - 1]) == []
  {
    hide IsToken, Render1;
    assert ts[..count][1..] == ts[1..][..count - 1];
  }

  /** One token's worth of scanning. */
  lemma ScansFirst(t: Token, next: Text, depth: int, hasBlock: bool)
    requires IsToken(t, next)
    ensures ItemLen(Render1(t) + next, depth, hasBlock) ==
            |Render1(t)| +
            if (t.Semi? && depth == 0) || (t.Close? && depth == 1 && hasBlock) then 0
            else ItemLen(next, depth + (match t case Open => 1 case Close => -1 case _ => 0), hasBlock || t == Open)
  {
    hide SkipLen;
    var s := Render1(t) + next;
    assert s[|Render1(t)|..] == next;
    if t.QuotedLetter? {
      ScansQuotedLetter(t, next, depth, hasBlock);
    } else {
      SkipsToken(t, next);
    }
  }

  lemma ScansQuotedLetter(t: Token, next: Text, depth: int, hasBlock: bool)
    requires IsToken(t, next) && t.QuotedLetter?
    ensures ItemLen(Render1(t) + next, depth, hasBlock) == |Render1(t)| + ItemLen(next, depth, hasBlock)
  {
    hide SkipLen, ItemLen;
    var s := Render1(t) + next;
    SkipsQuotedLetter(t, next);
    SkipsThenScansFrom(s, depth, hasBlock);
    SkipsThenScansFrom(s[2..], depth, hasBlock);
  }

  lemma SkipsThenScansFrom(s: Text, depth: int, hasBlock: bool)
    requires s != [] && SkipLen(s) > 0
    ensures ItemLen(s, depth, hasBlock) == SkipLen(s) + ItemLen(s[SkipLen(s)..], depth, hasBlock)
  {
    hide SkipLen;
  }

  lemma FirstToken(ts: seq<Token>, count: nat, depth: int, hasBlock: bool)
    requires ts != [] && EndsAfter(ts, count, depth, hasBlock)
    ensures count > 0
    ensures Depth(ts[..1], depth) == depth + match ts[0] case Open => 1 case Close => -1 case _ => 0
    ensures Ends(ts, 0, depth, hasBlock) <==> (ts[0].Semi? && depth == 0) || (ts[0].Close? && depth == 1 && hasBlock)
    ensures if Ends(ts, 0, depth, hasBlock) then count == 1
            else EndsAfter(ts[1..], count - 1, Depth(ts[..1], depth), hasBlock || ts[0] == Open)
  {
    assert ts[..0] == [] && ts[..1][..0] == [];
    var rest, d, block := ts[1..], Depth(ts[..1], depth), hasBlock || ts[0] == Open;
    forall k: nat | k < |ts| ensures Ends(rest, k, d, block) <==> Ends(ts, k + 1, depth, hasBlock) {
      EndsShift(ts, k + 1, depth, hasBlock);
    }
  }

  /** The scanner stops after the first token that ends the item for it, for every token list, balanced or not. */
  lemma FindsItemEnd(ts: seq<Token>, count: nat)
    requires Tokens(ts) && EndsAfter(ts, count, 0, false)
    ensures ItemLen(Render(ts), 0, false) == |Render(ts[..count])|
  {
    ScansTokens(ts, count, 0, false);
  }

  /** On any bytes at all the result is the whole text or ends at a `;` or `}`. */
  lemma {:induction false} EndsAtDelimiter(s: Text, depth: int, hasBlock: bool)
    ensures var n := ItemLen(s, depth, hasBlock);
            n == |s| || (0 < n < |s| && (s[n - 1] == SEMICOLON || s[n - 1] == RIGHT_BRACE))
    decreases |s|, 1
  {
    hide SkipLen;
    if s == [] {
    } else if SkipLen(s) > 0 {
      EndsAtDelimiterAfter(s, SkipLen(s), depth, hasBlock);
    } else if s[0] == LEFT_BRACE {
      EndsAtDelimiterAfter(s, 1, depth + 1, true);
    } else if s[0] == RIGHT_BRACE {
      EndsAtDelimiterAfter(s, 1, depth - 1, hasBlock);
    } else {
      EndsAtDelimiterAfter(s, 1, depth, hasBlock);
    }
  }

  lemma {:induction false} EndsAtDelimiterAfter(s: Text, k: nat, depth: int, hasBlock: bool)
    requires 0 < k <= |s|
    ensures var n := k + ItemLen(s[k..], depth, hasBlock);
            n == |s| || (k < n < |s| && (s[n - 1] == SEMICOLON || s[n - 1] == RIGHT_BRACE))
    decreases |s| - k, 2
  {
    hide SkipLen;
    EndsAtDelimiter(s[k..], depth, hasBlock);
  }

  // ----- Literals that are not skipped -----

  /** Exactly which character literals are skipped whole; the documented promise is all of them. */
  lemma CharLiteralSkipped(body: Text, next: Text)
    requires body != [] && Escaped(body, QUOTE)
    ensures SkipLen([QUOTE] + body + [QUOTE] + next) == |body| + 2 <==> SkippedChar(body)
  {
    var s := [QUOTE] + body + [QUOTE] + next;
    assert s[1..] == body + [QUOTE] + next;
    var w := WordLen(s[1..]);
    assert s[1..][|body|] == QUOTE;
    if body[0] == BACKSLASH {
      assert |body| > 2 ==> body[2..][0] != QUOTE;
    } else if |body| > 1 {
      assert body[1..][0] != QUOTE;
    }
  }

  /** After a quoted letter the scanner resumes past the next byte, so a semicolon there is never seen. */
  lemma QuotedLetterHidesSemicolon(letter: Byte, rest: Text)
    requires IsAlpha(letter) && rest != [] && rest[0] != QUOTE
    ensures ItemLen([QUOTE, letter, QUOTE, SEMICOLON] + rest, 0, false) == 4 + ItemLen(rest, 0, false)
  {
    var s := [QUOTE, letter, QUOTE, SEMICOLON] + rest;
    var t := [QUOTE, SEMICOLON] + rest;
    assert s == [QUOTE, letter] + t;
    LetterSkipped(letter, t);
    SemicolonSkipped(rest);
    assert s[2..] == t && t[2..] == rest;
    SkipsThenScansFrom(s, 0, false);
    SkipsThenScansFrom(t, 0, false);
    hide *;
  }

  lemma LetterSkipped(letter: Byte, next: Text)
    requires IsAlpha(letter) && next != [] && next[0] == QUOTE
    ensures SkipLen([QUOTE, letter] + next) == 2
  {
  }

  lemma SemicolonSkipped(rest: Text)
    requires rest == [] || rest[0] != QUOTE
    ensures SkipLen([QUOTE, SEMICOLON] + rest) == 2
  {
  }

  /** A raw string without hashes is left at its opening quote, whatever it holds. */
  lemma HashlessRawStringNotSkipped(body: Text, next: Text)
    ensures SkipLen([LOWER_R, DOUBLE_QUOTE] + body + [DOUBLE_QUOTE] + next) == 2
  {
  }

  // ----- Tokens as they are written -----

  /** The byte of an ASCII character. */
  function Ascii(c: char): Byte
    requires c < '\U{0080}'
  {
    c as int
  }

  /** What the bytes of the tokens are. */
  lemma TokensAsWritten(body: Text)
    ensures Render1(Open) == [Ascii('{')] && Render1(Close) == [Ascii('}')] && Render1(Semi) == [Ascii(';')]
    ensures Render1(LineComment(body)) == [Ascii('/'), Ascii('/')] + body
    ensures Render1(BlockComment(body)) == [Ascii('/'), Ascii('*')] + body + [Ascii('*'), Ascii('/')]
    ensures Render1(Str(body)) == [Ascii('"')] + body + [Ascii('"')]
    ensures Render1(RawStr(1, body)) == [Ascii('r')] + Hashes(1) + [Ascii('"')] + body + [Ascii('"')] + Hashes(1)
    ensures Hashes(1)[0] == Ascii('#')
    ensures Render1(ByteLit(body)) == [Ascii('b'), Ascii('\'')] + body + [Ascii('\'')]
    ensures Render1(CharLit(body)) == [Ascii('\'')] + body + [Ascii('\'')] && Render1(Lifetime(body)) == [Ascii('\'')] + body
    ensures BACKSLASH == Ascii('\\') && LF == Ascii('\n') && CR == Ascii('\r')
  {
  }

  /** What words are made of. */
  lemma WordsAsWritten(b: Byte)
    ensures b < 128 ==> (IsIdentStart(b) <==> 'A' <= b as char <= 'Z' || 'a' <= b as char <= 'z' || b as char == '_')
    ensures b < 128 ==> (IsIdentPart(b) <==> IsIdentStart(b) || '0' <= b as char <= '9')
    ensures b >= 128 ==> !IsIdentStart(b) && !IsIdentPart(b)
  {
  }
}
