/**
 The byte scanner of the codemod: how far an item extends from its first byte.
 Text is a sequence of UTF-8 bytes.
 */
module ItemScanner {

  type Byte = b: int | 0 <= b < 256
  type Text = seq<Byte>

  const LF: Byte := 10
  const CR: Byte := 13
  const DOUBLE_QUOTE: Byte := 34
  const HASH: Byte := 35
  const QUOTE: Byte := 39
  const STAR: Byte := 42
  const SLASH: Byte := 47
  const SEMICOLON: Byte := 59
  const LEFT_BRACKET: Byte := 91
  const BACKSLASH: Byte := 92
  const UNDERSCORE: Byte := 95
  const LOWER_B: Byte := 98
  const LOWER_R: Byte := 114
  const LEFT_BRACE: Byte := 123
  const RIGHT_BRACE: Byte := 125

  predicate IsAlpha(b: Byte) {
    65 <= b <= 90 || 97 <= b <= 122
  }

  predicate IsIdentStart(b: Byte) {
    IsAlpha(b) || b == UNDERSCORE
  }

  predicate IsIdentPart(b: Byte) {
    IsIdentStart(b) || 48 <= b <= 57
  }

  // ----- Lengths of the constructs the scanner skips -----

  /** Bytes before the next line feed. */
  function LineLen(s: Text): (n: nat)
    ensures n <= |s| && (n == |s| || s[n] == LF) && LF !in s[..n]
  {
    if s == [] || s[0] == LF then 0
    else
      var n := 1 + LineLen(s[1..]);
      assert s[..n] == [s[0]] + s[1..][..n - 1];
      n
  }

  /** Bytes of a block comment after its opening, with its closing if there is one. */
  function BlockLen(s: Text): (n: nat)
    ensures n <= |s|
  {
    if |s| < 2 then 0
    else if s[0] == STAR && s[1] == SLASH then 2
    else 1 + BlockLen(s[1..])
  }

  /** Bytes of a literal after its opening `quote`, with the closing one if there is one. */
  function QuotedLen(s: Text, quote: Byte): (n: nat)
    ensures n <= |s|
  {
    if s == [] then 0
    else if s[0] == quote then 1
    else if s[0] == BACKSLASH && |s| > 1 then 2 + QuotedLen(s[2..], quote)
    else 1 + QuotedLen(s[1..], quote)
  }

  function HashCount(s: Text): (n: nat)
    ensures n <= |s| && (n == |s| || s[n] != HASH) && forall i :: 0 <= i < n ==> s[i] == HASH
  {
    if s == [] || s[0] != HASH then 0 else 1 + HashCount(s[1..])
  }

  /** Bytes of a raw string from where its content is read, up to a quote with `hashes` hashes. */
  function RawLen(s: Text, hashes: nat): (n: nat)
    ensures n <= |s|
  {
    if s == [] then 0
    else if s[0] == DOUBLE_QUOTE && HashCount(s[1..]) >= hashes then 1 + hashes
    else if s[0] == BACKSLASH && |s| > 1 then 2 + RawLen(s[2..], hashes)
    else 1 + RawLen(s[1..], hashes)
  }

  function WordLen(s: Text): (n: nat)
    ensures n <= |s| && (n == |s| || !IsIdentPart(s[n])) && forall i :: 0 <= i < n ==> IsIdentPart(s[i])
  {
    if s == [] || !IsIdentPart(s[0]) then 0 else 1 + WordLen(s[1..])
  }

  /** Bytes skipped after a single quote: a lifetime's name, or one character and its closing quote. */
  function AfterQuoteLen(s: Text): (n: nat)
    ensures n <= |s|
  {
    if s == [] then 0
    else if IsIdentStart(s[0]) then WordLen(s)
    else
      var k := if s[0] == BACKSLASH && |s| > 1 then 2 else 1;
      if k < |s| && s[k] == QUOTE then k + 1 else k
  }

  /** Bytes to skip at the head of `s`; zero when its first byte is read as code. */
  function SkipLen(s: Text): (n: nat)
    requires s != []
    ensures n <= |s|
  {
    if s[0] == SLASH && |s| > 1 && s[1] == SLASH then LineLen(s)
    else if s[0] == SLASH && |s| > 1 && s[1] == STAR then 2 + BlockLen(s[2..])
    else if s[0] == LOWER_R && |s| > 1 && s[1] == DOUBLE_QUOTE then 1 + RawLen(s[1..], 0)
    else if s[0] == LOWER_R && |s| > 1 && s[1] == HASH then
      var hashes := HashCount(s[1..]);
      if 1 + hashes < |s| && s[1 + hashes] == DOUBLE_QUOTE then 2 + hashes + RawLen(s[2 + hashes..], hashes) else 1
    else if s[0] == DOUBLE_QUOTE then 1 + QuotedLen(s[1..], DOUBLE_QUOTE)
    else if s[0] == LOWER_B && |s| > 1 && s[1] == QUOTE then 2 + QuotedLen(s[2..], QUOTE)
    else if s[0] == QUOTE then 1 + AfterQuoteLen(s[1..])
    else 0
  }

  /** Length of the rest of the item when `depth` braces are open and `hasBlock` says whether any was. */
  function ItemLen(s: Text, depth: int, hasBlock: bool): (n: nat)
    ensures n <= |s|
    decreases |s|
  {
    if s == [] then 0
    else if SkipLen(s) > 0 then SkipLen(s) + ItemLen(s[SkipLen(s)..], depth, hasBlock)
    else if s[0] == LEFT_BRACE then 1 + ItemLen(s[1..], depth + 1, true)
    else if s[0] == RIGHT_BRACE then
      if depth == 1 && hasBlock then 1 else 1 + ItemLen(s[1..], depth - 1, hasBlock)
    else if s[0] == SEMICOLON && depth == 0 then 1
    else 1 + ItemLen(s[1..], depth, hasBlock)
  }

  // ----- The scanning loops -----

  method SkipLineComment(src: Text, start: nat) returns (i: nat)
    requires start <= |src|
    ensures i == start + LineLen(src[start..])
  {
    i := start;
    while i < |src| && src[i] != LF
      invariant i <= |src| && i + LineLen(src[i..]) == start + LineLen(src[start..])
    {
      assert src[i..][1..] == src[i + 1..];
      i := i + 1;
    }
  }

  method SkipBlockComment(src: Text, start: nat) returns (i: nat)
    requires start <= |src|
    ensures i == start + BlockLen(src[start..])
  {
    i := start;
    while i + 1 < |src| && !(src[i] == STAR && src[i + 1] == SLASH)
      invariant i <= |src| && i + BlockLen(src[i..]) == start + BlockLen(src[start..])
    {
      assert src[i..][1..] == src[i + 1..];
      i := i + 1;
    }
    if i + 1 < |src| {
      i := i + 2;
    }
  }

  /** Literals whose content may escape any byte: strings and byte literals. */
  method SkipQuoted(src: Text, start: nat, quote: Byte) returns (i: nat)
    requires start <= |src|
    ensures i == start + QuotedLen(src[start..], quote)
  {
    i := start;
    while i < |src|
      invariant i <= |src| && i + QuotedLen(src[i..], quote) == start + QuotedLen(src[start..], quote)
    {
      if src[i] == quote {
        return i + 1;
      }
      if src[i] == BACKSLASH && i + 1 < |src| {
        assert src[i..][2..] == src[i + 2..];
        i := i + 2;
      } else {
        assert src[i..][1..] == src[i + 1..];
        i := i + 1;
      }
    }
  }

  method CountHashes(src: Text, start: nat) returns (j: nat)
    requires start <= |src|
    ensures j == start + HashCount(src[start..])
  {
    j := start;
    while j < |src| && src[j] == HASH
      invariant j <= |src| && j + HashCount(src[j..]) == start + HashCount(src[start..])
    {
      assert src[j..][1..] == src[j + 1..];
      j := j + 1;
    }
  }

  /** Whether `wanted` hashes start at `start`. */
  method MatchHashes(src: Text, start: nat, wanted: nat) returns (all: bool)
    requires start <= |src|
    ensures all <==> HashCount(src[start..]) >= wanted
  {
    var h, j := 0, start;
    while j < |src| && src[j] == HASH && h < wanted
      invariant h <= wanted && j == start + h <= |src|
      invariant h + HashCount(src[j..]) == HashCount(src[start..])
    {
      assert src[j..][1..] == src[j + 1..];
      h, j := h + 1, j + 1;
    }
    all := h == wanted;
  }

  method SkipRawContent(src: Text, start: nat, hashCount: nat) returns (i: nat)
    requires start <= |src|
    ensures i == start + RawLen(src[start..], hashCount)
  {
    i := start;
    while i < |src|
      invariant i <= |src| && i + RawLen(src[i..], hashCount) == start + RawLen(src[start..], hashCount)
    {
      assert src[i..][1..] == src[i + 1..];
      if src[i] == DOUBLE_QUOTE {
        var closes := MatchHashes(src, i + 1, hashCount);
        if closes {
          return i + 1 + hashCount;
        }
      }
      if src[i] == BACKSLASH && i + 1 < |src| {
        assert src[i..][2..] == src[i + 2..];
        i := i + 2;
      } else {
        i := i + 1;
      }
    }
  }

  method SkipWord(src: Text, start: nat) returns (i: nat)
    requires start <= |src|
    ensures i == start + WordLen(src[start..])
  {
    i := start;
    while i < |src| && IsIdentPart(src[i])
      invariant i <= |src| && i + WordLen(src[i..]) == start + WordLen(src[start..])
    {
      assert src[i..][1..] == src[i + 1..];
      i := i + 1;
    }
  }

  method SkipAfterQuote(src: Text, start: nat) returns (i: nat)
    requires start <= |src|
    ensures i == start + AfterQuoteLen(src[start..])
  {
    i := start;
    if i < |src| {
      if IsIdentStart(src[i]) {
        i := SkipWord(src, i);
      } else {
        if src[i] == BACKSLASH && i + 1 < |src| {
          i := i + 2;
        } else {
          i := i + 1;
        }
        if i < |src| && src[i] == QUOTE {
          i := i + 1;
        }
      }
    }
  }

  /** Moves past the comment, literal or lifetime that starts at `start`, if one does. */
  method SkipConstruct(src: Text, start: nat) returns (i: nat)
    requires start < |src|
    ensures i == start + SkipLen(src[start..])
  {
    hide LineLen, BlockLen, QuotedLen, HashCount, RawLen, WordLen, AfterQuoteLen;
    i := start;
    var ch, more := src[i], i + 1 < |src|;
    assert src[start..][1..] == src[start + 1..];
    assert more ==> src[start..][2..] == src[start + 2..];
    if ch == SLASH && more && src[i + 1] == SLASH {
      i := SkipLineComment(src, i);
    } else if ch == SLASH && more && src[i + 1] == STAR {
      i := SkipBlockComment(src, i + 2);
    } else if ch == LOWER_R && more && src[i + 1] == DOUBLE_QUOTE {
      i := SkipRawContent(src, i + 1, 0);
    } else if ch == LOWER_R && more && src[i + 1] == HASH {
      var j := CountHashes(src, i + 1);
      if j < |src| && src[j] == DOUBLE_QUOTE {
        assert src[start..][j + 1 - start..] == src[j + 1..];
        i := SkipRawContent(src, j + 1, j - (i + 1));
      } else {
        i := i + 1;
      }
    } else if ch == DOUBLE_QUOTE {
      i := SkipQuoted(src, i + 1, DOUBLE_QUOTE);
    } else if ch == LOWER_B && more && src[i + 1] == QUOTE {
      i := SkipQuoted(src, i + 2, QUOTE);
    } else if ch == QUOTE {
      i := SkipAfterQuote(src, i + 1);
    }
  }

  method FindItemEndOffset(src: Text) returns (end: nat)
    ensures end == ItemLen(src, 0, false)
  {
    hide SkipLen;
    var braceDepth := 0;
    var hasBlock := false;
    var i := 0;
    while i < |src|
      invariant i <= |src|
      invariant i + ItemLen(src[i..], braceDepth, hasBlock) == ItemLen(src, 0, false)
      decreases |src| - i
    {
      ghost var s := src[i..];
      var next := SkipConstruct(src, i);
      assert s[SkipLen(s)..] == src[next..];
      if next > i {
        i := next;
        continue;
      }
      assert s[1..] == src[i + 1..];
      if src[i] == LEFT_BRACE {
        braceDepth := braceDepth + 1;
        hasBlock := true;
      } else if src[i] == RIGHT_BRACE {
        braceDepth := braceDepth - 1;
        if braceDepth == 0 && hasBlock {
          return i + 1;
        }
      } else if src[i] == SEMICOLON && braceDepth == 0 {
        return i + 1;
      }
      i := i + 1;
    }
    end := |src|;
  }
}
