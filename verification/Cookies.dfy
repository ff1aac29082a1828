/** Reading the session id from a `Cookie` header, and writing it to a `Set-Cookie` header. */
module Cookies {
  import opened Wrappers
  import opened Strings

  const SESSION_COOKIE_NAME := "sessionid"

  /** The characters that a header value read as text may hold. */
  predicate IsVisible(c: char) {
    ' ' <= c <= '~' || c == '\t'
  }

  predicate IsText(s: string) {
    forall i :: 0 <= i < |s| ==> IsVisible(s[i])
  }

  /** White space among the visible characters. */
  predicate IsBlank(c: char) {
    c == ' ' || c == '\t'
  }

  function TrimStart(s: string): (r: string)
    ensures |r| <= |s| && r == s[|s| - |r|..] && (r == "" || !IsBlank(r[0]))
    ensures forall i :: 0 <= i < |s| - |r| ==> IsBlank(s[i])
  {
    if s != "" && IsBlank(s[0]) then TrimStart(s[1..]) else s
  }

  function TrimEnd(s: string): (r: string)
    ensures r <= s && (r == "" || !IsBlank(r[|r| - 1]))
    ensures forall i :: |r| <= i < |s| ==> IsBlank(s[i])
  {
    if s != "" && IsBlank(s[|s| - 1]) then TrimEnd(s[..|s| - 1]) else s
  }

  function Trim(s: string): string {
    TrimEnd(TrimStart(s))
  }

  /** The value of a piece that names the session cookie; a piece without an equals sign has none. */
  function SessionValue(piece: string): Option<string> {
    match SplitOnce(Trim(piece), '=')
    case None => None
    case Some((name, value)) => if name == SESSION_COOKIE_NAME then Some(value) else None
  }

  function FirstSessionValue(pieces: seq<string>): Option<string> {
    if pieces == [] then None
    else if SessionValue(pieces[0]).Some? then SessionValue(pieces[0])
    else FirstSessionValue(pieces[1..])
  }

  /** The session id in a request's first `Cookie` header. */
  function ExtractSessionId(header: Option<string>): Option<string> {
    if header.None? || !IsText(header.value) then None
    else FirstSessionValue(Split(header.value, ';'))
  }

  // ----- What is found, for any header -----

  /** What a piece that assigns to the session cookie starts with. */
  function Assignment(): string {
    SESSION_COOKIE_NAME + "="
  }

  lemma SessionValueIs(piece: string, v: string)
    ensures SessionValue(piece) == Some(v) <==> Trim(piece) == Assignment() + v
    ensures SessionValue(piece).None? <==> !(Assignment() <= Trim(piece))
  {
    hide Trim;
    var t, start := Trim(piece), Assignment();
    assert '=' !in SESSION_COOKIE_NAME && start == SESSION_COOKIE_NAME + ['='];
    if start <= t {
      var rest := t[|start|..];
      assert t == SESSION_COOKIE_NAME + ['='] + rest;
      SplitOnceAt(SESSION_COOKIE_NAME, '=', rest);
      assert t == start + v ==> rest == v;
    } else if SplitOnce(t, '=').Some? {
      var (name, value) := SplitOnce(t, '=').value;
      assert name + ['='] <= t;
    }
  }

  /** Piece `i` assigns `v` to the session cookie, and no piece before it assigns anything to it. */
  ghost predicate AssignsFirst(pieces: seq<string>, i: nat, v: string)
    requires i < |pieces|
  {
    Trim(pieces[i]) == Assignment() + v && forall j :: 0 <= j < i ==> !(Assignment() <= Trim(pieces[j]))
  }

  ghost predicate FirstAssignment(pieces: seq<string>, v: string) {
    exists i :: 0 <= i < |pieces| && AssignsFirst(pieces, i, v)
  }

  lemma {:induction false} FirstSessionValueIs(pieces: seq<string>, v: string)
    ensures FirstSessionValue(pieces) == Some(v) <==> FirstAssignment(pieces, v)
  {
    hide Trim, SessionValue, Assignment;
    if pieces != [] {
      var rest := pieces[1..];
      SessionValueIs(pieces[0], v);
      FirstSessionValueIs(rest, v);
      if SessionValue(pieces[0]).None? {
        forall i | 0 <= i < |rest| ensures AssignsFirst(rest, i, v) <==> AssignsFirst(pieces, i + 1, v) {
          assert forall j :: 0 <= j < i + 1 ==> j == 0 || pieces[j] == rest[j - 1];
          assert forall j :: 0 <= j < i ==> rest[j] == pieces[j + 1];
        }
        if exists i :: 0 <= i < |pieces| && AssignsFirst(pieces, i, v) {
          var i :| 0 <= i < |pieces| && AssignsFirst(pieces, i, v);
          AssignmentIsPrefix(v);
          assert AssignsFirst(rest, i - 1, v);
        }
      } else {
        AssignmentIsPrefix(v);
        assert forall i :: 0 < i < |pieces| ==> !AssignsFirst(pieces, i, v);
        assert AssignsFirst(pieces, 0, v) <==> FirstSessionValue(pieces) == Some(v);
      }
    }
  }

  lemma AssignmentIsPrefix(v: string)
    ensures Assignment() <= Assignment() + v
  {
  }

  /** Any header: the first piece between semicolons that, trimmed, assigns to the session cookie. */
  lemma ExtractsExactly(header: string, v: string)
    ensures ExtractSessionId(Some(header)) == Some(v) <==>
            IsText(header) && FirstAssignment(Split(header, ';'), v)
  {
    FirstSessionValueIs(Split(header, ';'), v);
    hide FirstSessionValue, FirstAssignment, Split;
  }

  // ----- Well-formed cookie lists, section 4.2.1 of RFC 6265 -----

  datatype Pair = Pair(name: string, value: string)
  {
    /** Neither separators nor white space; the value may hold equals signs. */
    predicate Valid() {
      && IsText(name) && IsText(value)
      && (forall c :: c in name ==> !IsBlank(c) && c != ';' && c != '=')
      && (forall c :: c in value ==> !IsBlank(c) && c != ';')
    }

    function Text(): string {
      name + "=" + value
    }
  }

  /** Pairs joined by a semicolon and a space. */
  function CookieList(pairs: seq<Pair>): string {
    if pairs == [] then ""
    else if |pairs| == 1 then pairs[0].Text()
    else pairs[0].Text() + ";" + (" " + CookieList(pairs[1..]))
  }

  function ValueOf(pairs: seq<Pair>, name: string): Option<string> {
    if pairs == [] then None
    else if pairs[0].name == name then Some(pairs[0].value)
    else ValueOf(pairs[1..], name)
  }

  lemma TrimPair(p: Pair)
    requires p.Valid()
    ensures Trim(p.Text()) == p.Text() && Trim(" " + p.Text()) == p.Text()
    ensures ';' !in p.Text() && IsText(p.Text())
  {
    hide Trim, Pair.Text;
    var t := p.Text();
    PairCharacters(p);
    TrimKeeps(t);
  }

  lemma PairCharacters(p: Pair)
    requires p.Valid()
    ensures var t := p.Text(); t != "" && forall c :: c in t ==> !IsBlank(c) && c != ';' && IsVisible(c)
  {
  }

  lemma TrimKeeps(t: string)
    requires t != "" && forall c :: c in t ==> !IsBlank(c)
    ensures Trim(t) == t && Trim(" " + t) == t
  {
    assert t[0] in t && t[|t| - 1] in t;
    assert (" " + t)[1..] == t;
    assert TrimStart(" " + t) == TrimStart(t);
  }

  lemma PairValue(p: Pair, piece: string)
    requires p.Valid() && Trim(piece) == p.Text()
    ensures SessionValue(piece) == if p.name == SESSION_COOKIE_NAME then Some(p.value) else None
  {
    SplitOnceAt(p.name, '=', p.value);
  }

  lemma {:induction false} PiecesOfList(pairs: seq<Pair>, lead: string)
    requires (forall p :: p in pairs ==> p.Valid()) && pairs != [] && (lead == "" || lead == " ")
    ensures IsText(CookieList(pairs))
    ensures FirstSessionValue(Split(lead + CookieList(pairs), ';')) == ValueOf(pairs, SESSION_COOKIE_NAME)
  {
    hide *;
    var p, rest := pairs[0], pairs[1..];
    assert p in pairs && forall q :: q in rest ==> q in pairs;
    TrimPair(p);
    var piece := lead + p.Text();
    assert "" + p.Text() == p.Text();
    PairValue(p, piece);
    ListUnfolds(pairs);
    if rest == [] {
      SplitNone(piece, ';');
      FirstOf(piece, []);
      assert [piece] + [] == [piece];
    } else {
      PiecesOfList(rest, " ");
      var tail := " " + CookieList(rest);
      assert lead + (p.Text() + ";" + tail) == piece + [';'] + tail;
      SplitFirst(piece, ';', tail);
      FirstOf(piece, Split(tail, ';'));
    }
  }

  lemma TextConcat(a: string, b: string)
    requires IsText(a) && IsText(b)
    ensures IsText(a + ";" + (" " + b))
  {
  }

  lemma ListUnfolds(pairs: seq<Pair>)
    requires pairs != []
    ensures CookieList(pairs) ==
            if |pairs| == 1 then pairs[0].Text() else pairs[0].Text() + ";" + (" " + CookieList(pairs[1..]))
    ensures |pairs| == 1 || (IsText(pairs[0].Text()) && IsText(CookieList(pairs[1..])) ==> IsText(CookieList(pairs)))
    ensures ValueOf(pairs, SESSION_COOKIE_NAME) ==
            if pairs[0].name == SESSION_COOKIE_NAME then Some(pairs[0].value) else ValueOf(pairs[1..], SESSION_COOKIE_NAME)
    ensures ValueOf([], SESSION_COOKIE_NAME).None? && FirstSessionValue([]).None?
  {
    hide Pair.Text, IsText;
    if |pairs| > 1 && IsText(pairs[0].Text()) && IsText(CookieList(pairs[1..])) { TextConcat(pairs[0].Text(), CookieList(pairs[1..])); }
  }

  lemma FirstOf(piece: string, pieces: seq<string>)
    ensures FirstSessionValue([piece] + pieces) ==
            if SessionValue(piece).Some? then SessionValue(piece) else FirstSessionValue(pieces)
  {
  }

  /** From a well-formed list, the value of the first pair with the session cookie's name. */
  lemma ExtractsFirstPair(pairs: seq<Pair>)
    requires forall p :: p in pairs ==> p.Valid()
    ensures ExtractSessionId(Some(CookieList(pairs))) == ValueOf(pairs, SESSION_COOKIE_NAME)
  {
    if pairs == [] {
      assert Split("", ';') == [""] && Trim("") == "";
    } else {
      PiecesOfList(pairs, "");
      assert "" + CookieList(pairs) == CookieList(pairs);
    }
  }

  // ----- What a login writes -----

  const LOGIN_ATTRIBUTES := " HttpOnly; Secure; Path=/; SameSite=Lax"

  function LoginCookie(id: string): string {
    SESSION_COOKIE_NAME + "=" + id + ";" + LOGIN_ATTRIBUTES
  }

  function LogoutCookie(): string {
    SESSION_COOKIE_NAME + "=; HttpOnly; Path=/; Max-Age=0"
  }

  /** The pair that a user agent keeps from a `Set-Cookie` value, section 5.2 of RFC 6265. */
  function StoredPair(setCookie: string): Option<Pair> {
    match SplitOnce(Split(setCookie, ';')[0], '=')
    case None => None
    case Some((name, value)) => if Trim(name) == "" then None else Some(Pair(Trim(name), Trim(value)))
  }

  /** A user agent keeps the pair and drops the attributes. */
  lemma KeptPair(p: Pair, attributes: string)
    requires p.Valid() && p.name != ""
    ensures StoredPair(p.Text() + ";" + attributes) == Some(p)
  {
    hide Trim, Pair.Valid;
    TrimPair(p);
    TrimParts(p);
    SplitFirst(p.Text(), ';', attributes);
    SplitOnceAt(p.name, '=', p.value);
    assert p.Text() + ";" + attributes == p.Text() + [';'] + attributes;
  }

  lemma LoginCookieIs(id: string)
    ensures SESSION_COOKIE_NAME != "" && LoginCookie(id) == Pair(SESSION_COOKIE_NAME, id).Text() + ";" + LOGIN_ATTRIBUTES
  {
  }

  lemma TrimParts(p: Pair)
    requires p.Valid()
    ensures Trim(p.name) == p.name && Trim(p.value) == p.value && '=' !in p.name
  {
    hide *;
    ValidParts(p);
    TrimNothing(p.name);
    TrimNothing(p.value);
  }

  lemma ValidParts(p: Pair)
    requires p.Valid()
    ensures forall c :: c in p.name ==> !IsBlank(c) && c != '='
    ensures forall c :: c in p.value ==> !IsBlank(c)
  {
    hide IsBlank, IsText;
  }

  /** Text without blanks at its ends is trimmed already. */
  lemma TrimNothing(s: string)
    requires forall c :: c in s ==> !IsBlank(c)
    ensures Trim(s) == s
  {
    assert s != "" ==> s[0] in s && s[|s| - 1] in s;
  }

  lemma {:induction false} ValueOfAfter(before: seq<Pair>, pair: Pair, after: seq<Pair>)
    requires forall p :: p in before ==> p.name != pair.name
    ensures ValueOf(before + [pair] + after, pair.name) == Some(pair.value)
  {
    var all := before + [pair] + after;
    if before != [] {
      assert all[1..] == before[1..] + [pair] + after;
      assert all[0] == before[0] && before[0] in before;
      ValueOfAfter(before[1..], pair, after);
    }
  }

  /** The id that a login writes is read back, wherever the user agent puts it among its other cookies. */
  lemma LoginRoundTrip(id: string, before: seq<Pair>, after: seq<Pair>)
    requires Pair(SESSION_COOKIE_NAME, id).Valid()
    requires forall p :: p in before || p in after ==> p.Valid()
    requires forall p :: p in before ==> p.name != SESSION_COOKIE_NAME
    ensures var kept := StoredPair(LoginCookie(id));
            kept.Some? && ExtractSessionId(Some(CookieList(before + [kept.value] + after))) == Some(id)
  {
    hide *;
    var pair := Pair(SESSION_COOKIE_NAME, id);
    LoginCookieIs(id);
    KeptPair(pair, LOGIN_ATTRIBUTES);
    ExtractsFirstPair(before + [pair] + after);
    ValueOfAfter(before, pair, after);
  }

  // ----- Cookies character by character -----

  predicate IsSpaceOrTab(c: char) {
    c == ' ' || c == '\t'
  }

  predicate IsBlankText(s: string) {
    forall c :: c in s ==> IsSpaceOrTab(c)
  }

  /** Neither starts nor ends in a blank. */
  predicate IsTrimmed(t: string) {
    t == "" || (!IsSpaceOrTab(t[0]) && !IsSpaceOrTab(t[|t| - 1]))
  }

  lemma {:induction false} StartCut(s: string) returns (a: string)
    ensures s == a + TrimStart(s) && IsBlankText(a)
    ensures TrimStart(s) == "" || !IsSpaceOrTab(TrimStart(s)[0])
  {
    hide *;
    StartUnfolds(s);
    if s != "" && IsBlank(s[0]) {
      var rest := StartCut(s[1..]);
      a := [s[0]] + rest;
      BlankMore(s[0], rest);
      ConsCut(s, rest, TrimStart(s[1..]));
    } else {
      a := "";
      NothingBlank(s);
    }
  }

  lemma StartUnfolds(s: string)
    ensures TrimStart(s) == if s != "" && IsBlank(s[0]) then TrimStart(s[1..]) else s
  {
  }

  lemma NothingBlank(s: string)
    ensures IsBlankText("") && s == "" + s
    ensures s == "" || IsBlank(s[0]) || !IsSpaceOrTab(s[0])
  {
  }

  lemma ConsCut(s: string, a: string, b: string)
    requires s != "" && s[1..] == a + b
    ensures s == [s[0]] + a + b
  {
  }

  lemma BlankMore(c: char, s: string)
    requires IsBlank(c) && IsBlankText(s)
    ensures IsBlankText([c] + s)
  {
  }

  lemma {:induction false} EndCut(s: string) returns (b: string)
    ensures s == TrimEnd(s) + b && IsBlankText(b)
    ensures TrimEnd(s) == "" || (!IsSpaceOrTab(TrimEnd(s)[|TrimEnd(s)| - 1]) && TrimEnd(s)[0] == s[0])
  {
    if s != "" && IsBlank(s[|s| - 1]) {
      var n := |s| - 1;
      b := EndCut(s[..n]);
      assert s == s[..n] + [s[n]];
      b := b + [s[n]];
    } else {
      b := "";
    }
  }

  lemma TrimmedParts(s: string) returns (a: string, b: string)
    ensures IsTrimmed(Trim(s)) && IsBlankText(a) && IsBlankText(b) && s == a + Trim(s) + b
  {
    hide TrimStart, TrimEnd, IsBlankText;
    a := StartCut(s);
    b := EndCut(TrimStart(s));
    assert a + (TrimEnd(TrimStart(s)) + b) == a + TrimEnd(TrimStart(s)) + b;
  }

  /** Trimming takes the blanks at both ends, and only those. */
  lemma TrimExactly(s: string, t: string)
    ensures Trim(s) == t <==> IsTrimmed(t) && exists a, b :: IsBlankText(a) && IsBlankText(b) && s == a + t + b
  {
    hide Trim, IsTrimmed, IsBlankText;
    var a, b := TrimmedParts(s);
    forall x, y | IsTrimmed(t) && IsBlankText(x) && IsBlankText(y) && s == x + t + y ensures Trim(s) == t {
      TrimmedBetween(x, t, y);
    }
  }

  lemma {:induction false} TrimmedBetween(x: string, t: string, y: string)
    requires IsBlankText(x) && IsBlankText(y) && IsTrimmed(t)
    ensures Trim(x + t + y) == t
    decreases |x| + |y|
  {
    var s := x + t + y;
    if x != "" {
      assert x[0] in x && forall c :: c in x[1..] ==> c in x;
      assert s[1..] == x[1..] + t + y;
      TrimmedBetween(x[1..], t, y);
    } else if t == "" {
      AllTrimmed(y);
      assert s == y;
    } else {
      assert s == t + y && s[0] == t[0];
      EndTrimmed(t, y);
    }
  }

  lemma {:induction false} AllTrimmed(y: string)
    requires IsBlankText(y)
    ensures Trim(y) == ""
  {
    if y != "" {
      assert y[0] in y && forall c :: c in y[1..] ==> c in y;
      AllTrimmed(y[1..]);
    }
  }

  lemma {:induction false} EndTrimmed(t: string, y: string)
    requires IsBlankText(y) && t != "" && !IsSpaceOrTab(t[|t| - 1])
    ensures TrimEnd(t + y) == t
  {
    if y == "" {
      assert t + y == t;
    } else {
      var n := |y| - 1;
      assert (t + y)[..|t| + n] == t + y[..n] && y[n] in y && forall c :: c in y[..n] ==> c in y;
      EndTrimmed(t, y[..n]);
    }
  }

  /** The piece is blanks, `sessionid=`, the value, which does not end in a blank, and blanks. */
  ghost predicate Assigns(piece: string, v: string) {
    && (v == "" || !IsSpaceOrTab(v[|v| - 1]))
    && exists a, b :: IsBlankText(a) && IsBlankText(b) && piece == a + "sessionid=" + v + b
  }

  lemma AssignsExactly(piece: string, v: string)
    ensures Trim(piece) == Assignment() + v <==> Assigns(piece, v)
  {
    hide Trim, IsBlankText;
    var t := "sessionid=" + v;
    AssignmentAsWritten(v);
    TrimExactly(piece, t);
    forall a: string, b: string ensures a + t + b == a + "sessionid=" + v + b {}
  }

  lemma AssignmentAsWritten(v: string)
    ensures Assignment() + v == "sessionid=" + v
    ensures IsTrimmed("sessionid=" + v) <==> v == "" || !IsSpaceOrTab(v[|v| - 1])
  {
    assert Assignment() == "sessionid=";
    assert ("sessionid=" + v)[0] == 's';
  }

  lemma VisibleExactly(s: string)
    ensures IsText(s) <==> forall c :: c in s ==> 0x20 <= c as int <= 0x7E || c == '\t'
  {
    if IsText(s) {
      forall c | c in s ensures 0x20 <= c as int <= 0x7E || c == '\t' { var i :| 0 <= i < |s| && s[i] == c; }
    }
    if forall c :: c in s ==> 0x20 <= c as int <= 0x7E || c == '\t' {
      forall i | 0 <= i < |s| ensures IsVisible(s[i]) { assert s[i] in s; }
    }
  }

  /**
   What is read from a header of visible characters, blanks and tabs: the value of the first piece between
   semicolons that is, but for blanks around it, `sessionid=` and a value.
   */
  lemma ReadsExactly(header: string, v: string)
    ensures ExtractSessionId(Some(header)) == Some(v) <==>
            && (forall c :: c in header ==> 0x20 <= c as int <= 0x7E || c == '\t')
            && exists i :: 0 <= i < |Split(header, ';')| && Assigns(Split(header, ';')[i], v)
                           && forall j, w :: 0 <= j < i ==> !Assigns(Split(header, ';')[j], w)
  {
    var pieces := Split(header, ';');
    ExtractsExactly(header, v);
    VisibleExactly(header);
    hide Split, Trim, Assigns, Assignment, IsText, ExtractSessionId;
    forall i | 0 <= i < |pieces|
      ensures AssignsFirst(pieces, i, v) <==> Assigns(pieces[i], v) && forall j, w :: 0 <= j < i ==> !Assigns(pieces[j], w)
    {
      AssignsExactly(pieces[i], v);
      forall j | 0 <= j < i ensures Assignment() <= Trim(pieces[j]) <==> exists w :: Assigns(pieces[j], w) {
        AssignsSome(pieces[j]);
      }
    }
  }

  lemma AssignsSome(piece: string)
    ensures Assignment() <= Trim(piece) <==> exists w :: Assigns(piece, w)
  {
    hide Trim, Assigns, Assignment;
    var t, start := Trim(piece), Assignment();
    if start <= t {
      assert t == start + t[|start|..];
      AssignsExactly(piece, t[|start|..]);
    }
    if w :| Assigns(piece, w) {
      AssignsExactly(piece, w);
    }
  }

  /** What is written at login and at logout. */
  lemma CookiesAsWritten(id: string)
    ensures LoginCookie(id) == "sessionid" + "=" + id + ";" + " HttpOnly; Secure; Path=/; SameSite=Lax"
    ensures LogoutCookie() == "sessionid" + "=; HttpOnly; Path=/; Max-Age=0"
  {
  }
}
