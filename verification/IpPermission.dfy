/** CIDR ranges and the address lists made of them. */
module IpPermission {
  import opened Wrappers
  import opened Strings
  import opened Decimal
  import opened Bits

  /** An address is the number its octets spell, most significant first. */
  datatype IpAddr = V4(bits: nat) | V6(bits: nat)
  {
    function Width(): nat {
      if V4? then 32 else 128
    }

    predicate Valid() {
      bits < Pow2(Width())
    }
  }

  datatype CidrRange = CidrRange(network: IpAddr, prefixLen: nat)
  {
    /** What parsing guarantees. */
    predicate Valid() {
      network.Valid() && prefixLen <= network.Width()
    }

    function Mask(): nat
      requires prefixLen <= network.Width()
    {
      if prefixLen == 0 then 0 else ShiftLeft(Ones(network.Width()), network.Width() - prefixLen, network.Width())
    }

    predicate Contains(ip: IpAddr)
      requires prefixLen <= network.Width()
    {
      ip.V4? == network.V4? && BitAnd(network.bits, Mask()) == BitAnd(ip.bits, Mask())
    }

    /** The number of addresses in the range. */
    function Size(): nat
      requires prefixLen <= network.Width()
    {
      Pow2(network.Width() - prefixLen)
    }

    /** The lowest address of the range. */
    function First(): nat
      requires prefixLen <= network.Width()
    {
      RoundDown(network.bits, Size())
    }
  }

  lemma MaskRoundsDown(c: CidrRange, x: nat)
    requires c.Valid() && x < Pow2(c.network.Width())
    ensures BitAnd(x, c.Mask()) == RoundDown(x, c.Size())
  {
    var w, k := c.network.Width(), c.network.Width() - c.prefixLen;
    AndHighBits(x, k, w);
    if c.prefixLen > 0 { ShiftedOnes(k, w); }
  }

  /** A range is the aligned interval of 2^(width - prefix) addresses around its network address. */
  lemma ContainsIsInterval(c: CidrRange, ip: IpAddr)
    requires c.Valid() && ip.Valid()
    ensures c.Contains(ip) <==> ip.V4? == c.network.V4? && c.First() <= ip.bits < c.First() + c.Size()
  {
    if ip.V4? == c.network.V4? {
      MaskRoundsDown(c, c.network.bits);
      MaskRoundsDown(c, ip.bits);
      SameBlock(ip.bits, c.network.bits, c.Size());
    }
  }

  lemma ContainsIsSameBlock(c: CidrRange, ip: IpAddr)
    requires c.Valid() && ip.Valid()
    ensures c.Contains(ip) <==> ip.V4? == c.network.V4? && ip.bits / c.Size() == c.network.bits / c.Size()
  {
    ContainsIsInterval(c, ip);
    SameBlock(ip.bits, c.network.bits, c.Size());
  }

  /** An address is in a range exactly when it is of its family and agrees with it in the leading bits. */
  lemma LeadingBitsAgree(c: CidrRange, ip: IpAddr)
    requires c.Valid() && ip.Valid()
    ensures c.prefixLen <= if c.network.V4? then 32 else 128
    ensures c.Contains(ip) <==>
            if c.network.V4? then ip.V4? && ip.bits / Pow2(32 - c.prefixLen) == c.network.bits / Pow2(32 - c.prefixLen)
            else ip.V6? && ip.bits / Pow2(128 - c.prefixLen) == c.network.bits / Pow2(128 - c.prefixLen)
  {
    hide Pow2;
    ContainsIsSameBlock(c, ip);
  }

  /** A shorter prefix that shares one address with a longer one contains all of it. */
  lemma SharedAddressNests(wide: CidrRange, narrow: CidrRange, shared: IpAddr, ip: IpAddr)
    requires wide.Valid() && narrow.Valid() && shared.Valid() && ip.Valid()
    requires wide.network.V4? == narrow.network.V4? && wide.prefixLen <= narrow.prefixLen
    requires wide.Contains(shared) && narrow.Contains(shared) && narrow.Contains(ip)
    ensures wide.Contains(ip)
  {
    hide *;
    ContainsIsSameBlock(wide, shared);
    ContainsIsSameBlock(narrow, shared);
    ContainsIsSameBlock(narrow, ip);
    ContainsIsSameBlock(wide, ip);
    ValidFacts(wide);
    ValidFacts(narrow);
    var more := Pow2(narrow.prefixLen - wide.prefixLen);
    SizeIsMultiple(wide, narrow);
    DivDiv(ip.bits, narrow.Size(), more);
    DivDiv(shared.bits, narrow.Size(), more);
  }

  lemma ValidFacts(c: CidrRange)
    requires c.Valid()
    ensures c.prefixLen <= c.network.Width() && c.Size() > 0
  {
  }

  lemma SizeIsMultiple(wide: CidrRange, narrow: CidrRange)
    requires wide.Valid() && narrow.Valid()
    requires wide.network.V4? == narrow.network.V4? && wide.prefixLen <= narrow.prefixLen
    ensures wide.prefixLen <= wide.network.Width() && narrow.prefixLen <= narrow.network.Width()
    ensures wide.Size() == narrow.Size() * Pow2(narrow.prefixLen - wide.prefixLen)
    ensures Pow2(narrow.prefixLen - wide.prefixLen) > 0
  {
    hide Pow2;
    Pow2Add(wide.network.Width() - narrow.prefixLen, narrow.prefixLen - wide.prefixLen);
  }

  ghost predicate Within(a: CidrRange, b: CidrRange)
    requires a.Valid() && b.Valid()
  {
    forall ip: IpAddr :: ip.Valid() && a.Contains(ip) ==> b.Contains(ip)
  }

  ghost predicate Disjoint(a: CidrRange, b: CidrRange)
    requires a.Valid() && b.Valid()
  {
    forall ip: IpAddr :: ip.Valid() ==> !(a.Contains(ip) && b.Contains(ip))
  }

  /** Two ranges are nested or disjoint. */
  lemma NestedOrDisjoint(a: CidrRange, b: CidrRange)
    requires a.Valid() && b.Valid()
    ensures Within(a, b) || Within(b, a) || Disjoint(a, b)
  {
    if !Disjoint(a, b) {
      var shared: IpAddr :| shared.Valid() && a.Contains(shared) && b.Contains(shared);
      if a.prefixLen <= b.prefixLen {
        forall ip: IpAddr | ip.Valid() && b.Contains(ip) ensures a.Contains(ip) { SharedAddressNests(a, b, shared, ip); }
      } else {
        forall ip: IpAddr | ip.Valid() && a.Contains(ip) ensures b.Contains(ip) { SharedAddressNests(b, a, shared, ip); }
      }
    }
  }

  // ----- Parsing -----

  datatype CidrError = InvalidFormat | InvalidAddress | InvalidPrefix | PrefixTooLong

  /** `parseAddr` reads an address, as the standard library does. */
  function ParseCidr(s: string, parseAddr: string -> Option<IpAddr>): (r: Result<CidrRange, CidrError>)
    ensures r.Ok? ==> r.value.prefixLen <= r.value.network.Width()
  {
    var parts := Split(s, '/');
    if |parts| != 2 then Err(InvalidFormat)
    else match parseAddr(parts[0])
      case None => Err(InvalidAddress)
      case Some(network) =>
        match ParseUnsigned(parts[1], 255)
        case None => Err(InvalidPrefix)
        case Some(p) => if p > network.Width() then Err(PrefixTooLong) else Ok(CidrRange(network, p))
  }

  /** The text is an address and a number, of 0 to 255, with the one slash between them. */
  ghost predicate IsWritten(s: string, parseAddr: string -> Option<IpAddr>, network: IpAddr, prefixLen: nat) {
    exists addr, number ::
      && '/' !in addr && '/' !in number && s == addr + "/" + number && parseAddr(addr) == Some(network) && prefixLen <= 255
      && (IsNumeral(number, prefixLen) || (number != "" && number[0] == '+' && IsNumeral(number[1..], prefixLen)))
  }

  /** A range is read from exactly such texts whose number is no more than 32, or 128 behind an IPv6 address. */
  lemma ParsesExactlyRanges(s: string, parseAddr: string -> Option<IpAddr>, network: IpAddr, prefixLen: nat)
    ensures ParseCidr(s, parseAddr) == Ok(CidrRange(network, prefixLen)) <==>
            IsWritten(s, parseAddr, network, prefixLen) && prefixLen <= if network.V4? then 32 else 128
    ensures ParseCidr(s, parseAddr) == Err(PrefixTooLong) <==>
            exists a, p: nat :: IsWritten(s, parseAddr, a, p) && p > if a.V4? then 32 else 128
  {
    hide Split, IsWritten, ParseUnsigned;
    forall a, p: nat ensures IsWritten(s, parseAddr, a, p) <==>
      |Split(s, '/')| == 2 && parseAddr(Split(s, '/')[0]) == Some(a) && ParseUnsigned(Split(s, '/')[1], 255) == Some(p)
    {
      WrittenExactly(s, parseAddr, a, p);
    }
  }

  lemma WrittenExactly(s: string, parseAddr: string -> Option<IpAddr>, network: IpAddr, prefixLen: nat)
    ensures IsWritten(s, parseAddr, network, prefixLen) <==>
            && |Split(s, '/')| == 2 && parseAddr(Split(s, '/')[0]) == Some(network)
            && ParseUnsigned(Split(s, '/')[1], 255) == Some(prefixLen)
  {
    hide Split, IsNumeral, ParseUnsigned;
    var parts := Split(s, '/');
    forall addr, number | '/' !in addr && '/' !in number && s == addr + "/" + number ensures parts == [addr, number] {
      assert s == addr + ['/'] + number;
      SplitConcat(addr, '/', number);
      SplitNone(addr, '/');
      SplitNone(number, '/');
    }
    if |parts| == 2 {
      JoinsTwo(s);
      ParsesExactly(parts[1], 255, prefixLen);
    }
  }

  lemma JoinsTwo(s: string)
    requires |Split(s, '/')| == 2
    ensures var parts := Split(s, '/'); s == parts[0] + "/" + parts[1] && '/' !in parts[0] && '/' !in parts[1]
  {
    if '/' !in s { SplitNone(s, '/'); }
    var before, after := SplitOnce(s, '/').value.0, SplitOnce(s, '/').value.1;
    assert s == before + ['/'] + after;
    SplitFirst(before, '/', after);
    JoinsOne(after);
  }

  lemma {:induction false} JoinsOne(s: string)
    requires |Split(s, '/')| == 1
    ensures Split(s, '/') == [s]
  {
    if s != "" {
      JoinsOne(s[1..]);
      assert [s[0]] + s[1..] == s;
    }
  }

  /** Written as address, slash and number, a range parses back exactly when the number fits the address. */
  lemma ParsesWrittenCidr(addr: string, prefixLen: nat, parseAddr: string -> Option<IpAddr>)
    requires '/' !in addr && parseAddr(addr).Some? && prefixLen <= 255
    ensures ParseCidr(addr + "/" + Print(prefixLen), parseAddr) ==
            if prefixLen <= parseAddr(addr).value.Width() then Ok(CidrRange(parseAddr(addr).value, prefixLen))
            else Err(PrefixTooLong)
  {
    assert addr + "/" + Print(prefixLen) == addr + ['/'] + Print(prefixLen);
    SplitConcat(addr, '/', Print(prefixLen));
    SplitNone(addr, '/');
    SplitNone(Print(prefixLen), '/');
    ParsesPrinted(prefixLen, 1, 255);
  }

  // ----- Address lists -----

  /** The allowed addresses of a whitelist, or the blocked ones of a blacklist. */
  datatype AddressList = AddressList(ips: seq<IpAddr>, cidrs: seq<CidrRange>)
  {
    predicate Valid() {
      (forall ip :: ip in ips ==> ip.Valid()) && (forall c :: c in cidrs ==> c.Valid())
    }

    predicate Matches(ip: IpAddr)
      requires Valid()
    {
      ip in ips || exists c :: c in cidrs && c.Contains(ip)
    }

    /** Text that does not parse adds nothing. */
    function AddIp(text: string, parseAddr: string -> Option<IpAddr>): AddressList {
      match parseAddr(text) case Some(ip) => this.(ips := ips + [ip]) case None => this
    }

    function AddCidr(text: string, parseAddr: string -> Option<IpAddr>): AddressList {
      match ParseCidr(text, parseAddr) case Ok(c) => this.(cidrs := cidrs + [c]) case Err(_) => this
    }
  }

  datatype Addition = Ip(text: string) | Cidr(text: string)

  function Added(l: AddressList, addition: Addition, parseAddr: string -> Option<IpAddr>): AddressList {
    match addition
    case Ip(text) => l.AddIp(text, parseAddr)
    case Cidr(text) => l.AddCidr(text, parseAddr)
  }

  /** The list that a chain of additions makes. */
  function Listed(additions: seq<Addition>, parseAddr: string -> Option<IpAddr>): AddressList {
    if additions == [] then AddressList([], [])
    else Added(Listed(additions[..|additions| - 1], parseAddr), additions[|additions| - 1], parseAddr)
  }

  /** What one addition lets through: its address, or the interval of its range; nothing when it does not parse. */
  predicate Admits(addition: Addition, parseAddr: string -> Option<IpAddr>, ip: IpAddr) {
    match addition
    case Ip(text) => parseAddr(text) == Some(ip)
    case Cidr(text) =>
      match ParseCidr(text, parseAddr)
      case Err(_) => false
      case Ok(c) => c.Valid() && ip.V4? == c.network.V4? && c.First() <= ip.bits < c.First() + c.Size()
  }

  /** Every list that additions make is valid, and an address matches it exactly when one of the additions admits it. */
  lemma {:induction false} ListedIsUnion(additions: seq<Addition>, parseAddr: string -> Option<IpAddr>, ip: IpAddr)
    requires ip.Valid() && forall text :: parseAddr(text).Some? ==> parseAddr(text).value.Valid()
    ensures var l := Listed(additions, parseAddr);
            l.Valid() && (l.Matches(ip) <==> exists a :: a in additions && Admits(a, parseAddr, ip))
  {
    if additions != [] {
      var front, last := additions[..|additions| - 1], additions[|additions| - 1];
      ListedIsUnion(front, parseAddr, ip);
      AdmitsOne(Listed(front, parseAddr), last, parseAddr, ip);
      assert additions == front + [last];
    }
  }

  lemma AdmitsOne(l: AddressList, addition: Addition, parseAddr: string -> Option<IpAddr>, ip: IpAddr)
    requires l.Valid() && ip.Valid() && forall text :: parseAddr(text).Some? ==> parseAddr(text).value.Valid()
    ensures var m := Added(l, addition, parseAddr);
            m.Valid() && (m.Matches(ip) <==> l.Matches(ip) || Admits(addition, parseAddr, ip))
  {
    if addition.Cidr? && ParseCidr(addition.text, parseAddr).Ok? {
      ContainsIsInterval(ParseCidr(addition.text, parseAddr).value, ip);
    }
  }

  /** An address matches exactly when it is listed or lies in one of the listed intervals. */
  lemma MatchesIsUnion(l: AddressList, ip: IpAddr)
    requires l.Valid() && ip.Valid()
    ensures l.Matches(ip) <==>
            || ip in l.ips
            || exists c :: c in l.cidrs && ip.V4? == c.network.V4? && c.First() <= ip.bits < c.First() + c.Size()
  {
    forall c | c in l.cidrs
      ensures c.Contains(ip) <==> ip.V4? == c.network.V4? && c.First() <= ip.bits < c.First() + c.Size()
    {
      ContainsIsInterval(c, ip);
    }
  }
}
