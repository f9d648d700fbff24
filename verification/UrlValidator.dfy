// Model of apps/server/src/mcp/url-validator.ts: address texts as numbers, the CIDR prefix
// test, and the allow/deny decision over resolved addresses.
module UrlValidator {
  import opened Wrappers
  import opened BigBits
  import opened AddressText

  datatype Error = InvalidUrl | NotANumber | InternalIpForbidden(ip: string)

  // ---------------------------------------------------------------- addresses as numbers

  function Ipv4ToBigInt(ip: string): Result<nat, Error> {
    var numbers := Numbers(Split(ip, '.'), ToNumber);
    if numbers.None? then Err(NotANumber) else Ok(Fold(numbers.value, 8))
  }

  function ParseGroups(s: string): Option<seq<nat>> {
    if s == "" then Some([]) else Numbers(Split(s, ':'), ParseHex)
  }

  function Zeros(n: int): (zs: seq<nat>)
    ensures |zs| == if n > 0 then n else 0
    ensures forall i :: 0 <= i < |zs| ==> zs[i] == 0
  {
    seq(if n > 0 then n else 0, i => 0)
  }

  // As many zeros between head and tail as there are groups missing.
  function Around(head: seq<nat>, tail: seq<nat>): (groups: seq<nat>)
    ensures |head| + |tail| <= 8 ==> |groups| == 8
  {
    head + Zeros(8 - |head| - |tail|) + tail
  }

  function BothHalves(head: Option<seq<nat>>, tail: Option<seq<nat>>): Option<seq<nat>> {
    if head.None? || tail.None? then None else Some(Around(head.value, tail.value))
  }

  // The groups read from a text with at most one "::".
  function ReadGroups(halves: seq<string>): Option<seq<nat>>
    requires 1 <= |halves| <= 2
  {
    if |halves| == 2 then BothHalves(ParseGroups(halves[0]), ParseGroups(halves[1])) else ParseGroups(halves[0])
  }

  function Ipv6ToBigInt(ip: string): Result<nat, Error> {
    var halves := SplitDouble(ip);
    if |halves| > 2 then Err(InvalidUrl)
    else
      var groups := ReadGroups(halves);
      if groups.None? then Err(NotANumber) else Ok(Fold(groups.value, 16))
  }

  // ---------------------------------------------------------------- isIP

  predicate IsByte(s: string) {
    Canonical(s) && |s| <= 3 && DecValue(s) <= 255
  }

  predicate IsIPv4(s: string) {
    var parts := Split(s, '.');
    |parts| == 4 && forall i :: 0 <= i < 4 ==> IsByte(parts[i])
  }

  predicate AllGroups(parts: seq<string>) {
    forall i :: 0 <= i < |parts| ==> IsGroup(parts[i])
  }

  function GroupTexts(s: string): seq<string> {
    if s == "" then [] else Split(s, ':')
  }

  // Forms 1 and 2 of section 2.2 of RFC 4291: eight groups, or fewer around one "::".
  predicate IsIPv6(s: string) {
    var halves := SplitDouble(s);
    if |halves| == 1 then |GroupTexts(s)| == 8 && AllGroups(GroupTexts(s))
    else
      && |halves| == 2
      && AllGroups(GroupTexts(halves[0])) && AllGroups(GroupTexts(halves[1]))
      && |GroupTexts(halves[0])| + |GroupTexts(halves[1])| <= 7
  }

  // The version of an address text: 4, 6, or 0. Texts with an embedded IPv4 address or a zone
  // id, which are version 6 as well, are not part of this model.
  function IpVersion(s: string): nat {
    if IsIPv4(s) then 4 else if IsIPv6(s) then 6 else 0
  }

  // ---------------------------------------------------------------- IPv6 texts

  ghost function HexValues(parts: seq<string>): (vs: seq<nat>)
    requires AllGroups(parts)
    ensures |vs| == |parts|
    ensures forall i :: 0 <= i < |vs| ==> vs[i] == HexValue(parts[i])
  {
    seq(|parts|, i requires 0 <= i < |parts| => HexValue(parts[i]))
  }

  // A text of eight groups, in full or with the zero groups between head and tail left out.
  datatype Ipv6Text = Full(groups: seq<string>) | Compressed(head: seq<string>, tail: seq<string>) {

    ghost predicate Valid() {
      match this
      case Full(groups) => |groups| == 8 && AllGroups(groups)
      case Compressed(head, tail) => |head| + |tail| <= 7 && AllGroups(head) && AllGroups(tail)
    }

    ghost function Text(): string {
      match this
      case Full(groups) => Join(groups, ':')
      case Compressed(head, tail) => Join(head, ':') + "::" + Join(tail, ':')
    }

    // The eight 16-bit groups it stands for.
    ghost function Groups(): (g: seq<nat>)
      requires Valid()
      ensures |g| == 8
    {
      match this
      case Full(groups) => HexValues(groups)
      case Compressed(head, tail) => Around(HexValues(head), HexValues(tail))
    }
  }

  lemma GroupsArePlain(parts: seq<string>)
    requires AllGroups(parts)
    ensures forall p :: p in parts ==> Plain(p)
  {
  }

  lemma GroupsParse(parts: seq<string>)
    requires AllGroups(parts)
    ensures GroupTexts(Join(parts, ':')) == parts
    ensures ParseGroups(Join(parts, ':')) == Some(HexValues(parts))
  {
    GroupsArePlain(parts);
    JoinHasNoDouble(parts);
    if parts != [] {
      SplitOfJoin(parts, ':');
      NumbersAre(parts, ParseHex, HexValues(parts));
    }
  }

  lemma HalvesOf(t: Ipv6Text)
    requires t.Valid()
    ensures t.Full? ==> SplitDouble(t.Text()) == [t.Text()]
    ensures t.Compressed? ==> SplitDouble(t.Text()) == [Join(t.head, ':'), Join(t.tail, ':')]
  {
    match t
    case Full(groups) =>
      GroupsArePlain(groups);
      JoinHasNoDouble(groups);
      SplitSingle(t.Text());
    case Compressed(head, tail) =>
      GroupsArePlain(head);
      GroupsArePlain(tail);
      JoinHasNoDouble(head);
      JoinHasNoDouble(tail);
      SplitAtDouble(Join(head, ':'), Join(tail, ':'));
      SplitSingle(Join(tail, ':'));
  }

  lemma HexValuesFit(parts: seq<string>)
    requires AllGroups(parts)
    ensures Fit(HexValues(parts), 16)
  {
    forall i | 0 <= i < |parts| ensures HexValues(parts)[i] < Pow2(16) {
      GroupFits(parts[i]);
    }
  }

  lemma GroupsFit(t: Ipv6Text)
    requires t.Valid()
    ensures Fit(t.Groups(), 16)
  {
    match t
    case Full(groups) => HexValuesFit(groups);
    case Compressed(head, tail) =>
      HexValuesFit(head);
      HexValuesFit(tail);
  }

  lemma FullIsRead(groups: seq<string>)
    requires AllGroups(groups)
    ensures ReadGroups([Join(groups, ':')]) == Some(HexValues(groups))
  {
    GroupsParse(groups);
  }

  lemma HalvesAreRead(head: seq<string>, tail: seq<string>)
    requires AllGroups(head) && AllGroups(tail)
    ensures ReadGroups([Join(head, ':'), Join(tail, ':')]) == Some(Around(HexValues(head), HexValues(tail)))
  {
    GroupsParse(head);
    GroupsParse(tail);
  }

  lemma GroupsAreRead(t: Ipv6Text)
    requires t.Valid()
    ensures |SplitDouble(t.Text())| <= 2
    ensures ReadGroups(SplitDouble(t.Text())) == Some(t.Groups())
  {
    HalvesOf(t);
    match t
    case Full(groups) => FullIsRead(groups);
    case Compressed(head, tail) => HalvesAreRead(head, tail);
  }

  // Each of the two forms parses to the number its eight groups make.
  lemma Ipv6Parses(t: Ipv6Text)
    requires t.Valid()
    ensures Ipv6ToBigInt(t.Text()) == Ok(Value(t.Groups(), 16))
  {
    GroupsAreRead(t);
    GroupsFit(t);
    FoldIsValue(t.Groups(), 16);
  }

  lemma NoDotInGroups(parts: seq<string>)
    requires AllGroups(parts)
    ensures '.' !in Join(parts, ':')
  {
    if '.' in Join(parts, ':') {
      JoinCharacters(parts, ':', '.');
    }
  }

  // They are exactly the texts taken for IPv6 addresses.
  lemma Ipv6TextIsAccepted(t: Ipv6Text)
    requires t.Valid()
    ensures IsIPv6(t.Text()) && IpVersion(t.Text()) == 6
  {
    HalvesOf(t);
    match t
    case Full(groups) =>
      GroupsParse(groups);
      NoDotInGroups(groups);
      SplitOne(t.Text(), '.');
    case Compressed(head, tail) =>
      GroupsParse(head);
      GroupsParse(tail);
      NoDotInGroups(head);
      NoDotInGroups(tail);
      SplitOne(t.Text(), '.');
  }

  lemma JoinOfGroupTexts(s: string)
    ensures Join(GroupTexts(s), ':') == s
  {
    JoinOfSplit(s, ':');
  }

  lemma {:induction false} HalvesJoin(s: string)
    ensures |SplitDouble(s)| == 1 ==> SplitDouble(s)[0] == s
    ensures |SplitDouble(s)| == 2 ==> SplitDouble(s)[0] + "::" + SplitDouble(s)[1] == s
  {
    if |s| >= 2 {
      if s[0] == ':' && s[1] == ':' {
        HalvesJoin(s[2..]);
      } else {
        HalvesJoin(s[1..]);
      }
    }
  }

  lemma AcceptedIsIpv6Text(s: string) returns (t: Ipv6Text)
    requires IsIPv6(s)
    ensures t.Valid() && t.Text() == s
  {
    var halves := SplitDouble(s);
    HalvesJoin(s);
    if |halves| == 1 {
      JoinOfGroupTexts(s);
      t := Full(GroupTexts(s));
    } else {
      JoinOfGroupTexts(halves[0]);
      JoinOfGroupTexts(halves[1]);
      t := Compressed(GroupTexts(halves[0]), GroupTexts(halves[1]));
    }
  }

  // Two texts are the same number iff they stand for the same groups, whatever their forms.
  lemma SameNumberIffSameGroups(t: Ipv6Text, u: Ipv6Text)
    requires t.Valid() && u.Valid()
    ensures Ipv6ToBigInt(t.Text()) == Ipv6ToBigInt(u.Text()) <==> t.Groups() == u.Groups()
  {
    Ipv6Parses(t);
    Ipv6Parses(u);
    GroupsFit(t);
    GroupsFit(u);
    if Value(t.Groups(), 16) == Value(u.Groups(), 16) {
      ValueIsInjective(t.Groups(), u.Groups(), 16);
    }
  }

  // ---------------------------------------------------------------- dotted quads

  ghost function ByteTexts(bytes: seq<nat>): (texts: seq<string>)
    ensures |texts| == |bytes|
    ensures forall i :: 0 <= i < |texts| ==> texts[i] == Decimal(bytes[i])
  {
    seq(|bytes|, i requires 0 <= i < |bytes| => Decimal(bytes[i]))
  }

  ghost predicate IsQuad(bytes: seq<nat>) {
    |bytes| == 4 && forall i :: 0 <= i < 4 ==> bytes[i] <= 255
  }

  ghost function DottedQuad(bytes: seq<nat>): string {
    Join(ByteTexts(bytes), '.')
  }

  lemma ByteLength(n: nat)
    requires n <= 255
    ensures |Decimal(n)| <= 3
  {
    assert |Decimal(n / 10 / 10)| == 1;
    assert |Decimal(n / 10)| <= 2;
  }

  lemma NoDelimiter(s: string)
    requires AllDigits(s)
    ensures '.' !in s && '/' !in s
  {
  }

  lemma ByteText(n: nat)
    requires n <= 255
    ensures IsByte(Decimal(n)) && ToNumber(Decimal(n)) == Some(n) && '.' !in Decimal(n) && '/' !in Decimal(n)
  {
    ValueOfDecimal(n);
    ByteLength(n);
    NoDelimiter(Decimal(n));
  }

  lemma BytesFit(bytes: seq<nat>)
    requires IsQuad(bytes)
    ensures Fit(bytes, 8)
  {
    assert Pow2(8) == 256;
  }

  // A dotted quad is taken for an IPv4 address and parses to the number its bytes make.
  lemma DottedQuadParses(bytes: seq<nat>)
    requires IsQuad(bytes)
    ensures IpVersion(DottedQuad(bytes)) == 4
    ensures Ipv4ToBigInt(DottedQuad(bytes)) == Ok(Value(bytes, 8))
  {
    var texts := ByteTexts(bytes);
    forall i | 0 <= i < 4 ensures IsByte(texts[i]) && ToNumber(texts[i]) == Some(bytes[i]) && '.' !in texts[i] {
      ByteText(bytes[i]);
    }
    SplitOfJoin(texts, '.');
    NumbersAre(texts, ToNumber, bytes);
    BytesFit(bytes);
    FoldIsValue(bytes, 8);
  }

  // Every accepted text is a dotted quad: printing the bytes that were read gives it back.
  lemma Ipv4RoundTrip(s: string) returns (bytes: seq<nat>)
    requires IsIPv4(s)
    ensures IsQuad(bytes) && DottedQuad(bytes) == s
    ensures Ipv4ToBigInt(s) == Ok(Value(bytes, 8))
  {
    var parts := Split(s, '.');
    bytes := seq(4, i requires 0 <= i < 4 => DecValue(parts[i]));
    forall i | 0 <= i < 4 ensures Decimal(bytes[i]) == parts[i] && bytes[i] <= 255 {
      DecimalOfValue(parts[i]);
    }
    assert ByteTexts(bytes) == parts;
    JoinOfSplit(s, '.');
    DottedQuadParses(bytes);
  }

  lemma QuadsAreDistinct(a: seq<nat>, b: seq<nat>)
    requires IsQuad(a) && IsQuad(b)
    ensures Ipv4ToBigInt(DottedQuad(a)) == Ipv4ToBigInt(DottedQuad(b)) <==> a == b
  {
    DottedQuadParses(a);
    DottedQuadParses(b);
    BytesFit(a);
    BytesFit(b);
    if Value(a, 8) == Value(b, 8) {
      ValueIsInjective(a, b, 8);
    }
  }

  // ---------------------------------------------------------------- the prefix test

  datatype Cidr = Cidr(base: nat, bits: Option<nat>, version: nat, totalBits: nat)

  function ToBigInt(ip: string, version: nat): Result<nat, Error> {
    if version == 4 then Ipv4ToBigInt(ip) else Ipv6ToBigInt(ip)
  }

  function ParseCidr(cidr: string): Result<Cidr, Error> {
    var parts := Split(cidr, '/');
    var addr, bitsStr := parts[0], if |parts| > 1 then parts[1] else "";
    var version := if IpVersion(addr) == 6 then 6 else 4;
    var totalBits := if version == 4 then 32 else 128;
    match ToBigInt(addr, version)
    case Ok(base) => Ok(Cidr(base, ToNumber(bitsStr), version, totalBits))
    case Err(e) => Err(e)
  }

  // Without a number of bits there is no number to shift by.
  function Matches(ipInt: nat, c: Cidr): Result<bool, Error> {
    if c.bits.None? then Err(NotANumber)
    else
      var shift := c.totalBits - c.bits.value;
      Ok(ShiftRight(ipInt, shift) == ShiftRight(c.base, shift))
  }

  function IpInCidr(ip: string, cidr: string): Result<bool, Error> {
    if IpVersion(ip) == 0 then Ok(false)
    else match ParseCidr(cidr)
      case Err(e) => Err(e)
      case Ok(c) =>
        if IpVersion(ip) != c.version then Ok(false)
        else match ToBigInt(ip, c.version)
          case Err(e) => Err(e)
          case Ok(ipInt) => Matches(ipInt, c)
  }

  lemma IpIsNumber(ip: string)
    requires IpVersion(ip) != 0
    ensures ToBigInt(ip, IpVersion(ip)).Ok?
  {
    if IsIPv4(ip) {
      var bytes := Ipv4RoundTrip(ip);
    } else {
      var t := AcceptedIsIpv6Text(ip);
      Ipv6Parses(t);
    }
  }

  lemma MatchesIff(ipInt: nat, c: Cidr)
    requires c.bits.Some?
    ensures Matches(ipInt, c) == Ok(
      if c.bits.value <= c.totalBits then SameBlock(ipInt, c.base, c.totalBits - c.bits.value) else ipInt == c.base)
  {
    if c.bits.value <= c.totalBits {
      EqualShiftsIffSameBlock(ipInt, c.base, c.totalBits - c.bits.value);
    } else if Shl(ipInt, c.bits.value - c.totalBits) == Shl(c.base, c.bits.value - c.totalBits) {
      ShlIsInjective(ipInt, c.base, c.bits.value - c.totalBits);
    }
  }

  lemma IpInCidrIs(ip: string, cidr: string, c: Cidr, ipInt: nat)
    requires IpVersion(ip) != 0 && ParseCidr(cidr) == Ok(c)
    requires IpVersion(ip) == c.version ==> ToBigInt(ip, c.version) == Ok(ipInt)
    ensures IpInCidr(ip, cidr) == if IpVersion(ip) == c.version then Matches(ipInt, c) else Ok(false)
  {
  }

  // The same version, and the same block of 2^(total - bits) addresses; a prefix longer than
  // the address asks for equality.
  ghost predicate InRange(version: nat, ipInt: nat, c: Cidr)
    requires c.bits.Some?
  {
    && version == c.version
    && if c.bits.value <= c.totalBits then SameBlock(ipInt, c.base, c.totalBits - c.bits.value) else ipInt == c.base
  }

  lemma IpInRangeIs(ip: string, cidr: string, c: Cidr, ipInt: nat)
    requires IpVersion(ip) != 0 && ParseCidr(cidr) == Ok(c) && c.bits.Some?
    requires ToBigInt(ip, IpVersion(ip)) == Ok(ipInt)
    ensures IpInCidr(ip, cidr) == Ok(InRange(IpVersion(ip), ipInt, c))
  {
    IpInCidrIs(ip, cidr, c, ipInt);
    MatchesIff(ipInt, c);
  }

  // An address matches a well-formed CIDR iff it lies in its range.
  lemma IpInCidrIffSameBlock(ip: string, cidr: string)
    requires IpVersion(ip) != 0 && ParseCidr(cidr).Ok? && ParseCidr(cidr).value.bits.Some?
    ensures ToBigInt(ip, IpVersion(ip)).Ok?
    ensures IpInCidr(ip, cidr) ==
      Ok(InRange(IpVersion(ip), ToBigInt(ip, IpVersion(ip)).value, ParseCidr(cidr).value))
  {
    IpIsNumber(ip);
    IpInRangeIs(ip, cidr, ParseCidr(cidr).value, ToBigInt(ip, IpVersion(ip)).value);
  }

  // ---------------------------------------------------------------- allow and deny

  // Whether one of the entries covers the address; the first malformed one before it ends the search.
  function InSome(ip: string, cidrs: seq<string>): Result<bool, Error> {
    if cidrs == [] then Ok(false)
    else match IpInCidr(ip, cidrs[0])
      case Err(e) => Err(e)
      case Ok(true) => Ok(true)
      case Ok(false) => InSome(ip, cidrs[1..])
  }

  predicate WellFormed(cidr: string) {
    ParseCidr(cidr).Ok? && ParseCidr(cidr).value.bits.Some?
  }

  ghost predicate Covers(cidr: string, ip: string) {
    IpInCidr(ip, cidr) == Ok(true)
  }

  lemma {:induction false} InSomeIff(ip: string, cidrs: seq<string>)
    requires forall cidr :: cidr in cidrs ==> WellFormed(cidr)
    ensures InSome(ip, cidrs) == Ok(exists cidr :: cidr in cidrs && Covers(cidr, ip))
  {
    if cidrs != [] {
      InSomeIff(ip, cidrs[1..]);
      assert WellFormed(cidrs[0]);
      if IpVersion(ip) != 0 {
        IpInCidrIffSameBlock(ip, cidrs[0]);
      }
      assert Covers(cidrs[0], ip) <==> IpInCidr(ip, cidrs[0]) == Ok(true);
      assert forall cidr :: cidr in cidrs <==> cidr == cidrs[0] || cidr in cidrs[1..];
    }
  }

  const DENY_CIDRS: seq<string> := [
    "0.0.0.0/8", "10.0.0.0/8", "127.0.0.0/8", "169.254.0.0/16", "172.16.0.0/12", "192.168.0.0/16",
    "198.18.0.0/15", "224.0.0.0/4", "240.0.0.0/4", "::1/128", "fc00::/7", "fe80::/10", "ff00::/8"]

  // What the loop says about one address: passed, refused, or an error of a malformed entry.
  function Verdict(ip: string, allowedCidrs: seq<string>): Option<Error> {
    match InSome(ip, allowedCidrs)
    case Err(e) => Some(e)
    case Ok(true) => None
    case Ok(false) =>
      match InSome(ip, DENY_CIDRS)
      case Err(e) => Some(e)
      case Ok(denied) => if denied then Some(InternalIpForbidden(ip)) else None
  }

  // One turn of the loop.
  method CheckAddress(ip: string, allowedCidrs: seq<string>) returns (error: Option<Error>)
    ensures error == Verdict(ip, allowedCidrs)
  {
    var allowed := InSome(ip, allowedCidrs);
    if allowed.Err? {
      return Some(allowed.error);
    }
    if allowed.value {
      return None;
    }
    var denied := InSome(ip, DENY_CIDRS);
    if denied.Err? {
      return Some(denied.error);
    }
    error := if denied.value then Some(InternalIpForbidden(ip)) else None;
  }

  ghost predicate FirstPass(ips: seq<string>, n: nat, allowedCidrs: seq<string>) {
    n <= |ips| && forall i :: 0 <= i < n ==> Verdict(ips[i], allowedCidrs).None?
  }

  ghost predicate IsFirstRefusal(error: Error, ips: seq<string>, k: nat, allowedCidrs: seq<string>) {
    k < |ips| && Verdict(ips[k], allowedCidrs) == Some(error) && FirstPass(ips, k, allowedCidrs)
  }

  lemma OneMorePasses(ips: seq<string>, i: nat, allowedCidrs: seq<string>)
    requires i < |ips| && FirstPass(ips, i, allowedCidrs) && Verdict(ips[i], allowedCidrs) == None
    ensures FirstPass(ips, i + 1, allowedCidrs)
  {
  }

  lemma RefusalStops(error: Error, ips: seq<string>, k: nat, allowedCidrs: seq<string>)
    requires IsFirstRefusal(error, ips, k, allowedCidrs)
    ensures !FirstPass(ips, |ips|, allowedCidrs)
  {
  }

  // The loop over the resolved addresses ends at the first that does not pass.
  method CheckAddresses(resolvedIps: seq<string>, allowedCidrs: seq<string>) returns (error: Option<Error>)
    ensures error.None? <==> FirstPass(resolvedIps, |resolvedIps|, allowedCidrs)
    ensures error.Some? ==> exists k :: IsFirstRefusal(error.value, resolvedIps, k, allowedCidrs)
  {
    for i := 0 to |resolvedIps|
      invariant FirstPass(resolvedIps, i, allowedCidrs)
    {
      error := CheckAddress(resolvedIps[i], allowedCidrs);
      if error.Some? {
        assert IsFirstRefusal(error.value, resolvedIps, i, allowedCidrs);
        RefusalStops(error.value, resolvedIps, i, allowedCidrs);
        return;
      }
      OneMorePasses(resolvedIps, i, allowedCidrs);
    }
    error := None;
  }

  // ---------------------------------------------------------------- the deny list

  lemma SlashlessQuad(bytes: seq<nat>)
    requires IsQuad(bytes)
    ensures '/' !in DottedQuad(bytes)
  {
    forall i | 0 <= i < 4 ensures '/' !in ByteTexts(bytes)[i] {
      ByteText(bytes[i]);
    }
    if '/' in DottedQuad(bytes) {
      JoinCharacters(ByteTexts(bytes), '.', '/');
    }
  }

  lemma SlashlessGroups(parts: seq<string>)
    requires AllGroups(parts)
    ensures '/' !in Join(parts, ':')
  {
    if '/' in Join(parts, ':') {
      JoinCharacters(parts, ':', '/');
    }
  }

  lemma CidrParts(addr: string, bits: nat)
    requires '/' !in addr
    ensures Split(addr + "/" + Decimal(bits), '/') == [addr, Decimal(bits)]
    ensures ToNumber(Decimal(bits)) == Some(bits)
  {
    SplitFirst(addr, '/', Decimal(bits));
    SplitOne(Decimal(bits), '/');
    ValueOfDecimal(bits);
  }

  lemma QuadCidrParses(net: seq<nat>, bits: nat)
    requires IsQuad(net)
    ensures ParseCidr(DottedQuad(net) + "/" + Decimal(bits)) == Ok(Cidr(Value(net, 8), Some(bits), 4, 32))
  {
    SlashlessQuad(net);
    CidrParts(DottedQuad(net), bits);
    DottedQuadParses(net);
  }

  lemma Ipv6CidrParses(t: Ipv6Text, bits: nat)
    requires t.Valid()
    ensures ParseCidr(t.Text() + "/" + Decimal(bits)) == Ok(Cidr(Value(t.Groups(), 16), Some(bits), 6, 128))
  {
    assert '/' !in t.Text() by {
      match t
      case Full(groups) => SlashlessGroups(groups);
      case Compressed(head, tail) =>
        SlashlessGroups(head);
        SlashlessGroups(tail);
    }
    CidrParts(t.Text(), bits);
    Ipv6TextIsAccepted(t);
    Ipv6Parses(t);
  }
}
