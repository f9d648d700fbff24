// What the fixed deny list of apps/server/src/mcp/url-validator.ts means for the bytes of an
// IPv4 address and the groups of an IPv6 address.
module DenyList {
  import opened Wrappers
  import opened BigBits
  import opened AddressText
  import opened UrlValidator

  // ---------------------------------------------------------------- blocks of addresses

  // The 2^n addresses of a version from a base on.
  datatype Block = Block(version: nat, base: nat, n: nat)

  function TotalBits(version: nat): nat {
    if version == 4 then 32 else 128
  }

  ghost predicate Contains(b: Block, version: nat, v: nat) {
    version == b.version && b.base <= v < b.base + Pow2(b.n)
  }

  ghost predicate Aligned(base: nat, n: nat) {
    exists q: nat :: base == q * Pow2(n)
  }

  // What a CIDR text denotes.
  ghost predicate Denotes(cidr: string, b: Block) {
    IsBlock(ParseCidr(cidr), b)
  }

  ghost predicate IsBlock(parsed: Result<Cidr, Error>, b: Block) {
    && b.n <= TotalBits(b.version) && Aligned(b.base, b.n)
    && parsed == Ok(Cidr(b.base, Some(TotalBits(b.version) - b.n), b.version, TotalBits(b.version)))
  }

  lemma AlignedBlock(a: nat, b: nat, q: nat, n: nat)
    requires b == q * Pow2(n)
    ensures SameBlock(a, b, n) <==> b <= a < b + Pow2(n)
  {
    assert InBlock(b, q, n);
    if SameBlock(a, b, n) {
      var r: nat :| InBlock(a, r, n) && InBlock(b, r, n);
      BlockIsUnique(b, Pow2(n), q, r);
    }
    assert b <= a < b + Pow2(n) ==> InBlock(a, q, n);
  }

  lemma MatchesBlock(v: nat, b: Block)
    requires b.n <= TotalBits(b.version) && Aligned(b.base, b.n)
    ensures Matches(v, Cidr(b.base, Some(TotalBits(b.version) - b.n), b.version, TotalBits(b.version)))
      == Ok(b.base <= v < b.base + Pow2(b.n))
  {
    MatchesIff(v, Cidr(b.base, Some(TotalBits(b.version) - b.n), b.version, TotalBits(b.version)));
    var q: nat :| b.base == q * Pow2(b.n);
    AlignedBlock(v, b.base, q, b.n);
  }

  // The text of an address and the number it is.
  ghost predicate IsAddress(ip: string, version: nat, v: nat) {
    version != 0 && IpVersion(ip) == version && ToBigInt(ip, version) == Ok(v)
  }

  lemma InCidrIffInBlock(ip: string, version: nat, v: nat, cidr: string, b: Block)
    requires IsAddress(ip, version, v) && Denotes(cidr, b)
    ensures IpInCidr(ip, cidr) == Ok(Contains(b, version, v))
  {
    var c := Cidr(b.base, Some(TotalBits(b.version) - b.n), b.version, TotalBits(b.version));
    IpInCidrIs(ip, cidr, c, v);
    MatchesBlock(v, b);
  }

  ghost predicate InOneOf(blocks: seq<Block>, version: nat, v: nat) {
    exists i :: 0 <= i < |blocks| && Contains(blocks[i], version, v)
  }

  ghost predicate AllDenote(cidrs: seq<string>, blocks: seq<Block>) {
    && |cidrs| == |blocks|
    && forall i {:trigger Denotes(cidrs[i], blocks[i])} :: 0 <= i < |cidrs| ==> Denotes(cidrs[i], blocks[i])
  }

  lemma AllDenoteRest(cidrs: seq<string>, blocks: seq<Block>)
    requires AllDenote(cidrs, blocks) && cidrs != []
    ensures Denotes(cidrs[0], blocks[0]) && AllDenote(cidrs[1..], blocks[1..])
  {
    assert Denotes(cidrs[0], blocks[0]);
    forall i | 0 <= i < |cidrs[1..]| ensures Denotes(cidrs[1..][i], blocks[1..][i]) {
      assert Denotes(cidrs[i + 1], blocks[i + 1]);
    }
  }

  lemma InOneOfFirst(blocks: seq<Block>, version: nat, v: nat)
    requires blocks != []
    ensures InOneOf(blocks, version, v) <==> Contains(blocks[0], version, v) || InOneOf(blocks[1..], version, v)
  {
    var rest := blocks[1..];
    if InOneOf(blocks, version, v) && !Contains(blocks[0], version, v) {
      var i :| 0 <= i < |blocks| && Contains(blocks[i], version, v);
      assert rest[i - 1] == blocks[i];
    }
    if InOneOf(rest, version, v) {
      var i :| 0 <= i < |rest| && Contains(rest[i], version, v);
      assert blocks[i + 1] == rest[i];
    }
  }

  // An address is in some entry of a list iff it is in one of the blocks the list denotes.
  lemma {:induction false} InSomeIffInBlocks(
    ip: string, version: nat, v: nat, cidrs: seq<string>, blocks: seq<Block>)
    requires IsAddress(ip, version, v) && AllDenote(cidrs, blocks)
    ensures InSome(ip, cidrs) == Ok(InOneOf(blocks, version, v))
  {
    if cidrs != [] {
      AllDenoteRest(cidrs, blocks);
      InCidrIffInBlock(ip, version, v, cidrs[0], blocks[0]);
      InSomeIffInBlocks(ip, version, v, cidrs[1..], blocks[1..]);
      InOneOfFirst(blocks, version, v);
    }
  }

  // ---------------------------------------------------------------- the texts of the entries

  function QuadValue(b: seq<nat>): nat
    requires |b| == 4
  {
    16777216 * b[0] + 65536 * b[1] + 256 * b[2] + b[3]
  }

  lemma ValueOfQuad(b: seq<nat>)
    requires |b| == 4
    ensures Value(b, 8) == QuadValue(b)
  {
    assert Pow2(8) == 256;
    assert b[..3][..2] == b[..2] && b[..2][..1] == b[..1] && b[..1][..0] == [];
    assert Value(b[..1], 8) == b[0];
    assert Value(b[..2], 8) == 256 * b[0] + b[1];
    assert Value(b[..3], 8) == 65536 * b[0] + 256 * b[1] + b[2];
  }

  lemma JoinCons(p: string, rest: seq<string>, c: char)
    requires rest != []
    ensures Join([p] + rest, c) == p + [c] + Join(rest, c)
  {
    assert ([p] + rest)[1..] == rest;
  }

  lemma JoinFour(p: string, q: string, r: string, t: string, c: char)
    ensures Join([p, q, r, t], c) == p + ([c] + (q + ([c] + (r + ([c] + t)))))
  {
    assert [p, q, r, t] == [p] + [q, r, t] && [q, r, t] == [q] + [r, t] && [r, t] == [r] + [t];
    JoinCons(p, [q, r, t], c);
    JoinCons(q, [r, t], c);
    JoinCons(r, [t], c);
  }

  lemma OneDigit(n: nat)
    requires n < 10
    ensures Decimal(n) == [DigitChar(n)]
  {
  }

  lemma TwoDigits(n: nat)
    requires 10 <= n < 100
    ensures Decimal(n) == [DigitChar(n / 10), DigitChar(n % 10)]
  {
  }

  lemma ThreeDigits(n: nat)
    requires 100 <= n < 1000
    ensures Decimal(n) == [DigitChar(n / 100), DigitChar(n / 10 % 10), DigitChar(n % 10)]
  {
    assert n / 10 / 10 == n / 100;
    TwoDigits(n / 10);
  }

  lemma QuadText(text: string, net: seq<nat>)
    requires |net| == 4
    requires text == Decimal(net[0]) + ("." + (Decimal(net[1]) + ("." + (Decimal(net[2]) + ("." + Decimal(net[3]))))))
    ensures text == DottedQuad(net)
  {
    assert ByteTexts(net) == [Decimal(net[0]), Decimal(net[1]), Decimal(net[2]), Decimal(net[3])];
    JoinFour(Decimal(net[0]), Decimal(net[1]), Decimal(net[2]), Decimal(net[3]), '.');
  }

  ghost predicate IsQuadCidr(cidr: string, net: seq<nat>, bits: nat) {
    IsQuad(net) && cidr == DottedQuad(net) + "/" + Decimal(bits)
  }

  ghost predicate IsIpv6Cidr(cidr: string, t: Ipv6Text, bits: nat) {
    t.Valid() && cidr == t.Text() + "/" + Decimal(bits)
  }

  lemma Entry0()
    ensures IsQuadCidr(DENY_CIDRS[0], [0, 0, 0, 0], 8)
  {
    OneDigit(0);
    OneDigit(8);
    QuadText("0.0.0.0", [0, 0, 0, 0]);
  }

  lemma Entry1()
    ensures IsQuadCidr(DENY_CIDRS[1], [10, 0, 0, 0], 8)
  {
    TwoDigits(10);
    OneDigit(0);
    OneDigit(8);
    QuadText("10.0.0.0", [10, 0, 0, 0]);
  }

  lemma Entry2()
    ensures IsQuadCidr(DENY_CIDRS[2], [127, 0, 0, 0], 8)
  {
    ThreeDigits(127);
    OneDigit(0);
    OneDigit(8);
    QuadText("127.0.0.0", [127, 0, 0, 0]);
  }

  lemma LinkLocalNet()
    ensures DottedQuad([169, 254, 0, 0]) == "169.254.0.0"
  {
    ThreeDigits(169);
    ThreeDigits(254);
    OneDigit(0);
    QuadText("169.254.0.0", [169, 254, 0, 0]);
  }

  lemma Entry3()
    ensures IsQuadCidr(DENY_CIDRS[3], [169, 254, 0, 0], 16)
  {
    LinkLocalNet();
    TwoDigits(16);
  }

  lemma Entry4()
    ensures IsQuadCidr(DENY_CIDRS[4], [172, 16, 0, 0], 12)
  {
    ThreeDigits(172);
    TwoDigits(16);
    OneDigit(0);
    TwoDigits(12);
    QuadText("172.16.0.0", [172, 16, 0, 0]);
  }

  lemma PrivateNet()
    ensures DottedQuad([192, 168, 0, 0]) == "192.168.0.0"
  {
    ThreeDigits(192);
    ThreeDigits(168);
    OneDigit(0);
    QuadText("192.168.0.0", [192, 168, 0, 0]);
  }

  lemma Entry5()
    ensures IsQuadCidr(DENY_CIDRS[5], [192, 168, 0, 0], 16)
  {
    PrivateNet();
    TwoDigits(16);
  }

  lemma Entry6()
    ensures IsQuadCidr(DENY_CIDRS[6], [198, 18, 0, 0], 15)
  {
    ThreeDigits(198);
    TwoDigits(18);
    OneDigit(0);
    TwoDigits(15);
    QuadText("198.18.0.0", [198, 18, 0, 0]);
  }

  lemma Entry7()
    ensures IsQuadCidr(DENY_CIDRS[7], [224, 0, 0, 0], 4)
  {
    ThreeDigits(224);
    OneDigit(0);
    OneDigit(4);
    QuadText("224.0.0.0", [224, 0, 0, 0]);
  }

  lemma Entry8()
    ensures IsQuadCidr(DENY_CIDRS[8], [240, 0, 0, 0], 4)
  {
    ThreeDigits(240);
    OneDigit(0);
    OneDigit(4);
    QuadText("240.0.0.0", [240, 0, 0, 0]);
  }

  lemma TextOfOneGroup(group: string)
    ensures Compressed([group], []).Text() == group + "::" && Compressed([], [group]).Text() == "::" + group
  {
  }

  lemma Entry9()
    ensures IsIpv6Cidr(DENY_CIDRS[9], Compressed([], ["1"]), 128)
  {
    ThreeDigits(128);
    TextOfOneGroup("1");
  }

  lemma Entry10()
    ensures IsIpv6Cidr(DENY_CIDRS[10], Compressed(["fc00"], []), 7)
  {
    OneDigit(7);
    TextOfOneGroup("fc00");
  }

  lemma Entry11()
    ensures IsIpv6Cidr(DENY_CIDRS[11], Compressed(["fe80"], []), 10)
  {
    TwoDigits(10);
    TextOfOneGroup("fe80");
  }

  lemma Entry12()
    ensures IsIpv6Cidr(DENY_CIDRS[12], Compressed(["ff00"], []), 8)
  {
    OneDigit(8);
    TextOfOneGroup("ff00");
  }

  // The nine IPv4 entries: network, and number of free bits.
  ghost function NetOf(k: nat): (net: seq<nat>)
    requires k < 9
    ensures IsQuad(net)
  {
    match k
    case 0 => [0, 0, 0, 0]
    case 1 => [10, 0, 0, 0]
    case 2 => [127, 0, 0, 0]
    case 3 => [169, 254, 0, 0]
    case 4 => [172, 16, 0, 0]
    case 5 => [192, 168, 0, 0]
    case 6 => [198, 18, 0, 0]
    case 7 => [224, 0, 0, 0]
    case _ => [240, 0, 0, 0]
  }

  ghost function FreeBits(k: nat): (n: nat)
    requires k < 9
    ensures n <= 32
  {
    match k
    case 0 => 24
    case 1 => 24
    case 2 => 24
    case 3 => 16
    case 4 => 20
    case 5 => 16
    case 6 => 17
    case 7 => 28
    case _ => 28
  }

  // The four IPv6 entries: network, and number of free bits.
  ghost function TextOf(k: nat): Ipv6Text {
    if k == 9 then Compressed([], ["1"])
    else if k == 10 then Compressed(["fc00"], [])
    else if k == 11 then Compressed(["fe80"], [])
    else Compressed(["ff00"], [])
  }

  ghost function FreeBits6(k: nat): (n: nat)
    ensures n <= 128
  {
    if k == 9 then 0 else if k == 10 then 121 else if k == 11 then 118 else 120
  }

  // Entry k of the list, the nine IPv4 entries first.
  ghost predicate IsEntry(cidr: string, k: nat)
    requires k < 13
  {
    if k < 9 then IsQuadCidr(cidr, NetOf(k), 32 - FreeBits(k)) else IsIpv6Cidr(cidr, TextOf(k), 128 - FreeBits6(k))
  }

  ghost predicate IsDenyList(cidrs: seq<string>) {
    |cidrs| == 13 && forall k {:trigger IsEntry(cidrs[k], k)} :: 0 <= k < 13 ==> IsEntry(cidrs[k], k)
  }

  lemma EntryHolds(k: nat)
    requires k < 13
    ensures IsEntry(DENY_CIDRS[k], k)
  {
    match k
    case 0 => Entry0();
    case 1 => Entry1();
    case 2 => Entry2();
    case 3 => Entry3();
    case 4 => Entry4();
    case 5 => Entry5();
    case 6 => Entry6();
    case 7 => Entry7();
    case 8 => Entry8();
    case 9 => Entry9();
    case 10 => Entry10();
    case 11 => Entry11();
    case _ => Entry12();
  }

  lemma DenyListIs()
    ensures IsDenyList(DENY_CIDRS)
  {
    forall k: nat | k < 13 ensures IsEntry(DENY_CIDRS[k], k) {
      EntryHolds(k);
    }
  }

  // ---------------------------------------------------------------- the blocks of the entries

  lemma QuadCidrIs(cidr: string, net: seq<nat>, base: nat, bits: nat)
    requires IsQuadCidr(cidr, net, bits) && QuadValue(net) == base
    ensures ParseCidr(cidr) == Ok(Cidr(base, Some(bits), 4, 32))
  {
    QuadCidrParses(net, bits);
    ValueOfQuad(net);
  }

  lemma QuadDenotes(cidr: string, net: seq<nat>, base: nat, n: nat)
    requires n <= 32 && IsQuadCidr(cidr, net, 32 - n) && QuadValue(net) == base && Aligned(base, n)
    ensures Denotes(cidr, Block(4, base, n))
  {
    QuadCidrIs(cidr, net, base, 32 - n);
    ParsedIsBlock(ParseCidr(cidr), 4, base, n, 32 - n);
  }

  lemma AlignedAt(base: nat, n: nat, q: nat)
    requires base == q * Pow2(n)
    ensures Aligned(base, n)
  {
  }

  lemma NetIsAligned(k: nat)
    requires k < 9
    ensures Aligned(QuadValue(NetOf(k)), FreeBits(k))
  {
    PowersUpTo28();
    match k
    case 0 => AlignedAt(0, 24, 0);
    case 1 => AlignedAt(167772160, 24, 10);
    case 2 => AlignedAt(2130706432, 24, 127);
    case 3 => AlignedAt(2851995648, 16, 43518);
    case 4 => AlignedAt(2886729728, 20, 2753);
    case 5 => AlignedAt(3232235520, 16, 49320);
    case 6 => AlignedAt(3323068416, 17, 25353);
    case 7 => AlignedAt(3758096384, 28, 14);
    case _ => AlignedAt(4026531840, 28, 15);
  }

  lemma PowersUpTo28()
    ensures Pow2(16) == 65536 && Pow2(17) == 131072 && Pow2(20) == 1048576
    ensures Pow2(24) == 16777216 && Pow2(28) == 268435456
  {
    assert Pow2(4) == 16;
    assert Pow2(8) == 256;
    assert Pow2(12) == 4096;
    assert Pow2(14) == 16384;
    assert Pow2(18) == 262144;
    assert Pow2(22) == 4194304;
    assert Pow2(26) == 67108864;
  }

  // ---------------------------------------------------------------- numbers by their first digit

  lemma {:induction false} Pow2Sum(m: nat, n: nat)
    ensures Pow2(m + n) == Pow2(m) * Pow2(n)
  {
    if m > 0 {
      Pow2Sum(m - 1, n);
    }
  }

  lemma SplitProduct(a: nat, p: nat, w: nat, r: nat, last: nat)
    requires r < p && last < w
    ensures (a * p + r) * w + last == a * (p * w) + (r * w + last)
    ensures r * w + last < p * w
  {
    assert (a * p + r) * w == a * (p * w) + r * w;
    assert (r + 1) * w <= p * w;
  }

  // (2^w)^n
  ghost function Weight(w: nat, n: nat): nat {
    if n == 0 then 1 else Weight(w, n - 1) * Pow2(w)
  }

  // The first digit of a number, and the rest below it.
  lemma {:induction false} ValueFront(d: seq<nat>, w: nat)
    requires d != [] && Fit(d, w)
    ensures Value(d, w) == d[0] * Weight(w, |d| - 1) + Value(d[1..], w)
    ensures Value(d[1..], w) < Weight(w, |d| - 1)
    decreases |d|
  {
    var n := |d| - 1;
    var tail := d[1..];
    if n == 0 {
      assert d[..0] == [] && tail == [];
    } else {
      var front := d[..n];
      ValueFront(front, w);
      assert tail[..n - 1] == front[1..] && tail[n - 1] == d[n] && front[0] == d[0];
      SplitProduct(d[0], Weight(w, n - 1), Pow2(w), Value(front[1..], w), d[n]);
    }
  }

  // 2^112: the addresses that share their first group.
  ghost function GroupSize(): nat {
    Pow2(112)
  }

  // The first address with the first group h.
  ghost function GroupBase(h: nat): nat {
    h * GroupSize()
  }

  lemma {:induction false} WeightIsPow2(w: nat, n: nat)
    ensures Weight(w, n) == Pow2(w * n)
  {
    if n > 0 {
      WeightIsPow2(w, n - 1);
      assert w * n == w * (n - 1) + w;
      Pow2Sum(w * (n - 1), w);
    }
  }

  lemma HeadBlock(g: nat, low: nat, p: nat, lo: nat, size: nat)
    requires low < p
    ensures lo * p <= g * p + low < lo * p + size * p <==> lo <= g < lo + size
  {
    if g < lo {
      BlocksApart(p, g, lo);
    } else {
      var d := g - lo;
      assert g * p == lo * p + d * p;
      if d < size {
        BlocksApart(p, d, size);
      } else {
        assert d * p == size * p + (d - size) * p;
      }
    }
  }

  // A number with the digit h first and zeros after it.
  lemma HeadValue(d: seq<nat>)
    requires |d| == 8 && Fit(d, 16) && forall i :: 1 <= i < 8 ==> d[i] == 0
    ensures Value(d, 16) == GroupBase(d[0])
  {
    ValueFront(d, 16);
    WeightIsPow2(16, 7);
    ValueOfZeros(d[1..], 16);
  }

  lemma {:induction false} ValueOfZeros(d: seq<nat>, w: nat)
    requires forall i :: 0 <= i < |d| ==> d[i] == 0
    ensures Value(d, w) == 0
  {
    if d != [] {
      ValueOfZeros(d[..|d| - 1], w);
    }
  }

  // ---------------------------------------------------------------- the list as blocks

  ghost function BlockAt(k: nat): Block
    requires k < 13
  {
    if k < 9 then Block(4, QuadValue(NetOf(k)), FreeBits(k)) else Block(6, BaseOf(k), FreeBits6(k))
  }

  ghost function BaseOf(k: nat): nat {
    if k == 9 then 1
    else if k == 10 then GroupBase(0xfc00)
    else if k == 11 then GroupBase(0xfe80)
    else GroupBase(0xff00)
  }

  ghost function DenyBlocks(): (blocks: seq<Block>)
    ensures |blocks| == 13 && forall k :: 0 <= k < 13 ==> blocks[k] == BlockAt(k)
  {
    seq(13, k requires 0 <= k < 13 => BlockAt(k))
  }

  lemma Ipv6CidrIs(cidr: string, t: Ipv6Text, base: nat, bits: nat)
    requires IsIpv6Cidr(cidr, t, bits) && Value(t.Groups(), 16) == base
    ensures ParseCidr(cidr) == Ok(Cidr(base, Some(bits), 6, 128))
  {
    Ipv6CidrParses(t, bits);
  }

  lemma ParsedIsBlock(parsed: Result<Cidr, Error>, version: nat, base: nat, n: nat, bits: nat)
    requires bits + n == TotalBits(version) && Aligned(base, n)
    requires parsed == Ok(Cidr(base, Some(bits), version, TotalBits(version)))
    ensures IsBlock(parsed, Block(version, base, n))
  {
  }

  lemma LoopbackValue()
    ensures Value(Compressed([], ["1"]).Groups(), 16) == 1
  {
    assert HexValue("1") == 1;
    var g := Compressed([], ["1"]).Groups();
    assert g[..7] == Zeros(7) && g[7] == 1;
    ValueOfZeros(g[..7], 16);
  }

  lemma HexOfFour(s: string)
    requires |s| == 4 && AllHex(s)
    ensures HexValue(s) == 4096 * HexDigit(s[0]) + 256 * HexDigit(s[1]) + 16 * HexDigit(s[2]) + HexDigit(s[3])
  {
    assert s[..3][..2] == s[..2] && s[..2][..1] == s[..1] && s[..1][..0] == "";
    assert HexValue(s[..1]) == HexDigit(s[0]);
    assert HexValue(s[..2]) == 16 * HexDigit(s[0]) + HexDigit(s[1]);
  }

  lemma LeadingGroupValue(group: string)
    requires |group| == 4 && AllHex(group)
    ensures Value(Compressed([group], []).Groups(), 16) == GroupBase(HexValue(group))
  {
    var t := Compressed([group], []);
    GroupsFit(t);
    assert t.Groups() == [HexValue(group)] + Zeros(7);
    HeadValue(t.Groups());
  }

  lemma LeadingIsAligned(h: nat, m: nat, q: nat)
    requires h == q * Pow2(m)
    ensures Aligned(GroupBase(h), 112 + m)
  {
    Pow2Sum(112, m);
    Reassociate(q, Pow2(m), Pow2(112));
    AlignedAt(GroupBase(h), 112 + m, q);
  }

  lemma Reassociate(q: nat, a: nat, b: nat)
    ensures (q * a) * b == q * (b * a)
  {
  }

  ghost predicate IsBase(k: nat) {
    TextOf(k).Valid() && Value(TextOf(k).Groups(), 16) == BaseOf(k) && Aligned(BaseOf(k), FreeBits6(k))
  }

  lemma LoopbackBase()
    ensures IsBase(9)
  {
    LoopbackValue();
    AlignedAt(1, 0, 1);
  }

  ghost predicate IsLeadingBase(t: Ipv6Text, h: nat, m: nat) {
    t.Valid() && Value(t.Groups(), 16) == GroupBase(h) && Aligned(GroupBase(h), 112 + m)
  }

  lemma LeadingBase(group: string, h: nat, m: nat, q: nat)
    requires |group| == 4 && AllHex(group) && HexValue(group) == h && h == q * Pow2(m)
    ensures IsLeadingBase(Compressed([group], []), h, m)
  {
    LeadingGroupValue(group);
    LeadingIsAligned(h, m, q);
  }

  lemma HexOfHeads()
    ensures HexValue("fc00") == 0xfc00 && HexValue("fe80") == 0xfe80 && HexValue("ff00") == 0xff00
  {
    HexOfFour("fc00");
    HexOfFour("fe80");
    HexOfFour("ff00");
  }

  lemma UniqueLocalBase()
    ensures IsBase(10)
  {
    HexOfHeads();
    PowersUpTo9();
    LeadingBase("fc00", 0xfc00, 9, 126);
  }

  lemma LinkLocalBase()
    ensures IsBase(11)
  {
    HexOfHeads();
    PowersUpTo9();
    LeadingBase("fe80", 0xfe80, 6, 1018);
  }

  lemma MulticastBase()
    ensures IsBase(12)
  {
    HexOfHeads();
    PowersUpTo9();
    LeadingBase("ff00", 0xff00, 8, 255);
  }

  lemma BaseIs(k: nat)
    requires 9 <= k < 13
    ensures IsBase(k)
  {
    match k
    case 9 => LoopbackBase();
    case 10 => UniqueLocalBase();
    case 11 => LinkLocalBase();
    case _ => MulticastBase();
  }

  lemma Ipv6Denotes(cidr: string, t: Ipv6Text, base: nat, n: nat, bits: nat)
    requires bits + n == 128 && IsIpv6Cidr(cidr, t, bits) && Value(t.Groups(), 16) == base && Aligned(base, n)
    ensures Denotes(cidr, Block(6, base, n))
  {
    Ipv6CidrIs(cidr, t, base, bits);
    ParsedIsBlock(ParseCidr(cidr), 6, base, n, bits);
  }

  lemma QuadEntryDenotes(cidr: string, k: nat)
    requires k < 9 && IsQuadCidr(cidr, NetOf(k), 32 - FreeBits(k))
    ensures Denotes(cidr, BlockAt(k))
  {
    NetIsAligned(k);
    QuadDenotes(cidr, NetOf(k), QuadValue(NetOf(k)), FreeBits(k));
  }

  lemma Ipv6EntryDenotes(cidr: string, k: nat)
    requires 9 <= k < 13 && IsIpv6Cidr(cidr, TextOf(k), 128 - FreeBits6(k))
    ensures Denotes(cidr, BlockAt(k))
  {
    BaseIs(k);
    Ipv6Denotes(cidr, TextOf(k), BaseOf(k), FreeBits6(k), 128 - FreeBits6(k));
  }

  lemma EntryDenotes(cidr: string, k: nat)
    requires k < 13 && IsEntry(cidr, k)
    ensures Denotes(cidr, BlockAt(k))
  {
    if k < 9 {
      QuadEntryDenotes(cidr, k);
    } else {
      Ipv6EntryDenotes(cidr, k);
    }
  }

  lemma ListDenotes(cidrs: seq<string>)
    requires IsDenyList(cidrs)
    ensures AllDenote(cidrs, DenyBlocks())
  {
    forall k | 0 <= k < 13 ensures Denotes(cidrs[k], DenyBlocks()[k]) {
      assert IsEntry(cidrs[k], k);
      EntryDenotes(cidrs[k], k);
    }
  }

  // The list holds an address iff one of its thirteen blocks does.
  lemma ListedIffInBlock(ip: string, version: nat, v: nat)
    requires IsAddress(ip, version, v)
    ensures InSome(ip, DENY_CIDRS) == Ok(InOneOf(DenyBlocks(), version, v))
  {
    DenyListIs();
    ListDenotes(DENY_CIDRS);
    InSomeIffInBlocks(ip, version, v, DENY_CIDRS, DenyBlocks());
  }

  // ---------------------------------------------------------------- what the list means

  // An IPv4 address of one of the internal ranges.
  ghost predicate IsInternalQuad(b: seq<nat>)
    requires |b| == 4
  {
    || b[0] == 0 || b[0] == 10 || b[0] == 127
    || (b[0] == 169 && b[1] == 254)
    || (b[0] == 172 && 16 <= b[1] <= 31)
    || (b[0] == 192 && b[1] == 168)
    || (b[0] == 198 && 18 <= b[1] <= 19)
    || b[0] >= 224
  }

  lemma WholeByteBlocks(b: seq<nat>)
    requires IsQuad(b)
    ensures Contains(BlockAt(0), 4, QuadValue(b)) <==> b[0] == 0
    ensures Contains(BlockAt(1), 4, QuadValue(b)) <==> b[0] == 10
    ensures Contains(BlockAt(2), 4, QuadValue(b)) <==> b[0] == 127
  {
    PowersUpTo28();
  }

  lemma TwoByteBlocks(b: seq<nat>)
    requires IsQuad(b)
    ensures Contains(BlockAt(3), 4, QuadValue(b)) <==> b[0] == 169 && b[1] == 254
    ensures Contains(BlockAt(5), 4, QuadValue(b)) <==> b[0] == 192 && b[1] == 168
  {
    PowersUpTo28();
  }

  lemma PartByteBlock(b: seq<nat>)
    requires IsQuad(b)
    ensures Contains(BlockAt(4), 4, QuadValue(b)) <==> b[0] == 172 && 16 <= b[1] <= 31
  {
    PowersUpTo28();
  }

  lemma TestNetBlock(b: seq<nat>)
    requires IsQuad(b)
    ensures Contains(BlockAt(6), 4, QuadValue(b)) <==> b[0] == 198 && 18 <= b[1] <= 19
  {
    PowersUpTo28();
  }

  lemma HalfByteBlocks(b: seq<nat>)
    requires IsQuad(b)
    ensures Contains(BlockAt(7), 4, QuadValue(b)) <==> 224 <= b[0] < 240
    ensures Contains(BlockAt(8), 4, QuadValue(b)) <==> b[0] >= 240
  {
    PowersUpTo28();
  }

  lemma NoIpv6Block(v: nat)
    ensures forall k :: 9 <= k < 13 ==> !Contains(BlockAt(k), 4, v)
  {
  }

  lemma InOneOfDenyBlocks(version: nat, v: nat)
    ensures InOneOf(DenyBlocks(), version, v) <==> exists k :: 0 <= k < 13 && Contains(BlockAt(k), version, v)
  {
    if k :| 0 <= k < 13 && Contains(BlockAt(k), version, v) {
      assert Contains(DenyBlocks()[k], version, v);
    }
  }

  // An IPv4 address is on the list iff its bytes are those of an internal range.
  lemma QuadIsDenied(b: seq<nat>)
    requires IsQuad(b)
    ensures InSome(DottedQuad(b), DENY_CIDRS) == Ok(IsInternalQuad(b))
  {
    DottedQuadParses(b);
    ValueOfQuad(b);
    ListedIffInBlock(DottedQuad(b), 4, QuadValue(b));
    QuadInBlocks(b);
  }

  lemma QuadInBlocks(b: seq<nat>)
    requires IsQuad(b)
    ensures InOneOf(DenyBlocks(), 4, QuadValue(b)) <==> IsInternalQuad(b)
  {
    WholeByteBlocks(b);
    TwoByteBlocks(b);
    PartByteBlock(b);
    TestNetBlock(b);
    HalfByteBlocks(b);
    NoIpv6Block(QuadValue(b));
    InOneOfDenyBlocks(4, QuadValue(b));
  }

  // The loopback address, a unique local, a link-local or a multicast address.
  ghost predicate IsInternalGroups(g: seq<nat>)
    requires |g| == 8
  {
    || g == [0, 0, 0, 0, 0, 0, 0, 1]
    || 0xfc00 <= g[0] <= 0xfdff
    || 0xfe80 <= g[0] <= 0xfebf
    || 0xff00 <= g[0]
  }

  lemma ValueOfOne(one: seq<nat>)
    requires |one| == 8 && one[7] == 1 && forall i :: 0 <= i < 7 ==> one[i] == 0
    ensures Value(one, 16) == 1
  {
    ValueOfZeros(one[..7], 16);
  }

  lemma LoopbackBlock(g: seq<nat>, one: seq<nat>)
    requires |g| == 8 && Fit(g, 16) && one == [0, 0, 0, 0, 0, 0, 0, 1]
    ensures Contains(BlockAt(9), 6, Value(g, 16)) <==> g == one
  {
    ValueOfOne(one);
    assert Pow2(0) == 1;
    if Value(g, 16) == 1 {
      OneFits(one);
      ValueIsInjective(g, one, 16);
    }
  }

  lemma OneFits(one: seq<nat>)
    requires one == [0, 0, 0, 0, 0, 0, 0, 1]
    ensures Fit(one, 16)
  {
    SixteenBits();
  }

  lemma LeadingBlock(v: nat, g: nat, low: nat, h: nat, m: nat, size: nat)
    requires v == GroupBase(g) + low && low < GroupSize() && size == Pow2(m)
    ensures Contains(Block(6, GroupBase(h), 112 + m), 6, v) <==> h <= g < h + size
  {
    Pow2Sum(m, 112);
    HeadBlock(g, low, GroupSize(), h, size);
  }

  lemma PowersUpTo9()
    ensures Pow2(6) == 64 && Pow2(8) == 256 && Pow2(9) == 512
  {
    assert Pow2(4) == 16;
  }

  lemma LeadingBlocks(v: nat, g: nat, low: nat)
    requires v == GroupBase(g) + low && low < GroupSize() && g <= 0xffff
    ensures Contains(BlockAt(10), 6, v) <==> 0xfc00 <= g <= 0xfdff
    ensures Contains(BlockAt(11), 6, v) <==> 0xfe80 <= g <= 0xfebf
    ensures Contains(BlockAt(12), 6, v) <==> 0xff00 <= g
  {
    PowersUpTo9();
    LeadingBlock(v, g, low, 0xfc00, 9, 512);
    LeadingBlock(v, g, low, 0xfe80, 6, 64);
    LeadingBlock(v, g, low, 0xff00, 8, 256);
  }

  lemma SixteenBits()
    ensures Pow2(16) == 65536
  {
    assert Pow2(8) == 256;
    Pow2Sum(8, 8);
  }

  // An IPv6 address is on the list iff its groups are those of an internal range, whichever
  // way it is written.
  lemma Ipv6IsDenied(t: Ipv6Text)
    requires t.Valid()
    ensures InSome(t.Text(), DENY_CIDRS) == Ok(IsInternalGroups(t.Groups()))
  {
    Ipv6Parses(t);
    Ipv6TextIsAccepted(t);
    ListedIffInBlock(t.Text(), 6, Value(t.Groups(), 16));
    GroupsFit(t);
    GroupsInBlocks(t.Groups());
  }

  lemma NoQuadBlock(v: nat)
    ensures forall k :: 0 <= k < 9 ==> !Contains(BlockAt(k), 6, v)
  {
  }

  lemma FirstGroup(g: seq<nat>)
    requires |g| == 8 && Fit(g, 16)
    ensures Value(g, 16) == GroupBase(g[0]) + Value(g[1..], 16)
    ensures Value(g[1..], 16) < GroupSize() && g[0] <= 0xffff
  {
    ValueFront(g, 16);
    WeightIsPow2(16, 7);
    SixteenBits();
  }

  lemma GroupsInBlocks(g: seq<nat>)
    requires |g| == 8 && Fit(g, 16)
    ensures InOneOf(DenyBlocks(), 6, Value(g, 16)) <==> IsInternalGroups(g)
  {
    LoopbackBlock(g, [0, 0, 0, 0, 0, 0, 0, 1]);
    FirstGroup(g);
    LeadingBlocks(Value(g, 16), g[0], Value(g[1..], 16));
    NoQuadBlock(Value(g, 16));
    InOneOfDenyBlocks(6, Value(g, 16));
  }

  // What the loop decides about an address, given what the deny list says of it.
  ghost function Decision(ip: string, allowed: seq<string>, internal: bool): Option<Error> {
    if exists cidr :: cidr in allowed && Covers(cidr, ip) then None
    else if internal then Some(InternalIpForbidden(ip)) else None
  }

  // With a well-formed allow list an address passes iff it is allow-listed or not internal.
  lemma QuadVerdict(b: seq<nat>, allowed: seq<string>)
    requires IsQuad(b) && forall cidr :: cidr in allowed ==> WellFormed(cidr)
    ensures Verdict(DottedQuad(b), allowed) == Decision(DottedQuad(b), allowed, IsInternalQuad(b))
  {
    InSomeIff(DottedQuad(b), allowed);
    QuadIsDenied(b);
  }

  lemma Ipv6Verdict(t: Ipv6Text, allowed: seq<string>)
    requires t.Valid() && forall cidr :: cidr in allowed ==> WellFormed(cidr)
    ensures Verdict(t.Text(), allowed) == Decision(t.Text(), allowed, IsInternalGroups(t.Groups()))
  {
    InSomeIff(t.Text(), allowed);
    Ipv6IsDenied(t);
  }

  // ---------------------------------------------------------------- IPv4 addresses within IPv6

  // The groups that section 2.5.5.2 of RFC 4291 gives to an IPv4 address.
  ghost function MappedGroups(b: seq<nat>): (g: seq<nat>)
    requires IsQuad(b)
    ensures |g| == 8
  {
    [0, 0, 0, 0, 0, 0xffff, 256 * b[0] + b[1], 256 * b[2] + b[3]]
  }

  lemma MappedIsNotInternal(b: seq<nat>)
    requires IsQuad(b)
    ensures !IsInternalGroups(MappedGroups(b))
  {
    assert MappedGroups(b)[5] == 0xffff;
  }

  lemma PassesUnlessInternal(t: Ipv6Text)
    requires t.Valid()
    ensures Verdict(t.Text(), []).None? <==> !IsInternalGroups(t.Groups())
  {
    Ipv6Verdict(t, []);
  }

  // No such address is on the list, whatever its bytes, and neither is the unspecified
  // address: without an allow list they pass.
  lemma MappedPasses(t: Ipv6Text, b: seq<nat>)
    requires t.Valid() && IsQuad(b) && t.Groups() == MappedGroups(b)
    ensures Verdict(t.Text(), []) == None
  {
    PassesUnlessInternal(t);
    MappedIsNotInternal(b);
  }

  lemma UnspecifiedPasses(t: Ipv6Text)
    requires t.Valid() && t.Groups() == Zeros(8)
    ensures Verdict(t.Text(), []) == None
  {
    PassesUnlessInternal(t);
    assert Zeros(8)[7] == 0;
  }

  // A text that ends in the given groups.
  lemma TailText(values: seq<nat>) returns (t: Ipv6Text)
    requires |values| <= 7 && forall i :: 0 <= i < |values| ==> values[i] <= 0xffff
    ensures t.Valid() && t.Groups() == Zeros(8 - |values|) + values
  {
    var texts := seq(|values|, i requires 0 <= i < |values| => Hex(values[i]));
    forall i | 0 <= i < |values| ensures IsGroup(texts[i]) && HexValue(texts[i]) == values[i] {
      HexOfGroup(values[i]);
    }
    assert HexValues(texts) == values && HexValues([]) == [];
    t := Compressed([], texts);
  }

  lemma MappedText(b: seq<nat>) returns (t: Ipv6Text)
    requires IsQuad(b)
    ensures t.Valid() && t.Groups() == MappedGroups(b)
  {
    t := TailText(MappedGroups(b)[5..]);
    assert Zeros(5) + MappedGroups(b)[5..] == MappedGroups(b);
  }

  // The same bytes in the two versions: as a dotted quad they are refused iff internal, as
  // an IPv6 address never. So exactly the internal quads fare differently.
  lemma MappedVerdictsDifferIff(b: seq<nat>) returns (t: Ipv6Text)
    requires IsQuad(b)
    ensures t.Valid() && t.Groups() == MappedGroups(b)
    ensures Verdict(DottedQuad(b), []).None? != Verdict(t.Text(), []).None? <==> IsInternalQuad(b)
  {
    t := MappedText(b);
    MappedPasses(t, b);
    QuadVerdict(b, []);
  }

  // ---------------------------------------------------------------- entries without a prefix length

  lemma ValueBelow(d: seq<nat>, w: nat)
    requires Fit(d, w)
    ensures Value(d, w) < Pow2(w * |d|)
  {
    var longer := [0] + d;
    assert longer[1..] == d;
    ValueFront(longer, w);
    WeightIsPow2(w, |d|);
  }

  lemma AllInOneBlock(a: nat, b: nat, n: nat)
    requires a < Pow2(n) && b < Pow2(n)
    ensures SameBlock(a, b, n)
  {
    assert InBlock(a, 0, n) && InBlock(b, 0, n);
  }

  lemma BareQuadParses(net: seq<nat>)
    requires IsQuad(net)
    ensures ParseCidr(DottedQuad(net)) == Ok(Cidr(Value(net, 8), Some(0), 4, 32))
  {
    SlashlessQuad(net);
    SplitOne(DottedQuad(net), '/');
    DottedQuadParses(net);
    assert ToNumber("") == Some(0);
  }

  // An allow-list entry that is a bare IPv4 address has no prefix to compare: it admits every
  // IPv4 address, internal or not.
  lemma BareEntryAdmitsAll(net: seq<nat>, b: seq<nat>)
    requires IsQuad(net) && IsQuad(b)
    ensures Verdict(DottedQuad(b), [DottedQuad(net)]) == None
  {
    BareQuadParses(net);
    DottedQuadParses(b);
    BytesFit(b);
    BytesFit(net);
    ValueBelow(b, 8);
    ValueBelow(net, 8);
    AllInOneBlock(Value(b, 8), Value(net, 8), 32);
    IpInRangeIs(DottedQuad(b), DottedQuad(net), Cidr(Value(net, 8), Some(0), 4, 32), Value(b, 8));
  }
}
