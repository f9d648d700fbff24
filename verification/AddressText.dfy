// Texts of numbers and addresses for UrlValidator: splitting, joining, decimal and
// hexadecimal numerals.
module AddressText {
  import opened Wrappers
  import opened BigBits

  // ---------------------------------------------------------------- split and join

  function Split(s: string, c: char): (parts: seq<string>)
    ensures |parts| >= 1
  {
    if s == "" then [""]
    else
      var rest := Split(s[1..], c);
      if s[0] == c then [""] + rest else [[s[0]] + rest[0]] + rest[1..]
  }

  function Join(parts: seq<string>, c: char): string {
    if parts == [] then "" else if |parts| == 1 then parts[0] else parts[0] + [c] + Join(parts[1..], c)
  }

  lemma {:induction false} SplitOne(p: string, c: char)
    requires c !in p
    ensures Split(p, c) == [p]
  {
    if p != "" {
      assert p == [p[0]] + p[1..];
      SplitOne(p[1..], c);
    }
  }

  lemma {:induction false} SplitFirst(p: string, c: char, rest: string)
    requires c !in p
    ensures Split(p + [c] + rest, c) == [p] + Split(rest, c)
  {
    var s := p + [c] + rest;
    if p == "" {
      assert s[1..] == rest;
    } else {
      assert s[1..] == p[1..] + [c] + rest;
      assert p == [p[0]] + p[1..];
      SplitFirst(p[1..], c, rest);
    }
  }

  lemma {:induction false} SplitOfJoin(parts: seq<string>, c: char)
    requires parts != [] && forall p :: p in parts ==> c !in p
    ensures Split(Join(parts, c), c) == parts
  {
    if |parts| == 1 {
      SplitOne(parts[0], c);
    } else {
      SplitOfJoin(parts[1..], c);
      SplitFirst(parts[0], c, Join(parts[1..], c));
    }
  }

  lemma JoinAfterEmpty(rest: seq<string>, c: char)
    requires rest != []
    ensures Join([""] + rest, c) == [c] + Join(rest, c)
  {
    assert ([""] + rest)[1..] == rest;
  }

  lemma FirstThenRest(s: string)
    requires s != ""
    ensures [s[0]] + s[1..] == s
  {
  }

  lemma {:induction false} JoinOfSplit(s: string, c: char)
    ensures Join(Split(s, c), c) == s
  {
    if s != "" {
      JoinOfSplit(s[1..], c);
      FirstThenRest(s);
      var rest := Split(s[1..], c);
      if s[0] == c {
        JoinAfterEmpty(rest, c);
      } else {
        JoinLonger([s[0]], rest, c);
      }
    }
  }

  lemma {:induction false} PartsOfSplit(s: string, c: char)
    ensures forall p :: p in Split(s, c) ==> c !in p
  {
    if s != "" {
      PartsOfSplit(s[1..], c);
      var rest := Split(s[1..], c);
      assert rest[0] in rest;
    }
  }

  lemma JoinLonger(pre: string, parts: seq<string>, c: char)
    requires parts != []
    ensures Join([pre + parts[0]] + parts[1..], c) == pre + Join(parts, c)
  {
    var longer := [pre + parts[0]] + parts[1..];
    assert longer[1..] == parts[1..];
  }

  lemma {:induction false} JoinCharacters(parts: seq<string>, c: char, x: char)
    requires x in Join(parts, c)
    ensures x == c || exists p :: p in parts && x in p
  {
    if |parts| == 1 {
      assert parts[0] in parts;
    } else if |parts| > 1 && x !in parts[0] && x != c {
      JoinCharacters(parts[1..], c, x);
    }
  }

  // Split at every double colon.
  function SplitDouble(s: string): (parts: seq<string>)
    ensures |parts| >= 1
  {
    if |s| < 2 then [s]
    else if s[0] == ':' && s[1] == ':' then [""] + SplitDouble(s[2..])
    else
      var rest := SplitDouble(s[1..]);
      [[s[0]] + rest[0]] + rest[1..]
  }

  ghost predicate NoDouble(s: string) {
    forall i :: 0 <= i < |s| - 1 ==> s[i] != ':' || s[i + 1] != ':'
  }

  lemma NoDoubleTail(s: string)
    requires NoDouble(s) && s != ""
    ensures NoDouble(s[1..])
  {
    forall i | 0 <= i < |s[1..]| - 1 ensures s[1..][i] != ':' || s[1..][i + 1] != ':' {
      assert s[1..][i] == s[i + 1] && s[1..][i + 1] == s[i + 2];
    }
  }

  lemma {:induction false} SplitSingle(s: string)
    requires NoDouble(s)
    ensures SplitDouble(s) == [s]
  {
    if |s| >= 2 {
      var rest := s[1..];
      NoDoubleTail(s);
      SplitSingle(rest);
      assert s == [s[0]] + rest;
    }
  }

  lemma {:induction false} SplitAtDouble(a: string, b: string)
    requires NoDouble(a) && (a == "" || a[|a| - 1] != ':')
    ensures SplitDouble(a + "::" + b) == [a] + SplitDouble(b)
  {
    var s := a + "::" + b;
    if a == "" {
      assert s[2..] == b;
    } else {
      var rest := a[1..];
      assert s[1..] == rest + "::" + b;
      NoDoubleTail(a);
      assert rest != "" ==> rest[|rest| - 1] == a[|a| - 1];
      assert s[0] == a[0] && s[1] == if |a| > 1 then a[1] else ':';
      assert !(s[0] == ':' && s[1] == ':');
      SplitAtDouble(rest, b);
      assert a == [a[0]] + rest;
    }
  }

  ghost predicate Plain(p: string) {
    p != "" && ':' !in p
  }

  // Joined by single colons, non-empty parts have no double colon and no colon at the ends.
  lemma {:induction false} JoinHasNoDouble(parts: seq<string>)
    requires forall p :: p in parts ==> Plain(p)
    ensures NoDouble(Join(parts, ':'))
    ensures parts != [] ==> Join(parts, ':') != ""
    ensures Join(parts, ':') != "" ==>
      Join(parts, ':')[0] != ':' && Join(parts, ':')[|Join(parts, ':')| - 1] != ':'
  {
    if |parts| == 1 {
      assert Plain(parts[0]);
    } else if |parts| > 1 {
      assert Plain(parts[0]);
      JoinHasNoDouble(parts[1..]);
      NoDoubleAround(parts[0], Join(parts[1..], ':'));
    }
  }

  lemma NoDoubleAround(p: string, rest: string)
    requires Plain(p) && NoDouble(rest) && rest != "" && rest[0] != ':'
    ensures NoDouble(p + [':'] + rest)
  {
    var s := p + [':'] + rest;
    forall i | 0 <= i < |s| - 1 ensures s[i] != ':' || s[i + 1] != ':' {
      if i < |p| {
        assert s[i] == p[i] && p[i] in p;
      } else if i == |p| {
        assert s[i + 1] == rest[0];
      } else {
        assert s[i] == rest[i - |p| - 1] && s[i + 1] == rest[i - |p|];
      }
    }
  }

  // ---------------------------------------------------------------- numerals

  predicate IsDigit(c: char) {
    '0' <= c <= '9'
  }

  predicate AllDigits(s: string) {
    forall i :: 0 <= i < |s| ==> IsDigit(s[i])
  }

  function DecValue(s: string): nat
    requires AllDigits(s)
  {
    if s == "" then 0 else 10 * DecValue(s[..|s| - 1]) + (s[|s| - 1] as nat - '0' as nat)
  }

  // The number of a decimal numeral; the empty text counts as zero.
  function ToNumber(s: string): Option<nat> {
    if AllDigits(s) then Some(DecValue(s)) else None
  }

  function DigitChar(n: nat): (c: char)
    requires n < 10
    ensures IsDigit(c) && c as nat - '0' as nat == n
  {
    (n + '0' as nat) as char
  }

  function Decimal(n: nat): (s: string)
    ensures s != "" && AllDigits(s)
  {
    if n < 10 then [DigitChar(n)] else Decimal(n / 10) + [DigitChar(n % 10)]
  }

  lemma {:induction false} ValueOfDecimal(n: nat)
    ensures DecValue(Decimal(n)) == n
    ensures n < 10 ==> |Decimal(n)| == 1
    ensures n >= 10 ==> |Decimal(n)| >= 2 && Decimal(n)[0] != '0'
  {
    if n < 10 {
      assert [DigitChar(n)][..0] == "";
    } else {
      var front := Decimal(n / 10);
      ValueOfDecimal(n / 10);
      assert Decimal(n)[..|Decimal(n)| - 1] == front;
      if n / 10 < 10 {
        assert front == [DigitChar(n / 10)];
      }
    }
  }

  // Without a superfluous leading zero.
  predicate Canonical(s: string) {
    s != "" && AllDigits(s) && (|s| == 1 || s[0] != '0')
  }

  lemma DigitOfChar(c: char)
    requires IsDigit(c)
    ensures DigitChar(c as nat - '0' as nat) == c
  {
  }

  lemma {:induction false} CanonicalIsPositive(s: string)
    requires Canonical(s) && s != "0"
    ensures DecValue(s) >= 1
  {
    if |s| == 1 {
      assert s[..0] == "";
    } else {
      CanonicalIsPositive(s[..|s| - 1]);
    }
  }

  lemma {:induction false} DecimalOfValue(s: string)
    requires Canonical(s)
    ensures Decimal(DecValue(s)) == s
  {
    var front := s[..|s| - 1];
    DigitOfChar(s[|s| - 1]);
    if |s| == 1 {
      assert front == "";
    } else {
      DecimalOfValue(front);
      CanonicalIsPositive(front);
      assert DecValue(s) / 10 == DecValue(front);
      assert s == front + [s[|s| - 1]];
    }
  }

  predicate IsHexDigit(c: char) {
    IsDigit(c) || 'a' <= c <= 'f' || 'A' <= c <= 'F'
  }

  function HexDigit(c: char): (n: nat)
    requires IsHexDigit(c)
    ensures n < 16
  {
    if IsDigit(c) then c as nat - '0' as nat
    else if 'a' <= c <= 'f' then c as nat - 'a' as nat + 10
    else c as nat - 'A' as nat + 10
  }

  predicate AllHex(s: string) {
    forall i :: 0 <= i < |s| ==> IsHexDigit(s[i])
  }

  function HexValue(s: string): nat
    requires AllHex(s)
  {
    if s == "" then 0 else 16 * HexValue(s[..|s| - 1]) + HexDigit(s[|s| - 1])
  }

  // The number of a hexadecimal numeral, none without a digit.
  function ParseHex(s: string): Option<nat> {
    if s != "" && AllHex(s) then Some(HexValue(s)) else None
  }

  // One to four hexadecimal digits.
  predicate IsGroup(s: string) {
    1 <= |s| <= 4 && AllHex(s)
  }

  lemma GroupFits(s: string)
    requires IsGroup(s)
    ensures HexValue(s) < Pow2(16)
  {
    HexStep(s);
    assert Pow2(4) == 16;
    assert Pow2(8) == 256;
    assert Pow2(12) == 4096;
    assert Pow2(16) == 65536;
  }

  lemma {:induction false} HexStep(s: string)
    requires AllHex(s) && |s| <= 4
    ensures |s| == 0 ==> HexValue(s) == 0
    ensures |s| == 1 ==> HexValue(s) < 16
    ensures |s| == 2 ==> HexValue(s) < 256
    ensures |s| == 3 ==> HexValue(s) < 4096
    ensures |s| == 4 ==> HexValue(s) < 65536
  {
    if s != "" {
      HexStep(s[..|s| - 1]);
    }
  }

  // The numbers of all the texts, if each is a numeral.
  function Numbers(texts: seq<string>, parse: string -> Option<nat>): (r: Option<seq<nat>>)
    ensures r.Some? ==> |r.value| == |texts|
  {
    if texts == [] then Some([])
    else
      var front := Numbers(texts[..|texts| - 1], parse);
      var last := parse(texts[|texts| - 1]);
      if front.Some? && last.Some? then Some(front.value + [last.value]) else None
  }

  lemma {:induction false} NumbersAre(texts: seq<string>, parse: string -> Option<nat>, values: seq<nat>)
    requires |texts| == |values| && forall i :: 0 <= i < |texts| ==> parse(texts[i]) == Some(values[i])
    ensures Numbers(texts, parse) == Some(values)
  {
    if texts != [] {
      var n := |texts| - 1;
      NumbersAre(texts[..n], parse, values[..n]);
      assert values == values[..n] + [values[n]];
    }
  }

  function HexChar(n: nat): (c: char)
    requires n < 16
    ensures IsHexDigit(c) && HexDigit(c) == n
  {
    if n < 10 then DigitChar(n) else (n - 10 + 'a' as nat) as char
  }

  function Hex(n: nat): (s: string)
    ensures s != "" && AllHex(s)
  {
    if n < 16 then [HexChar(n)] else Hex(n / 16) + [HexChar(n % 16)]
  }

  lemma {:induction false} ValueOfHex(n: nat)
    ensures HexValue(Hex(n)) == n
  {
    if n < 16 {
      assert Hex(n)[..0] == "";
    } else {
      ValueOfHex(n / 16);
      assert Hex(n)[..|Hex(n)| - 1] == Hex(n / 16);
    }
  }

  lemma HexOfGroup(n: nat)
    requires n <= 0xffff
    ensures IsGroup(Hex(n)) && HexValue(Hex(n)) == n
  {
    ValueOfHex(n);
    assert |Hex(n / 4096)| == 1;
    assert |Hex(n / 256)| <= 2 by { assert n / 256 / 16 == n / 4096; }
    assert |Hex(n / 16)| <= 3 by { assert n / 16 / 16 == n / 256; }
  }

  // ---- the digits, read off a list of them

  const HEX_DIGITS: string := "0123456789abcdef"
  const LARGE_HEX_DIGITS: string := "0123456789ABCDEF"

  // Small or large, a digit is worth its place in the list.
  lemma HexDigitsAre(c: char, v: nat)
    requires v < 16
    ensures IsHexDigit(c) && HexDigit(c) == v <==> c == HEX_DIGITS[v] || c == LARGE_HEX_DIGITS[v]
  {
  }

  // A further digit shifts the others by one place.
  lemma HexAppends(s: string, v: nat, c: char)
    requires AllHex(s) && v < 16 && (c == HEX_DIGITS[v] || c == LARGE_HEX_DIGITS[v])
    ensures AllHex(s + [c]) && HexValue(s + [c]) == 16 * HexValue(s) + v
  {
    HexDigitsAre(c, v);
    assert (s + [c])[..|s|] == s;
  }

  lemma DecAppends(s: string, v: nat)
    requires AllDigits(s) && v < 10
    ensures AllDigits(s + [HEX_DIGITS[v]]) && DecValue(s + [HEX_DIGITS[v]]) == 10 * DecValue(s) + v
  {
    assert (s + [HEX_DIGITS[v]])[..|s|] == s;
  }
}
