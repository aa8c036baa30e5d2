/** The network's default route: strict address texts, and a mask that is an interval. */
module Egress {
  import opened Common
  import opened Text

  const INTERNET_DESTINATION := "0.0.0.0/0"
  const PUBLIC_INTERFACE_GATEWAY := "172.31.1.1"

  datatype Error = BadAddress | BadCidr | PublicGateway | OutsideRange | Reserved

  datatype Route = Route(destination: string, gateway: string)

  // ---- Parsing ----

  /** The texts `^(0|[1-9][0-9]{0,n-1})$` matches. */
  predicate IsShortNumber(s: string, digits: nat) {
    0 < |s| <= digits && AllDigits(s) && (s[0] == '0' ==> |s| == 1)
  }

  predicate IsOctet(s: string) {
    IsShortNumber(s, 3) && Value(s) <= 255
  }

  /** The `reduce` of `parseIpv4`. */
  function FoldOctets(octets: seq<string>, accumulator: nat): Result<nat, Error> {
    if octets == [] then Ok(accumulator)
    else if !IsOctet(octets[0]) then Err(BadAddress)
    else FoldOctets(octets[1..], accumulator * 256 + Value(octets[0]))
  }

  function ParseIpv4(address: string): Result<nat, Error> {
    var octets := Split(address, '.');
    if |octets| != 4 then Err(BadAddress) else FoldOctets(octets, 0)
  }

  datatype Cidr = Cidr(base: nat, mask: nat)

  function Pow2(n: nat): (r: nat)
    ensures r >= 1
  {
    if n == 0 then 1 else 2 * Pow2(n - 1)
  }

  /** JavaScript's `a & b` on two unsigned 32-bit values, read back unsigned. */
  function And(a: nat, b: nat): nat {
    if a == 0 || b == 0 then 0
    else 2 * And(a / 2, b / 2) + (if a % 2 == 1 && b % 2 == 1 then 1 else 0)
  }

  /** The mask is built by division: its value is 2^32 - 2^(32 - bits), and zero for a prefix of zero. */
  function MaskOf(bits: nat): nat
    requires bits <= 32
  {
    PowersGrow(32 - bits, 32);
    if bits == 0 then 0 else Pow2(32) - 1 - (Pow2(32 - bits) - 1)
  }

  function ParseCidr(cidr: string): Result<Cidr, Error> {
    var parts := Split(cidr, '/');
    if |parts| != 2 || !IsShortNumber(parts[1], 2) || Value(parts[1]) > 32 then Err(BadCidr)
    else
      var mask := MaskOf(Value(parts[1]));
      var address := ParseIpv4(parts[0]);
      if address.Ok? then Ok(Cidr(And(address.value, mask), mask)) else Err(address.error)
  }

  function InternetEgressRoute(gateway: string, networkCidr: string): Result<Route, Error> {
    var address := ParseIpv4(gateway);
    if address.Err? then Err(address.error)
    else
      var network := ParseCidr(networkCidr);
      if network.Err? then Err(network.error)
      else if gateway == PUBLIC_INTERFACE_GATEWAY then Err(PublicGateway)
      else if And(address.value, network.value.mask) != network.value.base then Err(OutsideRange)
      else if address.value == network.value.base || address.value == network.value.base + 1 then Err(Reserved)
      else Ok(Route(INTERNET_DESTINATION, gateway))
  }

  // ---- The mask ----

  lemma {:induction false} PowersGrow(a: nat, b: nat)
    requires a <= b
    ensures Pow2(a) <= Pow2(b)
  {
    if a < b {
      PowersGrow(a, b - 1);
    }
  }

  lemma {:induction false} AndWithOnes(a: nat, n: nat)
    requires a < Pow2(n)
    ensures And(a, Pow2(n) - 1) == a
  {
    if n > 0 {
      AndWithOnes(a / 2, n - 1);
      assert (Pow2(n) - 1) / 2 == Pow2(n - 1) - 1;
    }
  }

  lemma AndOfEven(a: nat, m: nat)
    ensures And(a, 2 * m) == 2 * And(a / 2, m)
  {
    assert (2 * m) / 2 == m && (2 * m) % 2 == 0;
  }

  /** Masking off the low `k` of `n` bits rounds down to a multiple of 2^k. */
  lemma {:induction false} MaskRoundsDown(a: nat, n: nat, k: nat)
    requires k <= n && a < Pow2(n)
    ensures Pow2(k) <= Pow2(n) && And(a, Pow2(n) - Pow2(k)) == a - a % Pow2(k)
  {
    hide And;
    PowersGrow(k, n);
    if k == 0 {
      AndWithOnes(a, n);
    } else {
      var whole, part := Pow2(n - 1), Pow2(k - 1);
      assert Pow2(n) == 2 * whole && Pow2(k) == 2 * part;
      MaskRoundsDown(a / 2, n - 1, k - 1);
      AndOfEven(a, whole - part);
      HalvesRemainder(a, part);
    }
  }

  lemma HalvesRemainder(a: nat, p: nat)
    requires p >= 1
    ensures a % (2 * p) == 2 * ((a / 2) % p) + a % 2
  {
    var q, r := (a / 2) / p, (a / 2) % p;
    assert a / 2 == q * p + r;
    assert a == q * (2 * p) + (2 * r + a % 2) by {
      assert a == 2 * (a / 2) + a % 2;
      assert 2 * (q * p) == q * (2 * p);
    }
    RemainderIs(a, 2 * p, q, 2 * r + a % 2);
  }

  lemma RemainderIs(a: nat, d: nat, q: nat, r: nat)
    requires d > 0 && r < d && a == q * d + r
    ensures a % d == r && a / d == q
  {
    var e := a / d;
    assert (q - e) * d == a % d - r by {
      assert a == e * d + a % d;
      assert (q - e) * d == q * d - e * d;
    }
    MultipleIsLarge(q - e, d);
  }

  lemma MultipleIsLarge(m: int, d: int)
    requires d > 0
    ensures m >= 1 ==> m * d >= d
    ensures m <= -1 ==> m * d <= -d
  {
    assert m >= 1 ==> (m - 1) * d >= 0;
    assert m <= -1 ==> (-m - 1) * d >= 0;
  }

  /** The start of the range an address lies in. */
  function RangeStart(address: nat, bits: nat): nat
    requires bits <= 32
  {
    address - address % Pow2(32 - bits)
  }

  /** Being in the range is an interval: the masked address is the range's start exactly when the address lies above it by less than its size. */
  lemma MaskIsInterval(address: nat, other: nat, bits: nat)
    requires bits <= 32 && address < Pow2(32) && other < Pow2(32)
    ensures And(address, MaskOf(bits)) == RangeStart(address, bits)
    ensures And(address, MaskOf(bits)) == RangeStart(other, bits) <==>
            RangeStart(other, bits) <= address < RangeStart(other, bits) + Pow2(32 - bits)
  {
    hide And, Pow2;
    var size := Pow2(32 - bits);
    MaskRoundsDown(address, 32, 32 - bits);
    assert bits == 0 ==> size == Pow2(32);
    assert MaskOf(bits) == Pow2(32) - size;
    SameMultiple(address, other, size);
  }

  lemma SameMultiple(a: nat, b: nat, d: nat)
    requires d > 0
    ensures a - a % d == b - b % d <==> b - b % d <= a < b - b % d + d
  {
    var start := b - b % d;
    assert start == (b / d) * d;
    if start <= a < start + d {
      RemainderIs(a, d, b / d, a - start);
    }
  }

  // ---- Address texts ----

  function Print(address: nat): string {
    Join([Dec(address / 16777216), Dec(address / 65536 % 256), Dec(address / 256 % 256), Dec(address % 256)], '.')
  }

  lemma DigitsAreNoSeparator(s: string)
    requires AllDigits(s)
    ensures '.' !in s && '/' !in s
  {
  }

  lemma OctetText(n: nat)
    requires n <= 255
    ensures IsOctet(Dec(n)) && Value(Dec(n)) == n && '.' !in Dec(n) && '/' !in Dec(n)
  {
    DecRoundTrip(n);
    DigitsAreNoSeparator(Dec(n));
    if n >= 10 {
      DecRoundTrip(n / 10);
      assert Dec(n)[0] == Dec(n / 10)[0];
      if n < 100 {
        assert |Dec(n)| == 2;
      } else {
        assert |Dec(n / 10)| == 2;
      }
    }
  }

  lemma FoldOfFour(a: string, b: string, c: string, d: string)
    requires IsOctet(a) && IsOctet(b) && IsOctet(c) && IsOctet(d)
    ensures FoldOctets([a, b, c, d], 0) == Ok(((Value(a) * 256 + Value(b)) * 256 + Value(c)) * 256 + Value(d))
  {
    hide FoldOctets, Value;
    FoldStep(a, [b, c, d], 0);
    FoldStep(b, [c, d], Value(a));
    FoldStep(c, [d], Value(a) * 256 + Value(b));
    FoldStep(d, [], (Value(a) * 256 + Value(b)) * 256 + Value(c));
    assert [a] + [b, c, d] == [a, b, c, d] && [b] + [c, d] == [b, c, d] && [c] + [d] == [c, d] && [d] + [] == [d];
  }

  lemma FoldStep(first: string, rest: seq<string>, accumulator: nat)
    requires IsOctet(first)
    ensures FoldOctets([first] + rest, accumulator) == FoldOctets(rest, accumulator * 256 + Value(first))
    ensures FoldOctets([], accumulator) == Ok(accumulator)
    ensures rest == [] ==> FoldOctets([first] + rest, accumulator) == Ok(accumulator * 256 + Value(first))
  {
    assert ([first] + rest)[1..] == rest;
  }

  /** Printing then parsing gives the address back. */
  lemma ParseInvertsPrint(address: nat)
    requires address < 4294967296
    ensures ParseIpv4(Print(address)) == Ok(address)
  {
    var a, b, c, d := address / 16777216, address / 65536 % 256, address / 256 % 256, address % 256;
    OctetText(a);
    OctetText(b);
    OctetText(c);
    OctetText(d);
    var octets := [Dec(a), Dec(b), Dec(c), Dec(d)];
    assert forall k :: 0 <= k < |octets| ==> '.' !in octets[k];
    SplitJoin(octets, '.');
    FoldOfFour(Dec(a), Dec(b), Dec(c), Dec(d));
    OctetsOfAddress(address);
  }

  lemma OctetsOfAddress(address: nat)
    ensures ((address / 16777216 * 256 + address / 65536 % 256) * 256 + address / 256 % 256) * 256 + address % 256 == address
  {
  }

  /** Parsing then printing gives the text back, so no two texts are the same address. */
  lemma PrintInvertsParse(text: string)
    requires ParseIpv4(text).Ok?
    ensures ParseIpv4(text).value < 4294967296 && Print(ParseIpv4(text).value) == text
  {
    hide FoldOctets, Dec, Value;
    var octets := Split(text, '.');
    FoldNeedsOctets(octets, 0);
    var a, b, c, d := octets[0], octets[1], octets[2], octets[3];
    assert octets == [a, b, c, d];
    FoldOfFour(a, b, c, d);
    ValueRoundTrip(a);
    ValueRoundTrip(b);
    ValueRoundTrip(c);
    ValueRoundTrip(d);
    AddressOfOctets(Value(a), Value(b), Value(c), Value(d));
    JoinSplit(text, '.');
  }

  lemma {:induction false} FoldNeedsOctets(octets: seq<string>, accumulator: nat)
    requires FoldOctets(octets, accumulator).Ok?
    ensures forall k :: 0 <= k < |octets| ==> IsOctet(octets[k])
  {
    if octets != [] {
      FoldNeedsOctets(octets[1..], accumulator * 256 + Value(octets[0]));
    }
  }

  lemma AddressOfOctets(a: nat, b: nat, c: nat, d: nat)
    requires a <= 255 && b <= 255 && c <= 255 && d <= 255
    ensures var n := ((a * 256 + b) * 256 + c) * 256 + d;
            n < 4294967296 && n / 16777216 == a && n / 65536 % 256 == b && n / 256 % 256 == c && n % 256 == d
  {
  }

  lemma ParseIsInjective(one: string, other: string)
    requires ParseIpv4(one).Ok? && ParseIpv4(one) == ParseIpv4(other)
    ensures one == other
  {
    PrintInvertsParse(one);
    PrintInvertsParse(other);
  }

  /** The text of a range: an address, a slash and a prefix length. */
  function PrintCidr(address: nat, bits: nat): string {
    Print(address) + "/" + Dec(bits)
  }

  lemma PrintHasNoSlash(address: nat)
    requires address < 4294967296
    ensures '/' !in Print(address)
  {
    hide Dec;
    OctetText(address / 16777216);
    OctetText(address / 65536 % 256);
    OctetText(address / 256 % 256);
    OctetText(address % 256);
    var octets := [Dec(address / 16777216), Dec(address / 65536 % 256), Dec(address / 256 % 256), Dec(address % 256)];
    assert forall k :: 0 <= k < |octets| ==> '/' !in octets[k];
    JoinHolds(octets, '.', '/');
  }

  lemma {:induction false} JoinHolds(parts: seq<string>, sep: char, c: char)
    requires |parts| >= 1 && c != sep && forall k :: 0 <= k < |parts| ==> c !in parts[k]
    ensures c !in Join(parts, sep)
  {
    if |parts| > 1 {
      JoinHolds(parts[1..], sep, c);
    }
  }

  lemma CidrOfPrinted(address: nat, bits: nat)
    requires address < 4294967296 && bits <= 32
    ensures ParseCidr(PrintCidr(address, bits)) == Ok(Cidr(And(address, MaskOf(bits)), MaskOf(bits)))
  {
    hide Print, And, ParseIpv4, MaskOf;
    OctetText(bits);
    PrintHasNoSlash(address);
    var parts := [Print(address), Dec(bits)];
    assert forall k :: 0 <= k < |parts| ==> '/' !in parts[k];
    SplitJoin(parts, '/');
    assert Join(parts, '/') == PrintCidr(address, bits);
    assert |Dec(bits)| <= 2;
    ParseInvertsPrint(address);
  }

  lemma ParsedCidrIsPrinted(cidr: string) returns (address: nat, bits: nat)
    requires ParseCidr(cidr).Ok?
    ensures address < 4294967296 && bits <= 32 && cidr == PrintCidr(address, bits)
  {
    hide Print, And, ParseIpv4, MaskOf;
    var parts := Split(cidr, '/');
    address, bits := ParseIpv4(parts[0]).value, Value(parts[1]);
    PrintInvertsParse(parts[0]);
    ValueRoundTrip(parts[1]);
    JoinSplit(cidr, '/');
    assert parts[1..] == [parts[1]];
  }

  lemma ThirtyTwoBits()
    ensures Pow2(32) == 4294967296
  {
    assert Pow2(8) == 256;
    assert Pow2(16) == 65536;
    assert Pow2(24) == 16777216;
  }

  /** Whether an address lies in a range and is neither of its first two addresses. */
  predicate IsUsable(address: nat, network: nat, bits: nat)
    requires bits <= 32
  {
    RangeStart(network, bits) + 2 <= address < RangeStart(network, bits) + Pow2(32 - bits)
  }

  /** What each address comes to, for each range: the route, or the reason it is refused. */
  lemma RouteOfPrinted(address: nat, network: nat, bits: nat)
    requires address < 4294967296 && network < 4294967296 && bits <= 32
    ensures InternetEgressRoute(Print(address), PrintCidr(network, bits)) ==
            if Print(address) == "172.31.1.1" then Err(PublicGateway)
            else if IsUsable(address, network, bits) then Ok(Route("0.0.0.0/0", Print(address)))
            else if RangeStart(network, bits) <= address < RangeStart(network, bits) + Pow2(32 - bits) then Err(Reserved)
            else Err(OutsideRange)
  {
    hide Print, And, ParseIpv4, MaskOf, PrintCidr, ParseCidr, Pow2, RangeStart;
    ParseInvertsPrint(address);
    CidrOfPrinted(network, bits);
    ThirtyTwoBits();
    MaskIsInterval(address, network, bits);
    MaskIsInterval(network, network, bits);
  }

  /**
   The gateway check is an interval: the route is made exactly for the texts of an address and of a range such that the
   address is at least the range's start plus two and below its end, except for the one public gateway.
   */
  lemma RouteIsExact(gateway: string, networkCidr: string)
    ensures InternetEgressRoute(gateway, networkCidr).Ok? <==>
            exists address: nat, network: nat, bits: nat ::
              address < 4294967296 && network < 4294967296 && bits <= 32 &&
              gateway == Print(address) && networkCidr == PrintCidr(network, bits) &&
              gateway != PUBLIC_INTERFACE_GATEWAY && IsUsable(address, network, bits)
    ensures InternetEgressRoute(gateway, networkCidr).Ok? ==>
              InternetEgressRoute(gateway, networkCidr).value == Route(INTERNET_DESTINATION, gateway)
  {
    hide Print, And, ParseIpv4, ParseCidr, PrintCidr, IsUsable;
    if InternetEgressRoute(gateway, networkCidr).Ok? {
      PrintInvertsParse(gateway);
      var address := ParseIpv4(gateway).value;
      var network, bits := ParsedCidrIsPrinted(networkCidr);
      RouteOfPrinted(address, network, bits);
    }
    if address: nat, network: nat, bits: nat :|
      address < 4294967296 && network < 4294967296 && bits <= 32 &&
      gateway == Print(address) && networkCidr == PrintCidr(network, bits) &&
      gateway != PUBLIC_INTERFACE_GATEWAY && IsUsable(address, network, bits) {
      RouteOfPrinted(address, network, bits);
    }
  }

  /** The text of an address, written in the one way it may be. */
  ghost predicate IsAddress(text: string) {
    exists address: nat :: address < 4294967296 && text == Print(address)
  }

  /** The text of a range whose address part is `front`, well written or not. */
  ghost predicate IsRangeOf(cidr: string, front: string) {
    '/' !in front && exists bits: nat :: bits <= 32 && cidr == Join([front, Dec(bits)], '/')
  }

  lemma AddressIsExact(text: string)
    ensures ParseIpv4(text).Ok? <==> IsAddress(text)
    ensures ParseIpv4(text).Err? ==> ParseIpv4(text).error == BadAddress
  {
    FoldFaults(Split(text, '.'), 0);
    hide Print, FoldOctets;
    if ParseIpv4(text).Ok? {
      PrintInvertsParse(text);
    }
    if address: nat :| address < 4294967296 && text == Print(address) {
      ParseInvertsPrint(address);
    }
  }

  lemma {:induction false} FoldFaults(octets: seq<string>, accumulator: nat)
    ensures FoldOctets(octets, accumulator).Err? ==> FoldOctets(octets, accumulator).error == BadAddress
  {
    if octets != [] && IsOctet(octets[0]) {
      FoldFaults(octets[1..], accumulator * 256 + Value(octets[0]));
    }
  }

  lemma RangeIsExact(cidr: string, front: string)
    ensures IsRangeOf(cidr, front) ==> ParseCidr(cidr) != Err(BadCidr) && (ParseCidr(cidr) == Err(BadAddress) <==> !IsAddress(front))
    ensures ParseCidr(cidr) != Err(BadCidr) ==> IsRangeOf(cidr, Split(cidr, '/')[0])
  {
    hide ParseIpv4, And, MaskOf, IsAddress, Split, Join, IsShortNumber, Value;
    AddressIsExact(Split(cidr, '/')[0]);
    if bits: nat :| '/' !in front && bits <= 32 && cidr == Join([front, Dec(bits)], '/') {
      PartsOfRange(front, bits);
    }
    if ParseCidr(cidr) != Err(BadCidr) {
      PrefixIsWritten(Split(cidr, '/'), cidr);
    }
  }

  lemma PartsOfRange(front: string, bits: nat)
    requires '/' !in front && bits <= 32
    ensures var parts := Split(Join([front, Dec(bits)], '/'), '/');
            parts == [front, Dec(bits)] && IsShortNumber(parts[1], 2) && Value(parts[1]) == bits
  {
    OctetText(bits);
    var parts := [front, Dec(bits)];
    assert forall k :: 0 <= k < |parts| ==> '/' !in parts[k];
    SplitJoin(parts, '/');
    assert |Dec(bits)| <= 2;
  }

  lemma PrefixIsWritten(parts: seq<string>, cidr: string)
    requires parts == Split(cidr, '/') && |parts| == 2 && IsShortNumber(parts[1], 2) && Value(parts[1]) <= 32
    ensures IsRangeOf(cidr, parts[0])
  {
    ValueRoundTrip(parts[1]);
    JoinSplit(cidr, '/');
    assert parts == [parts[0], parts[1]];
  }

  lemma RefusedByText(gateway: string, networkCidr: string)
    requires ParseIpv4(gateway).Err? ==> ParseIpv4(gateway).error == BadAddress
    requires ParseCidr(networkCidr).Err? ==> ParseCidr(networkCidr).error == BadCidr || ParseCidr(networkCidr).error == BadAddress
    ensures InternetEgressRoute(gateway, networkCidr) == Err(BadCidr) <==> ParseIpv4(gateway).Ok? && ParseCidr(networkCidr) == Err(BadCidr)
    ensures InternetEgressRoute(gateway, networkCidr) == Err(BadAddress) <==> ParseIpv4(gateway).Err? || ParseCidr(networkCidr) == Err(BadAddress)
  {
    hide ParseIpv4, ParseCidr, And;
  }

  lemma RangeFaults(cidr: string)
    ensures ParseCidr(cidr).Err? ==> ParseCidr(cidr).error == BadCidr || ParseCidr(cidr).error == BadAddress
  {
    AddressIsExact(Split(cidr, '/')[0]);
    hide ParseIpv4, And, MaskOf;
  }

  /** A text that is no address, the gateway's or the range's, is told from a text that is no range. */
  lemma TextRefusals(gateway: string, networkCidr: string)
    ensures InternetEgressRoute(gateway, networkCidr) == Err(BadCidr) <==>
            IsAddress(gateway) && forall front :: !IsRangeOf(networkCidr, front)
    ensures InternetEgressRoute(gateway, networkCidr) == Err(BadAddress) <==>
            !IsAddress(gateway) || exists front :: IsRangeOf(networkCidr, front) && !IsAddress(front)
  {
    hide InternetEgressRoute, ParseIpv4, ParseCidr, IsAddress, IsRangeOf, Split;
    AddressIsExact(gateway);
    RangeFaults(networkCidr);
    RefusedByText(gateway, networkCidr);
    RangeIsExact(networkCidr, Split(networkCidr, '/')[0]);
    forall front | IsRangeOf(networkCidr, front)
      ensures ParseCidr(networkCidr) != Err(BadCidr) && (ParseCidr(networkCidr) == Err(BadAddress) <==> !IsAddress(front))
    {
      RangeIsExact(networkCidr, front);
    }
  }
}
