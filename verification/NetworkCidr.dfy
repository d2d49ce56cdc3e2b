/** The smallest network of /24 down to /16 that contains all machine addresses. */
module NetworkCidr {
  import opened Arithmetic

  type Byte = x: int | 0 <= x < 256

  datatype IPv4 = IPv4(a: Byte, b: Byte, c: Byte, d: Byte)

  /** How one address string parses. */
  datatype Parsed = Invalid | NotV4 | V4(ip: IPv4)

  datatype Cidr = Cidr(network: nat, len: nat)

  datatype Outcome = Found(cidr: Cidr) | NoAddresses | BadAddress(index: nat) | NoNetwork

  function Value(ip: IPv4): nat {
    ((ip.a * 256 + ip.b) * 256 + ip.c) * 256 + ip.d
  }

  function Quotient(x: nat, m: nat): nat
    requires m > 0
  {
    x / m
  }

  /** The first p bits of an address. */
  function Prefix(x: nat, p: nat): nat
    requires p <= 32
  {
    Quotient(x, Pow2(32 - p))
  }

  /** Bit i of an address, counted from its front. */
  function Bit(x: nat, i: nat): nat
    requires i < 32
  {
    Prefix(x, i + 1) % 2
  }

  /** The address with all bits after the first p cleared. */
  function Mask(x: nat, p: nat): nat
    requires p <= 32
  {
    Prefix(x, p) * Pow2(32 - p)
  }

  predicate SameBits(x: nat, y: nat, p: nat)
    requires p <= 32
  {
    forall i :: 0 <= i < p ==> Bit(x, i) == Bit(y, i)
  }

  predicate AllAgree(xs: set<nat>, p: nat)
    requires p <= 32
  {
    forall x <- xs, y <- xs :: SameBits(x, y, p)
  }

  // ----- Prefixes are leading bits

  lemma DivDouble(x: nat, m: nat)
    requires m > 0
    ensures x / (2 * m) == (x / m) / 2
  {
    var q := x / m;
    assert x == q * m + x % m;
    assert q == 2 * (q / 2) + q % 2;
    assert x == (q / 2) * (2 * m) + ((q % 2) * m + x % m) by {
      assert q * m == (2 * (q / 2) + q % 2) * m == (q / 2) * (2 * m) + (q % 2) * m;
    }
    assert (q % 2) * m <= m;
    DivUnique(x, 2 * m, q / 2, (q % 2) * m + x % m);
  }

  lemma DivUnique(x: nat, m: nat, q: nat, r: nat)
    requires m > 0 && x == q * m + r && r < m
    ensures x / m == q
  {
    var d := x / m;
    assert x == d * m + x % m;
    assert d < q ==> (d + 1) * m <= q * m;
    assert d > q ==> (q + 1) * m <= d * m;
  }

  lemma PrefixStep(x: nat, p: nat)
    requires 0 < p <= 32
    ensures Prefix(x, p - 1) == Prefix(x, p) / 2
    ensures Prefix(x, p) == 2 * Prefix(x, p - 1) + Bit(x, p - 1)
  {
    DivDouble(x, Pow2(32 - p));
  }

  lemma PrefixOfNothing(x: nat)
    requires x < 0x1_0000_0000
    ensures Prefix(x, 0) == 0
  {
    assert Pow2(32) == 65536 * Pow2(16) by {
      assert Pow2(16) == 65536 by { assert Pow2(8) == 256; }
      Pow2Sum(16, 16);
    }
    assert Pow2(16) == 65536 by { assert Pow2(8) == 256; }
  }

  /** Two addresses lie in the same network of length p exactly when their first p bits agree. */
  lemma {:induction false} SamePrefixIsSameBits(x: nat, y: nat, p: nat)
    requires p <= 32 && x < 0x1_0000_0000 && y < 0x1_0000_0000
    ensures Prefix(x, p) == Prefix(y, p) <==> SameBits(x, y, p)
  {
    if p == 0 {
      PrefixOfNothing(x);
      PrefixOfNothing(y);
    } else {
      SamePrefixIsSameBits(x, y, p - 1);
      PrefixStep(x, p);
      PrefixStep(y, p);
      assert SameBits(x, y, p) <==> SameBits(x, y, p - 1) && Bit(x, p - 1) == Bit(y, p - 1);
    }
  }

  lemma {:induction false} PrefixIgnoresLastOctet(ip: IPv4, p: nat)
    requires p <= 24
    ensures Prefix(Value(ip.(d := 0)), p) == Prefix(Value(ip), p)
    decreases 24 - p
  {
    if p == 24 {
      assert Pow2(8) == 256;
    } else {
      PrefixIgnoresLastOctet(ip, p + 1);
      PrefixStep(Value(ip), p + 1);
      PrefixStep(Value(ip.(d := 0)), p + 1);
    }
  }

  lemma MaskKeepsPrefix(x: nat, p: nat)
    requires p <= 32
    ensures Prefix(Mask(x, p), p) == Prefix(x, p)
  {
    DivUnique(Mask(x, p), Pow2(32 - p), Prefix(x, p), 0);
  }

  // ----- Octets

  lemma PrefixIsOctets(ip: IPv4)
    ensures Prefix(Value(ip), 24) == (ip.a * 256 + ip.b) * 256 + ip.c
    ensures Prefix(Value(ip), 16) == ip.a * 256 + ip.b
    ensures Value(ip) < 0x1_0000_0000
  {
    assert Pow2(8) == 256;
    Pow2Sum(8, 8);
    DivUnique(Value(ip), 256, (ip.a * 256 + ip.b) * 256 + ip.c, ip.d);
    DivUnique(Value(ip), 65536, ip.a * 256 + ip.b, ip.c * 256 + ip.d);
  }

  /** Sixteen bits agree exactly when the first two octets do, twenty-four when the first three do. */
  lemma OctetsAreBits(x: IPv4, y: IPv4)
    ensures SameBits(Value(x), Value(y), 16) <==> x.a == y.a && x.b == y.b
    ensures SameBits(Value(x), Value(y), 24) <==> x.a == y.a && x.b == y.b && x.c == y.c
  {
    PrefixIsOctets(x);
    PrefixIsOctets(y);
    SamePrefixIsSameBits(Value(x), Value(y), 16);
    SamePrefixIsSameBits(Value(x), Value(y), 24);
  }

  // ----- The search

  function Addresses(vmIPs: seq<Parsed>): set<nat> {
    set v <- vmIPs | v.V4? :: Value(v.ip)
  }

  predicate AllV4(vmIPs: seq<Parsed>) {
    forall i :: 0 <= i < |vmIPs| ==> vmIPs[i].V4?
  }

  /** The network contains every address and is the longest in 16..24 that does. */
  predicate Answers(xs: set<nat>, c: Cidr) {
    && 16 <= c.len <= 24
    && (forall x <- xs :: Mask(x, c.len) == c.network)
    && AllAgree(xs, c.len)
    && (forall p :: c.len < p <= 24 ==> !AllAgree(xs, p))
  }

  /** Which addresses there are decides the answer; their order and repetition do not. */
  lemma AnswerIsUnique(xs: set<nat>, c: Cidr, c': Cidr)
    requires xs != {} && Answers(xs, c) && Answers(xs, c')
    ensures c == c'
  {
    var x :| x in xs;
    assert c.len == c'.len;
    assert Mask(x, c.len) == c.network;
  }

  method Contains(network: nat, p: nat, ips: seq<IPv4>) returns (all: bool)
    requires p <= 32
    ensures all <==> forall i :: 0 <= i < |ips| ==> Prefix(Value(ips[i]), p) == Prefix(network, p)
  {
    for i := 0 to |ips|
      invariant forall j :: 0 <= j < i ==> Prefix(Value(ips[j]), p) == Prefix(network, p)
    {
      if Prefix(Value(ips[i]), p) != Prefix(network, p) {
        return false;
      }
    }
    return true;
  }

  function ValuesOf(ips: seq<IPv4>): set<nat> {
    set ip <- ips :: Value(ip)
  }

  /** Comparing with the first address compares all pairs. */
  lemma ContainsIsAgreement(ips: seq<IPv4>, p: nat)
    requires ips != [] && 16 <= p <= 24
    ensures (forall i :: 0 <= i < |ips| ==>
               Prefix(Value(ips[i]), p) == Prefix(Mask(Value(ips[0].(d := 0)), p), p)) <==> AllAgree(ValuesOf(ips), p)
    ensures AllAgree(ValuesOf(ips), p) ==>
              forall x <- ValuesOf(ips) :: Mask(x, p) == Mask(Value(ips[0].(d := 0)), p)
  {
    var x0, net := Value(ips[0]), Mask(Value(ips[0].(d := 0)), p);
    MaskKeepsPrefix(Value(ips[0].(d := 0)), p);
    PrefixIgnoresLastOctet(ips[0], p);
    assert Prefix(net, p) == Prefix(x0, p);
    assert ips[0] in ips && x0 in ValuesOf(ips);
    if AllAgree(ValuesOf(ips), p) {
      forall i | 0 <= i < |ips| ensures Prefix(Value(ips[i]), p) == Prefix(x0, p) {
        assert ips[i] in ips && SameBits(Value(ips[i]), x0, p);
        SamePrefixIsSameBits(Value(ips[i]), x0, p);
      }
    }
    if forall i :: 0 <= i < |ips| ==> Prefix(Value(ips[i]), p) == Prefix(net, p) {
      forall x <- ValuesOf(ips), y <- ValuesOf(ips) ensures SameBits(x, y, p) {
        var a, b :| a in ips && Value(a) == x && b in ips && Value(b) == y;
        SamePrefixIsSameBits(x, y, p);
      }
    }
  }

  lemma FewerBitsAgree(xs: set<nat>, p: nat, q: nat)
    requires p <= q <= 32 && AllAgree(xs, q)
    ensures AllAgree(xs, p)
  {
    forall x <- xs, y <- xs ensures SameBits(x, y, p) { assert SameBits(x, y, q); }
  }

  /** The loop over prefix lengths, from 24 down to 16. */
  method Search(ips: seq<IPv4>) returns (r: Outcome)
    requires ips != []
    ensures r.Found? || r.NoNetwork?
    ensures r.Found? <==> AllAgree(ValuesOf(ips), 16)
    ensures r.Found? ==> Answers(ValuesOf(ips), r.cidr)
  {
    var firstIP := ips[0].(d := 0);
    var prefixLen := 24;
    while prefixLen >= 16
      invariant 15 <= prefixLen <= 24
      invariant forall p :: prefixLen < p <= 24 ==> !AllAgree(ValuesOf(ips), p)
    {
      var network := Mask(Value(firstIP), prefixLen);
      var all := Contains(network, prefixLen, ips);
      ContainsIsAgreement(ips, prefixLen);
      if all {
        FewerBitsAgree(ValuesOf(ips), 16, prefixLen);
        return Found(Cidr(network, prefixLen));
      }
      prefixLen := prefixLen - 1;
    }
    assert !AllAgree(ValuesOf(ips), 16);
    r := NoNetwork;
  }

  /** What a caller is promised about an outcome; the first bad address is named. */
  ghost predicate IsOutcome(vmIPs: seq<Parsed>, r: Outcome) {
    && (r.NoAddresses? <==> vmIPs == [])
    && (r.BadAddress? <==> !AllV4(vmIPs))
    && (r.BadAddress? ==> r.index < |vmIPs| && !vmIPs[r.index].V4? && AllV4(vmIPs[..r.index]))
    && (r.NoNetwork? <==> vmIPs != [] && AllV4(vmIPs) && !AllAgree(Addresses(vmIPs), 16))
    && (r.Found? ==> Answers(Addresses(vmIPs), r.cidr))
  }

  /** Lists of the same addresses, in any order and with any repetition, have the same outcome. */
  lemma OrderDoesNotMatter(vmIPs: seq<Parsed>, r: Outcome, others: seq<Parsed>, r': Outcome)
    requires forall v :: v in vmIPs <==> v in others
    requires IsOutcome(vmIPs, r) && IsOutcome(others, r')
    ensures r == r' || (r.BadAddress? && r'.BadAddress?)
  {
    assert vmIPs == [] <==> others == [] by {
      assert vmIPs != [] ==> vmIPs[0] in others;
      assert others != [] ==> others[0] in vmIPs;
    }
    assert AllV4(vmIPs) <==> AllV4(others) by {
      forall i | 0 <= i < |vmIPs| && !vmIPs[i].V4? ensures !AllV4(others) { assert vmIPs[i] in others; }
      forall i | 0 <= i < |others| && !others[i].V4? ensures !AllV4(vmIPs) { assert others[i] in vmIPs; }
    }
    assert Addresses(vmIPs) == Addresses(others);
    if r.Found? && r'.Found? {
      assert vmIPs[0] in vmIPs && Value(vmIPs[0].ip) in Addresses(vmIPs);
      AnswerIsUnique(Addresses(vmIPs), r.cidr, r'.cidr);
    }
  }

  /** On IPv4 addresses it fails exactly when two of them differ in their first 16 bits. */
  method CalculateNetworkCIDR(vmIPs: seq<Parsed>) returns (r: Outcome)
    ensures IsOutcome(vmIPs, r)
  {
    if |vmIPs| == 0 {
      return NoAddresses;
    }
    var parsedIPs: seq<IPv4> := [];
    for i := 0 to |vmIPs|
      invariant |parsedIPs| == i && AllV4(vmIPs[..i])
      invariant forall j :: 0 <= j < i ==> vmIPs[j] == V4(parsedIPs[j])
    {
      if !vmIPs[i].V4? {
        return BadAddress(i);
      }
      parsedIPs := parsedIPs + [vmIPs[i].ip];
    }
    assert ValuesOf(parsedIPs) == Addresses(vmIPs) by {
      forall x | x in ValuesOf(parsedIPs) ensures x in Addresses(vmIPs) {
        var i :| 0 <= i < |parsedIPs| && Value(parsedIPs[i]) == x;
        assert vmIPs[i] in vmIPs;
      }
      forall x | x in Addresses(vmIPs) ensures x in ValuesOf(parsedIPs) {
        var i :| 0 <= i < |vmIPs| && vmIPs[i].V4? && Value(vmIPs[i].ip) == x;
        assert parsedIPs[i] in parsedIPs;
      }
    }
    r := Search(parsedIPs);
  }
}
