/**
 * scanner.go: subnet expansion (`GetIPsFromSubnet` over `incrementIP`), the
 * per-host probe decision and aggregation of `ScanSubnet`, the TCP/UDP port
 * sweeps of `getOpenPorts`/`getOpenUDPPorts`, and the order `sort.Slice` is
 * given. Probes, reverse DNS and the MAC resolver's view of the OS are oracle
 * inputs; the goroutines, semaphore and mutex are replaced by one sequential pass.
 */
module NetScan {
  import opened Wrappers
  import opened Text
  import opened IPv4
  import opened ArpTable
  import Macaddr

  // ================================================================ subnets

  /** An IPv4 network in CIDR notation: an address and a prefix length. */
  datatype Cidr = Cidr(addr: seq<byte>, prefix: nat)

  predicate WellFormed(c: Cidr) {
    |c.addr| == 4 && c.prefix <= 32
  }

  datatype SubnetError = InvalidSubnet

  /**
   * The IPv4 case of `net.ParseCIDR`: an IPv4 address, a '/', and a decimal
   * prefix length of at most 32 (leading zeros allowed, as Go's `dtoi` allows them).
   */
  function ParseCidr(s: string): (r: Option<Cidr>)
    ensures r.Some? ==> WellFormed(r.value)
  {
    match IndexOf(s, '/')
    case None => None
    case Some(i) =>
      var mask := s[i + 1..];
      match ParseIPv4(s[..i])
      case None => None
      case Some(a) =>
        if mask != [] && AllDigits(mask) && DigitsValue(mask) <= 32
        then Some(Cidr(a, DigitsValue(mask)))
        else None
  }

  /** Splitting "a/m" at its first '/' gives back `a` and `m` when `a` has no '/'. */
  lemma SlashSplit(a: string, m: string)
    requires '/' !in a
    ensures var s := a + "/" + m;
      IndexOf(s, '/') == Some(|a|) && s[..|a|] == a && s[|a| + 1..] == m
  {
    var s := a + "/" + m;
    assert s[|a|] == '/';
  }

  /** Without a '/' there is no prefix length: `net.ParseCIDR` fails. */
  lemma ParseCidrNoSlash(s: string)
    requires '/' !in s
    ensures ParseCidr(s) == None
  {
  }

  /**
   * Every way "a/m" is rejected: `a` is not a dotted-quad IPv4 address, the
   * prefix length is empty, has a character that is not a decimal digit, or
   * exceeds 32.
   */
  lemma ParseCidrRejects(a: string, m: string)
    requires '/' !in a
    ensures ParseIPv4(a).None? ==> ParseCidr(a + "/" + m) == None
    ensures m == [] ==> ParseCidr(a + "/" + m) == None
    ensures !AllDigits(m) ==> ParseCidr(a + "/" + m) == None
    ensures AllDigits(m) && DigitsValue(m) > 32 ==> ParseCidr(a + "/" + m) == None
  {
    SlashSplit(a, m);
  }

  /** And otherwise "a/m" is accepted, with a's bytes and m's value. */
  lemma ParseCidrAccepts(a: string, m: string)
    requires '/' !in a && ParseIPv4(a).Some?
    requires m != [] && AllDigits(m) && DigitsValue(m) <= 32
    ensures ParseCidr(a + "/" + m) == Some(Cidr(ParseIPv4(a).value, DigitsValue(m)))
  {
    SlashSplit(a, m);
  }

  /** Every IPv4 block, written as `ip.String() + "/" + prefix`, parses back to itself. */
  lemma ParseFormatCidr(b: seq<byte>, p: nat)
    requires |b| == 4 && p <= 32
    ensures ParseCidr(FormatIPv4(b) + "/" + Decimal(p)) == Some(Cidr(b, p))
  {
    SlashFreeAddress(b);
    ParseFormatIPv4(b);
    ParseCidrAccepts(FormatIPv4(b), Decimal(p));
  }

  lemma SlashFreeAddress(b: seq<byte>)
    requires |b| == 4
    ensures '/' !in FormatIPv4(b)
  {
    forall n: nat ensures '/' !in Decimal(n) {
      assert AllDigits(Decimal(n));
    }
  }

  /** A concrete block parses: 192.168.1.0/30. */
  lemma ParseExampleBlock(s: string)
    requires s == "192.168.1.0/30"
    ensures ParseCidr(s) == Some(Cidr([192, 168, 1, 0], 30))
  {
    var b: seq<byte> := [192, 168, 1, 0];
    ExampleDigits(b);
    assert FormatIPv4(b) + "/" + Decimal(30) == s;
    ParseFormatCidr(b, 30);
  }

  lemma ExampleDigits(b: seq<byte>)
    requires b == [192, 168, 1, 0]
    ensures FormatIPv4(b) == "192.168.1.0" && Decimal(30) == "30"
  {
    DecimalOf(19, 9);
    DecimalOf(192, 2);
    DecimalOf(16, 6);
    DecimalOf(168, 8);
    DecimalOf(30, 0);
  }

  /** One digit step of `Decimal`, for numbers of at least two digits. */
  lemma DecimalOf(n: nat, d: nat)
    requires n >= 10 && d == n % 10
    ensures Decimal(n) == Decimal(n / 10) + [DigitChar(d)]
  {
  }

  function Pow2(n: nat): (p: nat)
    ensures p >= 1
  {
    if n == 0 then 1 else 2 * Pow2(n - 1)
  }

  lemma {:induction false} Pow2Add(a: nat, b: nat)
    ensures Pow2(a + b) == Pow2(a) * Pow2(b)
  {
    if a > 0 {
      Pow2Add(a - 1, b);
    }
  }

  lemma Pow2Of32()
    ensures Pow2(32) == Two32
  {
    assert Pow2(2) == 4;
    Pow2Add(2, 2);
    Pow2Add(4, 4);
    Pow2Add(8, 8);
    Pow2Add(16, 16);
  }

  /** The number of addresses in the network: 2^(32 - prefix). */
  function BlockSize(c: Cidr): (n: nat)
    requires WellFormed(c)
    ensures n >= 1
  {
    Pow2(32 - c.prefix)
  }

  /** `ipNet.IP.Mask(ipNet.Mask)`: the address with every host bit cleared. */
  function Base(c: Cidr): nat
    requires WellFormed(c)
  {
    DivBounds(ValueOf(c.addr), BlockSize(c));
    (ValueOf(c.addr) / BlockSize(c)) * BlockSize(c)
  }

  /** `ipNet.Contains`: the network bits of `v` equal those of the network. */
  predicate Contains(c: Cidr, v: nat)
    requires WellFormed(c)
  {
    v / BlockSize(c) == ValueOf(c.addr) / BlockSize(c)
  }

  lemma MulMonotone(a: int, b: int, m: nat)
    requires a <= b
    ensures a * m <= b * m
  {
  }

  lemma DivBounds(v: nat, b: nat)
    requires b > 0
    ensures 0 <= v / b && 0 <= (v / b) * b <= v < (v / b) * b + b
  {
    MulMonotone(0, v / b, b);
  }

  lemma DivUnique(v: nat, b: nat, q: int)
    requires b > 0 && q * b <= v < q * b + b
    ensures v / b == q
  {
    DivBounds(v, b);
    var w := v / b;
    if w < q {
      MulMonotone(w + 1, q, b);
    } else if w > q {
      MulMonotone(q + 1, w, b);
    }
  }

  /** A block of `b` addresses, `p` of which tile a space of `t`, holds `v < t` and fits inside it. */
  lemma TileFits(v: nat, b: nat, p: nat, t: nat)
    requires b > 0 && p > 0 && b * p == t && v < t
    ensures (v / b) * b <= v < (v / b) * b + b <= t
  {
    var q := v / b;
    DivBounds(v, b);
    if q >= p {
      MulMonotone(p, q, b);
      assert false;
    }
    MulMonotone(q + 1, p, b);
    assert (q + 1) * b == q * b + b;
  }

  lemma Pow2Split(prefix: nat)
    requires prefix <= 32
    ensures Pow2(32 - prefix) * Pow2(prefix) == Two32
    ensures prefix >= 1 ==> Pow2(prefix) >= 2
  {
    Pow2Add(32 - prefix, prefix);
    Pow2Of32();
  }

  /** The block lies inside the 32-bit address space and contains the given address. */
  lemma BlockFits(c: Cidr)
    requires WellFormed(c)
    ensures Base(c) <= ValueOf(c.addr) < Base(c) + BlockSize(c) <= Two32
    ensures c.prefix >= 1 ==> BlockSize(c) < Two32
  {
    var b, p := BlockSize(c), Pow2(c.prefix);
    Pow2Split(c.prefix);
    ValueBound(c.addr);
    Pow256Of4();
    TileFits(ValueOf(c.addr), b, p, Two32);
    if c.prefix >= 1 {
      MulMonotone(2, p, b);
    }
  }

  /** Membership is the interval [Base, Base + BlockSize). */
  lemma ContainsIffInBlock(c: Cidr, v: nat)
    requires WellFormed(c)
    ensures Contains(c, v) <==> Base(c) <= v < Base(c) + BlockSize(c)
  {
    var b, q := BlockSize(c), ValueOf(c.addr) / BlockSize(c);
    assert Base(c) == q * b;
    DivBounds(v, b);
    if q * b <= v < q * b + b {
      DivUnique(v, b, q);
    }
  }

  /** Every address of the network, in ascending order, as `IP.String` prints them. */
  function Addresses(c: Cidr): (r: seq<string>)
    requires WellFormed(c)
    ensures |r| == BlockSize(c)
  {
    BlockFits(c);
    seq(BlockSize(c), i requires 0 <= i < BlockSize(c) => FormatIPv4(FromValue(Base(c) + i)))
  }

  /** Drop the first (network) and last (broadcast) address when there are more than two. */
  function HostAddresses(c: Cidr): seq<string>
    requires WellFormed(c)
  {
    var all := Addresses(c);
    if |all| > 2 then all[1..|all| - 1] else all
  }

  /** The loop guard is exact: it holds for the k-th increment of the base iff k < BlockSize. */
  lemma GuardExact(c: Cidr, k: nat)
    requires WellFormed(c) && c.prefix >= 1 && k <= BlockSize(c)
    ensures Contains(c, (Base(c) + k) % Two32) <==> k < BlockSize(c)
  {
    BlockFits(c);
    if Base(c) + k < Two32 {
      ModBelow(Base(c) + k, Two32);
    } else {
      ModSelf(Two32);
    }
    ContainsIffInBlock(c, (Base(c) + k) % Two32);
  }

  /**
   * For a /0 network the loop of `GetIPsFromSubnet` never exits: every
   * four-byte address is contained, and so is its increment.
   */
  lemma ZeroPrefixNeverExits(c: Cidr, ip: seq<byte>)
    requires WellFormed(c) && c.prefix == 0 && |ip| == 4
    ensures Contains(c, ValueOf(ip)) && Contains(c, ValueOf(Increment(ip)))
  {
    Pow2Of32();
    Pow256Of4();
    ValueBound(ip);
    IncrementValue(ip);
    ValueBound(Increment(ip));
    BlockFits(c);
    ContainsIffInBlock(c, ValueOf(ip));
    ContainsIffInBlock(c, ValueOf(Increment(ip)));
  }

  /**
   * The number of addresses `GetIPsFromSubnet` returns: 2^(32-p) - 2 up to /30,
   * both addresses of a /31 and the single address of a /32.
   */
  lemma HostAddressCount(c: Cidr)
    requires WellFormed(c)
    ensures |HostAddresses(c)| == if c.prefix <= 30 then Pow2(32 - c.prefix) - 2 else Pow2(32 - c.prefix)
  {
    if c.prefix <= 30 {
      Pow2Add(2, 30 - c.prefix);
    }
  }

  /**
   * The i-th returned address is the network base plus i, plus one when the
   * network address was dropped; so the list is strictly ascending and excludes
   * the network and broadcast addresses of every block larger than two.
   */
  lemma HostAddressesAscending(c: Cidr, i: nat)
    requires WellFormed(c) && i < |HostAddresses(c)|
    ensures var off := if BlockSize(c) > 2 then 1 else 0;
      && Base(c) + off <= Base(c) + i + off <= Base(c) + BlockSize(c) - 1 - off
      && Base(c) + i + off < Two32
      && ParseIPv4(HostAddresses(c)[i]) == Some(FromValue(Base(c) + i + off))
  {
    BlockFits(c);
    var off := if BlockSize(c) > 2 then 1 else 0;
    assert HostAddresses(c)[i] == Addresses(c)[i + off];
    ParseFormatIPv4(FromValue(Base(c) + i + off));
  }

  /** The four bytes of the network address, where the walk starts. */
  function StartBytes(c: Cidr): (b: seq<byte>)
    requires WellFormed(c)
    ensures |b| == 4 && ValueOf(b) == (Base(c) + 0) % Two32
  {
    BlockFits(c);
    ModBelow(Base(c), Two32);
    FromValue(Base(c))
  }

  /** Inside the block no wrap-around happens: the walk's value is the base plus k. */
  lemma ValueAt(c: Cidr, k: nat, v: nat)
    requires WellFormed(c) && k < BlockSize(c) && v == (Base(c) + k) % Two32
    ensures Base(c) + k < Two32 && v == Base(c) + k
  {
    BlockFits(c);
    ModBelow(Base(c) + k, Two32);
  }

  lemma AddressesAt(c: Cidr, k: nat, ip: seq<byte>)
    requires WellFormed(c) && k < BlockSize(c) && |ip| == 4
    requires Base(c) + k < Two32 && FromValue(Base(c) + k) == ip
    ensures Addresses(c)[..k + 1] == Addresses(c)[..k] + [FormatIPv4(ip)]
  {
    BlockFits(c);
    var a := Addresses(c);
    assert a[k] == FormatIPv4(ip);
    assert a[..k + 1] == a[..k] + [a[k]];
  }

  lemma BytesAt(c: Cidr, k: nat, ip: seq<byte>)
    requires WellFormed(c) && k < BlockSize(c) && |ip| == 4
    requires ValueOf(ip) == (Base(c) + k) % Two32
    ensures Base(c) + k < Two32 && FromValue(Base(c) + k) == ip
  {
    ValueAt(c, k, ValueOf(ip));
    FromValueOf(ip);
  }

  /** The k-th address of the block, as the walk holds it in bytes. */
  lemma AddressAt(c: Cidr, k: nat, ip: seq<byte>)
    requires WellFormed(c) && k < BlockSize(c) && |ip| == 4
    requires ValueOf(ip) == (Base(c) + k) % Two32
    ensures Addresses(c)[..k + 1] == Addresses(c)[..k] + [FormatIPv4(ip)]
  {
    BytesAt(c, k, ip);
    AddressesAt(c, k, ip);
  }

  /** One step of the walk: incrementing the k-th address gives the (k+1)-th, modulo 2^32. */
  lemma NextValue(c: Cidr, k: nat, ip: seq<byte>)
    requires WellFormed(c) && k < BlockSize(c) && |ip| == 4
    requires ValueOf(ip) == (Base(c) + k) % Two32
    ensures ValueOf(Increment(ip)) == (Base(c) + (k + 1)) % Two32
  {
    ValueAt(c, k, ValueOf(ip));
    IncrementAddress(ip);
  }

  /** One pass of the walk's loop body: the guard held, so the address is the k-th, and its increment the next. */
  lemma WalkStep(c: Cidr, k: nat, ip: seq<byte>)
    requires WellFormed(c) && c.prefix >= 1 && k <= BlockSize(c) && |ip| == 4
    requires ValueOf(ip) == (Base(c) + k) % Two32 && Contains(c, ValueOf(ip))
    ensures k < BlockSize(c)
    ensures Addresses(c)[..k + 1] == Addresses(c)[..k] + [FormatIPv4(ip)]
    ensures ValueOf(Increment(ip)) == (Base(c) + (k + 1)) % Two32
  {
    GuardExact(c, k);
    AddressAt(c, k, ip);
    NextValue(c, k, ip);
  }

  /** The walk's loop exits exactly after the whole block. */
  lemma WalkDone(c: Cidr, k: nat, v: int)
    requires WellFormed(c) && c.prefix >= 1 && k <= BlockSize(c)
    requires v == (Base(c) + k) % Two32 && !Contains(c, v)
    ensures k == BlockSize(c)
  {
    GuardExact(c, k);
  }

  /**
   * The walk of `GetIPsFromSubnet`: start at the network address in a
   * four-byte buffer and increment it in place while the network contains it.
   */
  method WalkBlock(c: Cidr) returns (ips: seq<string>)
    requires WellFormed(c) && c.prefix >= 1
    ensures ips == Addresses(c)
  {
    var start := StartBytes(c);
    var ip := new byte[4];
    ip[0], ip[1], ip[2], ip[3] := start[0], start[1], start[2], start[3];
    assert ip[..] == start;
    ips := [];
    ghost var k: nat := 0;
    while Contains(c, ValueOf(ip[..]))
      invariant ip.Length == 4
      invariant k <= BlockSize(c)
      invariant ValueOf(ip[..]) == (Base(c) + k) % Two32
      invariant ips == Addresses(c)[..k]
      decreases BlockSize(c) - k
    {
      WalkStep(c, k, ip[..]);
      ips := ips + [FormatIPv4(ip[..])];
      IncrementIP(ip);
      k := k + 1;
    }
    WalkDone(c, k, ValueOf(ip[..]));
    assert ips == Addresses(c);
  }

  // ================================================================ port sweeps

  /** The TCP ports `getOpenPorts` dials, in its order. */
  const TcpPorts: seq<int> := [80, 443, 22, 21, 23, 25, 53, 135, 139, 445]

  /** The UDP ports `getOpenUDPPorts` probes, in its order. */
  const UdpPorts: seq<int> := [53, 67, 68, 69, 123, 137, 138, 161, 500, 514]

  /** The ports of `candidates`, in their order, that `open` holds. */
  function OpenAmong(candidates: seq<int>, open: set<int>): seq<int>
    decreases |candidates|
  {
    if candidates == [] then []
    else
      var last := candidates[|candidates| - 1];
      OpenAmong(candidates[..|candidates| - 1], open) + (if last in open then [last] else [])
  }

  /** `a` is `b` with some elements left out, the rest in their order. */
  predicate IsSubsequence(a: seq<int>, b: seq<int>)
    decreases |b|
  {
    if a == [] then true
    else if b == [] then false
    else if a[|a| - 1] == b[|b| - 1] then IsSubsequence(a[..|a| - 1], b[..|b| - 1])
    else IsSubsequence(a, b[..|b| - 1])
  }

  predicate Distinct(s: seq<int>) {
    forall i, j :: 0 <= i < j < |s| ==> s[i] != s[j]
  }

  /** A sweep reports exactly the candidates that are open. */
  lemma {:induction false} OpenAmongMembers(candidates: seq<int>, open: set<int>)
    ensures forall p :: p in OpenAmong(candidates, open) <==> p in candidates && p in open
    decreases |candidates|
  {
    if candidates != [] {
      var init := candidates[..|candidates| - 1];
      OpenAmongMembers(init, open);
      assert candidates == init + [candidates[|candidates| - 1]];
    }
  }

  /** A sweep keeps the candidates' order. */
  lemma {:induction false} OpenAmongOrder(candidates: seq<int>, open: set<int>)
    ensures IsSubsequence(OpenAmong(candidates, open), candidates)
    decreases |candidates|
  {
    if candidates != [] {
      var init, last := candidates[..|candidates| - 1], candidates[|candidates| - 1];
      OpenAmongOrder(init, open);
      var r0 := OpenAmong(init, open);
      var r := OpenAmong(candidates, open);
      assert candidates == init + [last];
      if last in open {
        assert r == r0 + [last];
        assert r[|r| - 1] == candidates[|candidates| - 1];
        assert r[..|r| - 1] == r0;
      } else {
        assert r == r0;
        SubsequenceExtend(r0, init, last);
      }
    }
  }

  /** A sweep of distinct candidates reports each open one once. */
  lemma {:induction false} OpenAmongDistinct(candidates: seq<int>, open: set<int>)
    requires Distinct(candidates)
    ensures Distinct(OpenAmong(candidates, open))
    decreases |candidates|
  {
    if candidates != [] {
      var init, last := candidates[..|candidates| - 1], candidates[|candidates| - 1];
      assert Distinct(init) by {
        forall i, j | 0 <= i < j < |init| ensures init[i] != init[j] {
          assert init[i] == candidates[i] && init[j] == candidates[j];
        }
      }
      OpenAmongDistinct(init, open);
      OpenAmongMembers(init, open);
      if last in open {
        var r0 := OpenAmong(init, open);
        assert last !in init by {
          forall i | 0 <= i < |init| ensures init[i] != last {
            assert init[i] == candidates[i];
          }
        }
        assert last !in r0;
      }
    }
  }

  lemma {:induction false} SubsequenceExtend(a: seq<int>, b: seq<int>, x: int)
    requires IsSubsequence(a, b)
    ensures IsSubsequence(a, b + [x])
    decreases |b|, 1
  {
    var bx := b + [x];
    assert bx[..|bx| - 1] == b;
    if a != [] && a[|a| - 1] == x {
      SubsequenceDrop(a, b);
    }
  }

  /** Dropping the last element of a subsequence keeps it a subsequence. */
  lemma {:induction false} SubsequenceDrop(a: seq<int>, b: seq<int>)
    requires a != [] && IsSubsequence(a, b)
    ensures IsSubsequence(a[..|a| - 1], b)
    decreases |b|, 0
  {
    var init := b[..|b| - 1];
    if a[|a| - 1] == b[|b| - 1] {
      if a[..|a| - 1] != [] {
        SubsequenceExtend(a[..|a| - 1], init, b[|b| - 1]);
        assert init + [b[|b| - 1]] == b;
      }
    } else {
      SubsequenceDrop(a, init);
      if a[..|a| - 1] != [] {
        SubsequenceExtend(a[..|a| - 1], init, b[|b| - 1]);
        assert init + [b[|b| - 1]] == b;
      }
    }
  }

  lemma PortListsDistinct()
    ensures Distinct(TcpPorts) && Distinct(UdpPorts)
    ensures forall p :: p in TcpPorts && p in UdpPorts <==> p == 53
  {
  }

  // ================================================================ one host

  /**
   * What the network answers about one address: whether it replies to an
   * ICMP echo, which TCP ports accept a connection, which UDP ports send a
   * reply to the probe, the reverse-DNS names (`None` on a lookup error), and
   * what the MAC resolver observes for it.
   */
  datatype HostOracle = HostOracle(
    icmpReply: bool,
    tcpAccepts: set<int>,
    udpReplies: set<int>,
    reverseNames: Option<seq<string>>,
    mac: MacProbe)

  /** The probes run for one host and what they found. */
  datatype Probe = Probe(icmp: bool, tcp: seq<int>, udp: seq<int>)

  /**
   * The probe decision of `ScanSubnet`'s per-host goroutine: TCP when enabled;
   * UDP when enabled and the host answered ICMP or had an open TCP port.
   */
  function ProbeHost(useTcp: bool, useUdp: bool, h: HostOracle): Probe {
    var tcp := if useTcp then OpenAmong(TcpPorts, h.tcpAccepts) else [];
    var udp := if useUdp && (h.icmpReply || |tcp| > 0) then OpenAmong(UdpPorts, h.udpReplies) else [];
    Probe(h.icmpReply, tcp, udp)
  }

  /** `OpenPorts`: the TCP hits followed by the UDP hits. */
  function OpenPorts(p: Probe): seq<int> {
    p.tcp + p.udp
  }

  predicate Reachable(p: Probe) {
    p.icmp || |OpenPorts(p)| > 0
  }

  /**
   * UDP never decides reachability: a host is reachable exactly when it
   * answered ICMP or some TCP port accepted; UDP is probed only then.
   */
  lemma ReachableIffIcmpOrTcp(useTcp: bool, useUdp: bool, h: HostOracle)
    ensures var p := ProbeHost(useTcp, useUdp, h);
      && (Reachable(p) <==> h.icmpReply || p.tcp != [])
      && (p.udp != [] ==> useUdp && (h.icmpReply || p.tcp != []))
      && (p.tcp != [] ==> useTcp)
  {
  }

  /**
   * The open ports are the open TCP ports of the fixed list, in list order,
   * then the replying UDP ports of theirs; port 53 open on both shows twice.
   */
  lemma OpenPortsOrder(useTcp: bool, useUdp: bool, h: HostOracle)
    ensures var p := ProbeHost(useTcp, useUdp, h);
      && (forall q :: q in p.tcp <==> useTcp && q in TcpPorts && q in h.tcpAccepts)
      && IsSubsequence(p.tcp, TcpPorts) && Distinct(p.tcp)
      && IsSubsequence(p.udp, UdpPorts) && Distinct(p.udp)
      && OpenPorts(p)[..|p.tcp|] == p.tcp
  {
    PortListsDistinct();
    OpenAmongMembers(TcpPorts, h.tcpAccepts);
    OpenAmongOrder(TcpPorts, h.tcpAccepts);
    OpenAmongOrder(UdpPorts, h.udpReplies);
    OpenAmongDistinct(TcpPorts, h.tcpAccepts);
    OpenAmongDistinct(UdpPorts, h.udpReplies);
  }

  lemma DnsPortTwice(h: HostOracle)
    requires h.icmpReply && 53 in h.tcpAccepts && 53 in h.udpReplies
    ensures multiset(OpenPorts(ProbeHost(true, true, h)))[53] == 2
  {
    var p := ProbeHost(true, true, h);
    PortListsDistinct();
    OpenAmongMembers(TcpPorts, h.tcpAccepts);
    OpenAmongMembers(UdpPorts, h.udpReplies);
    OpenAmongDistinct(TcpPorts, h.tcpAccepts);
    OpenAmongDistinct(UdpPorts, h.udpReplies);
    DistinctCount(p.tcp, 53);
    DistinctCount(p.udp, 53);
  }

  lemma {:induction false} DistinctCount(s: seq<int>, x: int)
    requires Distinct(s) && x in s
    ensures multiset(s)[x] == 1
  {
    var i :| 0 <= i < |s| && s[i] == x;
    assert s == s[..i] + [x] + s[i + 1..];
    assert x !in s[..i] && x !in s[i + 1..] by {
      forall j | 0 <= j < |s| && j != i ensures s[j] != x {
        if j < i { assert s[j] != s[i]; } else { assert s[i] != s[j]; }
      }
    }
  }

  /** `strings.TrimSuffix(name, ".")`. */
  function TrimDot(name: string): (r: string) {
    if name != [] && name[|name| - 1] == '.' then name[..|name| - 1] else name
  }

  /** The first reverse name without one trailing dot, or "" when the lookup failed or found none. */
  function Hostname(names: Option<seq<string>>): string {
    if names.Some? && |names.value| > 0 then TrimDot(names.value[0]) else ""
  }

  lemma HostnameSpec(names: Option<seq<string>>, n: string)
    ensures Hostname(None) == "" && Hostname(Some([])) == ""
    ensures names.Some? && names.value != [] && names.value[0] == n + "." ==> Hostname(names) == n
    ensures names.Some? && names.value != [] && (n == [] || n[|n| - 1] != '.') && names.value[0] == n ==> Hostname(names) == n
  {
    if names.Some? && names.value != [] && names.value[0] == n + "." {
      assert (n + ".")[..|n|] == n;
    }
  }

  /** `HostInfo` without the two durations. */
  datatype HostInfo = HostInfo(ip: string, mac: string, hostname: string, openPorts: seq<int>)

  /**
   * One goroutine of `ScanSubnet`, for the resolver state it finds: the host
   * record if reachable, and the resolver state it leaves. Only an ICMP-reachable
   * host is given to the MAC resolver and to reverse DNS.
   */
  function ScanHost(loader: Macaddr.Loader, st: ArpState, ip: string, h: HostOracle, useTcp: bool, useUdp: bool)
    : (Option<HostInfo>, ArpState)
  {
    var p := ProbeHost(useTcp, useUdp, h);
    if !Reachable(p) then (None, st)
    else if !p.icmp then (Some(HostInfo(ip, "", "", OpenPorts(p))), st)
    else
      var r := Macaddr.Resolve(loader, st, ip, h.mac);
      (Some(HostInfo(ip, r.mac, Hostname(h.reverseNames), OpenPorts(p))), r.after)
  }

  /** The sequential scan: hosts in input order, and the final resolver state. */
  function ScanAll(loader: Macaddr.Loader, st: ArpState, ips: seq<string>, net: string -> HostOracle, useTcp: bool, useUdp: bool)
    : (seq<HostInfo>, ArpState)
    decreases |ips|
  {
    if ips == [] then ([], st)
    else
      var (hosts, s1) := ScanAll(loader, st, ips[..|ips| - 1], net, useTcp, useUdp);
      var ip := ips[|ips| - 1];
      var (host, s2) := ScanHost(loader, s1, ip, net(ip), useTcp, useUdp);
      (if host.Some? then hosts + [host.value] else hosts, s2)
  }

  /** The reachable addresses of `ips`, in order: an independent statement of which hosts are kept. */
  function ReachableIps(ips: seq<string>, net: string -> HostOracle, useTcp: bool, useUdp: bool): seq<string>
    decreases |ips|
  {
    if ips == [] then []
    else
      var ip := ips[|ips| - 1];
      ReachableIps(ips[..|ips| - 1], net, useTcp, useUdp)
        + (if net(ip).icmpReply || (useTcp && OpenAmong(TcpPorts, net(ip).tcpAccepts) != []) then [ip] else [])
  }

  function IpsOf(hosts: seq<HostInfo>): (r: seq<string>)
    ensures |r| == |hosts| && forall i :: 0 <= i < |hosts| ==> r[i] == hosts[i].ip
  {
    seq(|hosts|, i requires 0 <= i < |hosts| => hosts[i].ip)
  }

  /** What every host record holds: its probe's ports; a MAC and a name only if it answered ICMP. */
  predicate HostMatches(host: HostInfo, net: string -> HostOracle, useTcp: bool, useUdp: bool) {
    var h := net(host.ip);
    && host.openPorts == OpenPorts(ProbeHost(useTcp, useUdp, h))
    && (h.icmpReply || host.openPorts != [])
    && host.hostname == (if h.icmpReply then Hostname(h.reverseNames) else "")
    && (!h.icmpReply ==> host.mac == "")
  }

  /** The scan keeps exactly the reachable addresses, in input order. */
  lemma {:induction false} ScanAllKeepsReachable(loader: Macaddr.Loader, st: ArpState, ips: seq<string>, net: string -> HostOracle, useTcp: bool, useUdp: bool)
    ensures IpsOf(ScanAll(loader, st, ips, net, useTcp, useUdp).0) == ReachableIps(ips, net, useTcp, useUdp)
    decreases |ips|
  {
    if ips != [] {
      var init, ip := ips[..|ips| - 1], ips[|ips| - 1];
      ScanAllKeepsReachable(loader, st, init, net, useTcp, useUdp);
      var (hosts, s1) := ScanAll(loader, st, init, net, useTcp, useUdp);
      ScanHostSpec(loader, s1, ip, net, useTcp, useUdp);
      var (host, s2) := ScanHost(loader, s1, ip, net(ip), useTcp, useUdp);
      if host.Some? {
        assert IpsOf(hosts + [host.value]) == IpsOf(hosts) + [ip];
      }
    }
  }

  /** Every record the scan returns matches its host's probes. */
  lemma {:induction false} ScanAllRecordsMatch(loader: Macaddr.Loader, st: ArpState, ips: seq<string>, net: string -> HostOracle, useTcp: bool, useUdp: bool)
    ensures var hosts := ScanAll(loader, st, ips, net, useTcp, useUdp).0;
      forall i :: 0 <= i < |hosts| ==> HostMatches(hosts[i], net, useTcp, useUdp)
    decreases |ips|
  {
    if ips != [] {
      var init, ip := ips[..|ips| - 1], ips[|ips| - 1];
      ScanAllRecordsMatch(loader, st, init, net, useTcp, useUdp);
      assert forall j :: 0 <= j < |ScanAll(loader, st, init, net, useTcp, useUdp).0| ==> HostMatches(ScanAll(loader, st, init, net, useTcp, useUdp).0[j], net, useTcp, useUdp);
      var prev := ScanAll(loader, st, init, net, useTcp, useUdp);
      var hosts, s1 := prev.0, prev.1;
      ScanHostSpec(loader, s1, ip, net, useTcp, useUdp);
      var host := ScanHost(loader, s1, ip, net(ip), useTcp, useUdp).0;
      var all := if host.Some? then hosts + [host.value] else hosts;
      assert ScanAll(loader, st, ips, net, useTcp, useUdp).0 == all;
      forall i | 0 <= i < |all|
        ensures HostMatches(all[i], net, useTcp, useUdp)
      {
        if i < |hosts| {
          assert all[i] == hosts[i];
        } else {
          assert all[i] == host.value;
        }
      }
    }
  }

  /** Across the scan the resolver only gains keys, stays loaded, and never stores an empty MAC. */
  lemma {:induction false} ScanAllResolverGrows(loader: Macaddr.Loader, st: ArpState, ips: seq<string>, net: string -> HostOracle, useTcp: bool, useUdp: bool)
    ensures var st2 := ScanAll(loader, st, ips, net, useTcp, useUdp).1;
      && st.cache.Keys <= st2.cache.Keys && (st.loaded ==> st2.loaded)
      && (Macaddr.NoEmptyValue(st.cache) ==> Macaddr.NoEmptyValue(st2.cache))
    decreases |ips|
  {
    if ips != [] {
      var init, ip := ips[..|ips| - 1], ips[|ips| - 1];
      ScanAllResolverGrows(loader, st, init, net, useTcp, useUdp);
      var s1 := ScanAll(loader, st, init, net, useTcp, useUdp).1;
      ScanHostSpec(loader, s1, ip, net, useTcp, useUdp);
    }
  }

  /**
   * One host: a record exactly when the address is reachable, for that
   * address and matching its probes; the resolver only gains keys.
   */
  lemma ScanHostSpec(loader: Macaddr.Loader, st: ArpState, ip: string, net: string -> HostOracle, useTcp: bool, useUdp: bool)
    ensures var r := ScanHost(loader, st, ip, net(ip), useTcp, useUdp);
      var host, st2 := r.0, r.1;
      && (host.Some? <==> (net(ip).icmpReply || (useTcp && OpenAmong(TcpPorts, net(ip).tcpAccepts) != [])))
      && (host.Some? ==> host.value.ip == ip && HostMatches(host.value, net, useTcp, useUdp))
      && st.cache.Keys <= st2.cache.Keys && (st.loaded ==> st2.loaded)
      && (Macaddr.NoEmptyValue(st.cache) ==> Macaddr.NoEmptyValue(st2.cache))
  {
    ReachableIffIcmpOrTcp(useTcp, useUdp, net(ip));
    Macaddr.ResolveMonotone(loader, st, ip, net(ip).mac);
  }

  /** The callbacks of the first `n` completions: completed so far, total, and hosts found so far. */
  function ProgressLog(ips: seq<string>, n: nat, net: string -> HostOracle, useTcp: bool, useUdp: bool): seq<Progress>
    requires n <= |ips|
  {
    if n == 0 then []
    else ProgressLog(ips, n - 1, net, useTcp, useUdp) + [Progress(n, |ips|, |ReachableIps(ips[..n], net, useTcp, useUdp)|)]
  }

  /**
   * The callback sees completions 1, 2, ..., n of `|ips|` in order; the
   * found count is the number of reachable addresses among those completed,
   * never more than the completions and never decreasing.
   */
  lemma {:induction false} ProgressLogSpec(ips: seq<string>, n: nat, net: string -> HostOracle, useTcp: bool, useUdp: bool)
    requires n <= |ips|
    ensures var log := ProgressLog(ips, n, net, useTcp, useUdp);
      && |log| == n
      && (forall k :: 0 <= k < n ==> log[k] == Progress(k + 1, |ips|, |ReachableIps(ips[..k + 1], net, useTcp, useUdp)|))
      && (forall k :: 0 <= k < n ==> log[k].found <= log[k].completed)
      && (forall k :: 0 <= k < n - 1 ==> log[k].found <= log[k + 1].found)
  {
    if n > 0 {
      ProgressLogSpec(ips, n - 1, net, useTcp, useUdp);
      FoundBounds(ips[..n], n - 1, net, useTcp, useUdp);
      FoundBounds(ips, n, net, useTcp, useUdp);
      assert ips[..n][..n - 1] == ips[..n - 1];
    }
  }

  lemma ScanAllSnoc(loader: Macaddr.Loader, st: ArpState, ips: seq<string>, i: nat, net: string -> HostOracle, useTcp: bool, useUdp: bool)
    requires i < |ips|
    ensures ScanAll(loader, st, ips[..i + 1], net, useTcp, useUdp) ==
      var (hosts, s1) := ScanAll(loader, st, ips[..i], net, useTcp, useUdp);
      var (host, s2) := ScanHost(loader, s1, ips[i], net(ips[i]), useTcp, useUdp);
      (if host.Some? then hosts + [host.value] else hosts, s2)
  {
    assert ips[..i + 1][..i] == ips[..i];
  }

  /** The number of hosts a scan finds is the number of reachable addresses. */
  lemma FoundCount(loader: Macaddr.Loader, st: ArpState, ips: seq<string>, net: string -> HostOracle, useTcp: bool, useUdp: bool)
    ensures |ScanAll(loader, st, ips, net, useTcp, useUdp).0| == |ReachableIps(ips, net, useTcp, useUdp)|
  {
    ScanAllKeepsReachable(loader, st, ips, net, useTcp, useUdp);
  }

  /** The number of hosts found so far never exceeds the number of addresses done, and never drops. */
  lemma {:induction false} FoundBounds(ips: seq<string>, k: nat, net: string -> HostOracle, useTcp: bool, useUdp: bool)
    requires k <= |ips|
    ensures |ReachableIps(ips[..k], net, useTcp, useUdp)| <= k
    ensures |ReachableIps(ips[..k], net, useTcp, useUdp)| <= |ReachableIps(ips, net, useTcp, useUdp)|
    decreases |ips|
  {
    if k == |ips| {
      assert ips[..k] == ips;
      ReachableAtMost(ips, net, useTcp, useUdp);
    } else {
      var init := ips[..|ips| - 1];
      assert init[..k] == ips[..k];
      FoundBounds(init, k, net, useTcp, useUdp);
    }
  }

  lemma {:induction false} ReachableAtMost(ips: seq<string>, net: string -> HostOracle, useTcp: bool, useUdp: bool)
    ensures |ReachableIps(ips, net, useTcp, useUdp)| <= |ips|
    decreases |ips|
  {
    if ips != [] {
      ReachableAtMost(ips[..|ips| - 1], net, useTcp, useUdp);
    }
  }

  // ================================================================ result order

  /** Go's `<` on strings: lexicographic by character (the same as by UTF-8 byte). */
  predicate StringLess(a: string, b: string)
    decreases |a|
  {
    if b == [] then false
    else if a == [] then true
    else if a[0] != b[0] then a[0] < b[0]
    else StringLess(a[1..], b[1..])
  }

  /**
   * The comparator given to `sort.Slice`: by 32-bit big-endian value when both
   * addresses are dotted-decimal IPv4, by string otherwise. IPv4-mapped IPv6
   * text, which Go's `To4` also accepts, falls to the string case here.
   */
  predicate IpLess(a: string, b: string) {
    match (ParseIPv4(a), ParseIPv4(b))
    case (Some(x), Some(y)) => ValueOf(x) < ValueOf(y)
    case _ => StringLess(a, b)
  }

  lemma ParseTwo()
    ensures ParseIPv4("2.0.0.0") == Some([2, 0, 0, 0])
  {
    assert FormatIPv4([2, 0, 0, 0]) == "2.0.0.0";
    ParseFormatIPv4([2, 0, 0, 0]);
  }

  lemma ParseTen()
    ensures ParseIPv4("10.0.0.0") == Some([10, 0, 0, 0])
  {
    assert FormatIPv4([10, 0, 0, 0]) == "10.0.0.0";
    ParseFormatIPv4([10, 0, 0, 0]);
  }

  lemma ParseNotAddress()
    ensures ParseIPv4("1x") == None
  {
    assert Split("1x", '.') == ["1x"];
  }

  lemma LeadValue(x: byte)
    ensures ValueOf([x, 0, 0, 0]) == x * 0x100_0000
  {
    assert ValueOf([x]) == x by { assert [x][..0] == []; }
    assert ValueOf([x, 0]) == x * 0x100 by { assert [x, 0][..1] == [x]; }
    assert ValueOf([x, 0, 0]) == x * 0x1_0000 by { assert [x, 0, 0][..2] == [x, 0]; }
    assert [x, 0, 0, 0][..3] == [x, 0, 0];
  }

  /**
   * Mixed input breaks the comparator: numerically 2.0.0.0 < 10.0.0.0, and as
   * strings "10.0.0.0" < "1x" < "2.0.0.0", a cycle no order can satisfy.
   */
  lemma ComparatorCycle(a: string, b: string, c: string)
    requires a == "2.0.0.0" && b == "10.0.0.0" && c == "1x"
    ensures IpLess(a, b) && IpLess(b, c) && IpLess(c, a)
  {
    NumericLess(a, b);
    TextLess(b, c);
    TextLess2(c, a);
  }

  lemma NumericLess(a: string, b: string)
    requires a == "2.0.0.0" && b == "10.0.0.0"
    ensures IpLess(a, b)
  {
    ParseTwo();
    ParseTen();
    LeadValue(2);
    LeadValue(10);
  }

  lemma TextLess(b: string, c: string)
    requires b == "10.0.0.0" && c == "1x"
    ensures IpLess(b, c)
  {
    ParseNotAddress();
    assert b[0] == c[0] && b[1..][0] < c[1..][0];
  }

  lemma TextLess2(c: string, a: string)
    requires c == "1x" && a == "2.0.0.0"
    ensures IpLess(c, a)
  {
    ParseNotAddress();
    assert c[0] < a[0];
  }

  /** Insert `h` before the first host it is less than. */
  function Insert(h: HostInfo, sorted: seq<HostInfo>): (r: seq<HostInfo>)
    ensures multiset(r) == multiset(sorted) + multiset{h}
  {
    if sorted == [] || IpLess(h.ip, sorted[0].ip) then [h] + sorted
    else
      assert sorted == [sorted[0]] + sorted[1..];
      [sorted[0]] + Insert(h, sorted[1..])
  }

  /** The order `sort.Slice` leaves the hosts in, here by insertion. */
  function SortHosts(hosts: seq<HostInfo>): (r: seq<HostInfo>)
    ensures multiset(r) == multiset(hosts)
  {
    if hosts == [] then []
    else
      assert hosts == [hosts[0]] + hosts[1..];
      Insert(hosts[0], SortHosts(hosts[1..]))
  }

  predicate AllIPv4(hosts: seq<HostInfo>) {
    forall i :: 0 <= i < |hosts| ==> IsIPv4(hosts[i].ip)
  }

  function Key(h: HostInfo): nat
    requires IsIPv4(h.ip)
  {
    ValueOf(ParseIPv4(h.ip).value)
  }

  predicate SortedByValue(hosts: seq<HostInfo>)
    requires AllIPv4(hosts)
  {
    forall i, j :: 0 <= i < j < |hosts| ==> Key(hosts[i]) <= Key(hosts[j])
  }

  lemma {:induction false} InsertIPv4(h: HostInfo, sorted: seq<HostInfo>)
    requires IsIPv4(h.ip) && AllIPv4(sorted)
    ensures var r := Insert(h, sorted);
      AllIPv4(r) && r != [] && (r[0] == h || (sorted != [] && r[0] == sorted[0]))
    decreases |sorted|
  {
    if !(sorted == [] || IpLess(h.ip, sorted[0].ip)) {
      var tail := sorted[1..];
      assert AllIPv4(tail) by {
        forall i | 0 <= i < |tail| ensures tail[i] == sorted[i + 1] {
        }
      }
      InsertIPv4(h, tail);
    }
  }

  lemma {:induction false} InsertSorted(h: HostInfo, sorted: seq<HostInfo>)
    requires IsIPv4(h.ip) && AllIPv4(sorted) && SortedByValue(sorted)
    ensures AllIPv4(Insert(h, sorted)) && SortedByValue(Insert(h, sorted))
    decreases |sorted|
  {
    InsertIPv4(h, sorted);
    if sorted == [] || IpLess(h.ip, sorted[0].ip) {
      PrependSorted(h, sorted);
    } else {
      var tail := sorted[1..];
      assert AllIPv4(tail) && SortedByValue(tail) by {
        forall i | 0 <= i < |tail| ensures tail[i] == sorted[i + 1] {
        }
      }
      InsertSorted(h, tail);
      var rest := Insert(h, tail);
      InsertIPv4(h, tail);
      assert Key(sorted[0]) <= Key(rest[0]);
      PrependSorted(sorted[0], rest);
    }
  }

  lemma PrependSorted(h: HostInfo, s: seq<HostInfo>)
    requires IsIPv4(h.ip) && AllIPv4(s) && SortedByValue(s)
    requires s != [] ==> Key(h) <= Key(s[0])
    ensures AllIPv4([h] + s) && SortedByValue([h] + s)
  {
    var r := [h] + s;
    forall i, j | 0 <= i < j < |r| ensures Key(r[i]) <= Key(r[j]) {
      assert r[j] == s[j - 1];
      if i > 0 {
        assert r[i] == s[i - 1];
      } else if j > 1 {
        assert Key(s[0]) <= Key(s[j - 1]);
      }
    }
  }

  /**
   * Sorting keeps every host (as a multiset) and, when every address is
   * IPv4, orders them by their 32-bit value.
   */
  lemma {:induction false} SortHostsSpec(hosts: seq<HostInfo>)
    ensures multiset(SortHosts(hosts)) == multiset(hosts)
    ensures AllIPv4(hosts) ==> AllIPv4(SortHosts(hosts)) && SortedByValue(SortHosts(hosts))
    decreases |hosts|
  {
    if hosts != [] {
      SortHostsSpec(hosts[1..]);
      if AllIPv4(hosts) {
        assert AllIPv4(hosts[1..]) by {
          forall i | 0 <= i < |hosts[1..]| ensures IsIPv4(hosts[1..][i].ip) {
            assert hosts[1..][i] == hosts[i + 1];
          }
        }
        InsertSorted(hosts[0], SortHosts(hosts[1..]));
      }
    }
  }

  /** `ScanResult`, and the arguments of one progress callback. */
  datatype ScanResult = ScanResult(reachableHosts: seq<HostInfo>, total: nat, completed: nat)

  datatype Progress = Progress(completed: nat, total: nat, found: nat)

  // ================================================================ the scanner

  class Scanner {
    var concurrency: int
    var timeoutMillis: int
    const macResolver: Macaddr.Resolver
    var useTcp: bool
    var useUdp: bool

    /**
     * `NewScanner`: 20 concurrent probes, a 500 ms timeout, TCP and UDP sweeps
     * off, and a fresh resolver for the platform (which loads the ARP table
     * the platform's source gives).
     */
    constructor (platform: Platform, src: ArpSource)
      ensures concurrency == 20 && timeoutMillis == 500 && !useTcp && !useUdp
      ensures fresh(macResolver)
      ensures macResolver.loader == Macaddr.LoaderFor(platform)
      ensures macResolver.State() == Macaddr.Initial(Macaddr.LoaderFor(platform), src)
    {
      concurrency := 20;
      timeoutMillis := 500;
      macResolver := new Macaddr.Resolver(platform, src);
      useTcp := false;
      useUdp := false;
    }

    /**
     * `GetIPsFromSubnet`. A malformed CIDR is an error; otherwise every address
     * of the block, ascending, minus network and broadcast when there are more
     * than two. A /0 network is excluded: the source's loop never ends on it
     * (see ZeroPrefixNeverExits).
     */
    method GetIPsFromSubnet(subnet: string) returns (r: Result<seq<string>, SubnetError>)
      requires ParseCidr(subnet).Some? ==> ParseCidr(subnet).value.prefix != 0
      ensures ParseCidr(subnet).None? ==> r == Err(InvalidSubnet)
      ensures ParseCidr(subnet).Some? ==> r == Ok(HostAddresses(ParseCidr(subnet).value))
    {
      var parsed := ParseCidr(subnet);
      if parsed.None? {
        return Err(InvalidSubnet);
      }
      var ips := WalkBlock(parsed.value);
      if |ips| > 2 {
        ips := ips[1..|ips| - 1];
      }
      return Ok(ips);
    }

    /** `getOpenPorts`: dial every port of the list in turn and keep those that accept. */
    method GetOpenPorts(h: HostOracle) returns (openPorts: seq<int>)
      ensures openPorts == OpenAmong(TcpPorts, h.tcpAccepts)
    {
      var commonPorts := TcpPorts;
      openPorts := [];
      var i := 0;
      while i < |commonPorts|
        invariant 0 <= i <= |commonPorts|
        invariant openPorts == OpenAmong(commonPorts[..i], h.tcpAccepts)
      {
        var port := commonPorts[i];
        if port in h.tcpAccepts {
          openPorts := openPorts + [port];
        }
        assert commonPorts[..i + 1][..i] == commonPorts[..i];
        i := i + 1;
      }
      assert commonPorts[..i] == commonPorts;
    }

    /** `getOpenUDPPorts`: probe every port of the list in turn and keep those that reply. */
    method GetOpenUdpPorts(h: HostOracle) returns (open: seq<int>)
      ensures open == OpenAmong(UdpPorts, h.udpReplies)
    {
      var udpPorts := UdpPorts;
      open := [];
      var i := 0;
      while i < |udpPorts|
        invariant 0 <= i <= |udpPorts|
        invariant open == OpenAmong(udpPorts[..i], h.udpReplies)
      {
        var port := udpPorts[i];
        if port in h.udpReplies {
          open := open + [port];
        }
        assert udpPorts[..i + 1][..i] == udpPorts[..i];
        i := i + 1;
      }
      assert udpPorts[..i] == udpPorts;
    }

    /** The body of one `ScanSubnet` goroutine: probe, decide, and resolve MAC and name. */
    method ScanOne(ip: string, h: HostOracle) returns (host: Option<HostInfo>)
      modifies macResolver
      ensures (host, macResolver.State()) == ScanHost(macResolver.loader, old(macResolver.State()), ip, h, useTcp, useUdp)
    {
      var icmpReachable := h.icmpReply;
      var tcpPorts: seq<int> := [];
      var udpPorts: seq<int> := [];
      if useTcp {
        tcpPorts := GetOpenPorts(h);
      }
      if useUdp {
        if icmpReachable || |tcpPorts| > 0 {
          udpPorts := GetOpenUdpPorts(h);
        }
      }
      var openPorts := tcpPorts + udpPorts;
      var isReachable := icmpReachable || |openPorts| > 0;
      if !isReachable {
        return None;
      }
      var mac, hostname := "", "";
      if icmpReachable {
        mac := macResolver.GetMacAddress(ip, h.mac);
        hostname := Hostname(h.reverseNames);
      }
      return Some(HostInfo(ip, mac, hostname, openPorts));
    }

    /**
     * `ScanSubnet`, one address after another: every address is completed
     * once, the reachable ones are collected, the callback (when there is one)
     * sees each completion, and the hosts are sorted at the end.
     */
    method ScanSubnet(ips: seq<string>, net: string -> HostOracle, callback: bool)
      returns (result: ScanResult, progress: seq<Progress>)
      modifies macResolver
      ensures var (hosts, st) := ScanAll(macResolver.loader, old(macResolver.State()), ips, net, useTcp, useUdp);
        result == ScanResult(SortHosts(hosts), |ips|, |ips|) && macResolver.State() == st
      ensures progress == if callback then ProgressLog(ips, |ips|, net, useTcp, useUdp) else []
    {
      var reachableHosts: seq<HostInfo> := [];
      var completed := 0;
      var total := |ips|;
      progress := [];
      ghost var st0 := macResolver.State();
      var i := 0;
      while i < |ips|
        invariant 0 <= i <= |ips| && completed == i
        invariant (reachableHosts, macResolver.State()) == ScanAll(macResolver.loader, st0, ips[..i], net, useTcp, useUdp)
        invariant progress == if callback then ProgressLog(ips, i, net, useTcp, useUdp) else []
      {
        var ip := ips[i];
        var host := ScanOne(ip, net(ip));
        if host.Some? {
          reachableHosts := reachableHosts + [host.value];
        }
        completed := completed + 1;
        ScanAllSnoc(macResolver.loader, st0, ips, i, net, useTcp, useUdp);
        if callback {
          FoundCount(macResolver.loader, st0, ips[..i + 1], net, useTcp, useUdp);
          progress := progress + [Progress(completed, total, |reachableHosts|)];
        }
        i := i + 1;
      }
      assert ips[..i] == ips;
      result := ScanResult(SortHosts(reachableHosts), total, completed);
    }
  }
}
