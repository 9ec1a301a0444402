/** The internal addresses of the two load balancers of a cluster, and what
    Keepalived and Conntrackd are told about them. */
module Internal {
  import opened Prelude
  import opened Netip
  import opened Sorting
  import opened Vips

  function Pow2(n: nat): (p: nat)
    ensures p >= 1
  {
    if n == 0 then 1 else 2 * Pow2(n - 1)
  }

  /** The number of addresses of a prefix. */
  function Size(p: Prefix): nat
    requires ValidPrefix(p)
  {
    Pow2(BitLen(p.addr) - p.bits)
  }

  /** The start of the block of `size` addresses that `n` lies in. */
  function Base(n: nat, size: nat): (b: nat)
    requires size >= 1
    ensures b <= n
  {
    n - n % size
  }

  /** The address of Masked. */
  function MaskedAddr(p: Prefix): Addr {
    if !ValidPrefix(p) then Zero
    else
      match p.addr
      case Zero => Zero
      case V4(n) => V4(Base(n, Size(p)))
      case V6(n) => V6(Base(n, Size(p)))
  }

  datatype InternalIPs = InternalIPs(gateway: Addr, primary: Addr, secondary: Addr)

  /** internalIPs: the first three addresses of the cluster network, which has to be an
      IPv4 prefix. */
  function InternalIPsOf(clusterNetwork: Prefix): (r: Result<InternalIPs>)
    ensures r.Ok? <==> clusterNetwork.addr.V4? && 0 <= clusterNetwork.bits <= 32
  {
    var netaddr := MaskedAddr(clusterNetwork);
    if !netaddr.V4? then Err("IPv6 cluster network isn't supported")
    else
      var gateway := Next(netaddr);
      var primary := Next(gateway);
      Ok(InternalIPs(gateway, primary, Next(primary)))
  }

  function MyInternalIP(ips: InternalIPs, isPrimary: bool): Addr {
    if isPrimary then ips.primary else ips.secondary
  }

  function PeerInternalIP(ips: InternalIPs, isPrimary: bool): Addr {
    if isPrimary then ips.secondary else ips.primary
  }

  // ---------------------------------------------------------------------
  // Address arithmetic
  // ---------------------------------------------------------------------

  lemma {:induction false} Pow2Sum(a: nat, b: nat)
    ensures Pow2(a + b) == Pow2(a) * Pow2(b)
  {
    if a > 0 {
      Pow2Sum(a - 1, b);
      assert Pow2(a) * Pow2(b) == 2 * (Pow2(a - 1) * Pow2(b));
    }
  }

  lemma {:induction false} Pow2Monotone(a: nat, b: nat)
    requires a <= b
    ensures Pow2(a) <= Pow2(b)
  {
    if a < b { Pow2Monotone(a, b - 1); }
  }

  lemma Pow2Small()
    ensures Pow2(0) == 1 && Pow2(1) == 2 && Pow2(2) == 4 && Pow2(3) == 8 && Pow2(32) == 0x1_0000_0000
  {
    assert Pow2(8) == 256;
    Pow2Sum(8, 8);
    Pow2Sum(16, 16);
  }

  lemma TimesMonotone(a: nat, b: nat, size: nat)
    requires a <= b
    ensures size * a <= size * b
  {
  }

  lemma Division(n: nat, size: nat)
    requires size >= 1
    ensures n == size * (n / size) + n % size && 0 <= n % size < size
  {
  }

  /** Of two multiples of `size` the smaller is smaller by `size` at least. */
  lemma Multiples(a: nat, b: nat, size: nat)
    requires size * a < size * b
    ensures size * a + size <= size * b
  {
    if a + 1 <= b {
      TimesMonotone(a + 1, b, size);
      assert size * (a + 1) == size * a + size;
    } else {
      TimesMonotone(b, a, size);
    }
  }

  /** A block that starts below `size * count` ends there or below. */
  lemma Block(n: nat, size: nat, count: nat)
    requires size >= 1 && n < size * count
    ensures Base(n, size) <= n < Base(n, size) + size <= size * count
  {
    Division(n, size);
    Multiples(n / size, count, size);
  }

  predicate IsNetwork(p: Prefix) {
    p.addr.V4? && 0 <= p.bits <= 32
  }

  /** The addresses of the network start at `m`: the multiple of its size that the
      prefix's own address is above by less than the size. */
  ghost predicate StartsAt(p: Prefix, m: nat)
    requires IsNetwork(p)
  {
    m % Pow2(32 - p.bits) == 0 && m <= p.addr.v4 < m + Pow2(32 - p.bits)
  }

  /** The address agrees with that of the prefix in its leading bits. */
  ghost predicate Inside(p: Prefix, a: Addr)
    requires IsNetwork(p)
  {
    a.V4? && a.v4 / Pow2(32 - p.bits) == p.addr.v4 / Pow2(32 - p.bits)
  }

  lemma BaseIsMultiple(n: nat, size: nat)
    requires size >= 1
    ensures Base(n, size) % size == 0 && Base(n, size) <= n < Base(n, size) + size
  {
    Division(n, size);
    MultipleMod(n / size, size);
  }

  lemma MultipleMod(q: nat, size: nat)
    requires size >= 1
    ensures (size * q) % size == 0
  {
    Division(size * q, size);
    var r := (size * q) % size;
    var k := (size * q) / size;
    if size * k < size * q { Multiples(k, q, size); }
  }

  /** The same block of numbers, by quotients and by bounds. */
  lemma SameBlock(x: nat, y: nat, size: nat)
    requires size >= 1
    ensures x / size == y / size <==> Base(x, size) <= y < Base(x, size) + size
  {
    Division(x, size);
    Division(y, size);
    var a, b := x / size, y / size;
    if a != b {
      if size * a < size * b { Multiples(a, b, size); }
      if size * b < size * a { Multiples(b, a, size); }
      if size * a == size * b { TimesInjective(a, b, size); }
    }
  }

  lemma TimesStrict(a: nat, b: nat, size: nat)
    requires size >= 1 && a < b
    ensures size * a < size * b
  {
    TimesMonotone(a + 1, b, size);
    assert size * (a + 1) == size * a + size;
  }

  lemma TimesInjective(a: nat, b: nat, size: nat)
    requires size >= 1 && size * a == size * b
    ensures a == b
  {
    if a < b { TimesStrict(a, b, size); }
    if b < a { TimesStrict(b, a, size); }
  }

  /** A multiple of the size in whose block `n` lies is the base. */
  lemma OneBase(n: nat, m: nat, size: nat)
    requires size >= 1 && m % size == 0 && m <= n < m + size
    ensures m == Base(n, size)
  {
    Division(m, size);
    SameBlock(m, n, size);
    Division(n, size);
  }

  lemma MaskedStart(p: Prefix)
    requires IsNetwork(p)
    ensures MaskedAddr(p).V4? && StartsAt(p, MaskedAddr(p).v4)
    ensures forall m :: StartsAt(p, m) ==> m == MaskedAddr(p).v4
  {
    var size := Pow2(32 - p.bits);
    BaseIsMultiple(p.addr.v4, size);
    forall m | StartsAt(p, m) ensures m == MaskedAddr(p).v4 {
      OneBase(p.addr.v4, m, size);
    }
  }

  /** Internal address arithmetic, for every IPv4 prefix (section 3.1 of RFC 4632):
      the network has one start `m`, the three addresses lie in it exactly when its
      length is at most 30, and then they are the first three after the start, and
      none is the broadcast address exactly when the length is at most 29. */
  lemma InternalAddresses(p: Prefix) returns (m: nat)
    requires IsNetwork(p)
    ensures StartsAt(p, m) && forall k :: StartsAt(p, k) ==> k == m
    ensures var ips := InternalIPsOf(p).value;
            (Inside(p, ips.gateway) && Inside(p, ips.primary) && Inside(p, ips.secondary)) <==> p.bits <= 30
    ensures p.bits <= 30 ==>
              m + 3 < 0x1_0000_0000 &&
              InternalIPsOf(p).value == InternalIPs(V4(m + 1), V4(m + 2), V4(m + 3)) &&
              (m + Pow2(32 - p.bits) - 1 !in {m + 1, m + 2, m + 3} <==> p.bits <= 29)
  {
    MaskedStart(p);
    m := MaskedAddr(p).v4;
    FirstThree(p, m);
    ThreeInside(p, m);
  }

  /** The first three addresses, while they are IPv4 addresses. */
  lemma FirstThree(p: Prefix, m: nat)
    requires IsNetwork(p) && m == MaskedAddr(p).v4
    ensures p.bits <= 30 ==> m + 3 < 0x1_0000_0000 && InternalIPsOf(p).value == InternalIPs(V4(m + 1), V4(m + 2), V4(m + 3))
    ensures p.bits <= 30 ==> Pow2(32 - p.bits) >= 4 && (p.bits <= 29 <==> Pow2(32 - p.bits) > 4)
    ensures p.bits > 30 ==> Pow2(32 - p.bits) <= 2
  {
    Pow2Small();
    Pow2Sum(32 - p.bits, p.bits);
    Block(p.addr.v4, Pow2(32 - p.bits), Pow2(p.bits));
    if p.bits <= 30 { Pow2Monotone(2, 32 - p.bits); }
    if p.bits <= 29 { Pow2Monotone(3, 32 - p.bits); }
  }

  lemma ThreeInside(p: Prefix, m: nat)
    requires IsNetwork(p) && m == MaskedAddr(p).v4
    ensures var ips := InternalIPsOf(p).value;
            (Inside(p, ips.gateway) && Inside(p, ips.primary) && Inside(p, ips.secondary)) <==> p.bits <= 30
  {
    var size, n := Pow2(32 - p.bits), p.addr.v4;
    var ips := InternalIPsOf(p).value;
    FirstThree(p, m);
    if p.bits <= 30 {
      SameBlock(n, m + 1, size);
      SameBlock(n, m + 2, size);
      SameBlock(n, m + 3, size);
    } else if ips.primary.V4? {
      SameBlock(n, ips.primary.v4, size);
    }
  }

  /** The address of a host by its role: the second of the network on the primary host,
      the third on the other one. */
  lemma AddressByRole(p: Prefix, isPrimary: bool, m: nat)
    requires IsNetwork(p) && p.bits <= 30 && StartsAt(p, m)
    ensures m + 3 < 0x1_0000_0000
    ensures MyInternalIP(InternalIPsOf(p).value, isPrimary) == V4(m + if isPrimary then 2 else 3)
    ensures PeerInternalIP(InternalIPsOf(p).value, isPrimary) == V4(m + if isPrimary then 3 else 2)
  {
    hide InternalIPsOf, StartsAt;
    var k := InternalAddresses(p);
  }

  /** Hosts whose addresses lie in one network compute the same internal addresses. */
  lemma SameNetworkSameIPs(p: Prefix, q: Prefix)
    requires IsNetwork(p) && IsNetwork(q) && p.bits == q.bits
    requires Inside(p, q.addr)
    ensures InternalIPsOf(p) == InternalIPsOf(q)
  {
    hide Pow2, Base;
    SameBase(p.addr.v4, q.addr.v4, Pow2(32 - p.bits));
    assert MaskedAddr(p) == MaskedAddr(q);
  }

  lemma SameBase(x: nat, y: nat, size: nat)
    requires size >= 1 && x / size == y / size
    ensures Base(x, size) == Base(y, size)
  {
    Division(x, size);
    Division(y, size);
  }

  // ---------------------------------------------------------------------
  // Keepalived and Conntrackd
  // ---------------------------------------------------------------------

  datatype KeepalivedData = KeepalivedData(
    interface: string, priority: nat, srcIP: Addr, dstIP: Addr, vips: seq<Prefix>)

  /** Prefix(32) of an address; the invalid prefix for the invalid address. */
  function HostPrefix(a: Addr): Prefix {
    if a.Zero? then Prefix(Zero, -1) else Prefix(a, 32)
  }

  /** The gateway address is a VIP when the configuration has a NAT address. */
  function GatewayVIPs(ips: InternalIPs, v: VIPs): seq<Prefix> {
    if v.natVIP.Some? then [HostPrefix(ips.gateway)] else []
  }

  /** What the Keepalived template is given. */
  ghost predicate KeepalivedFor(net: Net, clusterNetwork: Prefix, interface: Option<string>, isPrimary: bool, v: VIPs,
                                r: Result<KeepalivedData>)
  {
    var ips := InternalIPsOf(clusterNetwork);
    if ips.Err? || interface.None? || !KindParses(net, All(v), PRIVATE) then r.Err?
    else
      r.Ok? &&
      r.value.interface == interface.value &&
      [r.value.srcIP, r.value.dstIP] ==
        (if isPrimary then [ips.value.primary, ips.value.secondary] else [ips.value.secondary, ips.value.primary]) &&
      r.value.priority == (if isPrimary then 200 else 100) &&
      Arrangement(VIPSet(net, v, PRIVATE, GatewayVIPs(ips.value, v)), BY_ADDR, r.value.vips)
  }

  /** RenderKeepalivedConfig up to the template. */
  method RenderKeepalivedConfig(net: Net, clusterNetwork: Prefix, interface: Option<string>, isPrimary: bool, v: VIPs)
    returns (r: Result<KeepalivedData>)
    ensures KeepalivedFor(net, clusterNetwork, interface, isPrimary, v, r)
    ensures r.Ok? ==> forall p :: p in r.value.vips <==>
              Listed(net, v, "private", p) || p in GatewayVIPs(InternalIPsOf(clusterNetwork).value, v)
  {
    var internalIPs := InternalIPsOf(clusterNetwork);
    if internalIPs.Err? { return Err("failed to compute internal VIPs"); }
    if interface.None? { return Err("failed to find interface"); }
    var prio := 100;
    if isPrimary { prio := 200; }
    var extraVips: seq<Prefix> := [];
    if v.natVIP.Some? {
      extraVips := extraVips + [HostPrefix(internalIPs.value.gateway)];
    }
    var vips, ok := PrivateVIPs(net, v, extraVips);
    if !ok { return Err("failed to prepare Keepalived VIPs"); }
    return Ok(KeepalivedData(interface.value, prio, MyInternalIP(internalIPs.value, isPrimary),
                             PeerInternalIP(internalIPs.value, isPrimary), vips));
  }

  datatype ConntrackdData = ConntrackdData(interface: string, srcIP: Addr, dstIP: Addr)

  /** RenderConntrackdConfig up to the template. A host without the interface gets
      an empty configuration and no error: Ok(None). */
  function ConntrackdFor(clusterNetwork: Prefix, interface: Option<string>, isPrimary: bool): (r: Result<Option<ConntrackdData>>)
    ensures r.Err? <==> !IsNetwork(clusterNetwork)
    ensures r == Ok(None) <==> IsNetwork(clusterNetwork) && interface.None?
  {
    var ips := InternalIPsOf(clusterNetwork);
    if ips.Err? then Err("failed to compute internal IPs")
    else if interface.None? then Ok(None)
    else Ok(Some(ConntrackdData(interface.value, MyInternalIP(ips.value, isPrimary), PeerInternalIP(ips.value, isPrimary))))
  }

  /** Pair agreement: the two hosts of a cluster network of length at most 30, one of
      them primary, are configured as each other's peers by Keepalived and by
      Conntrackd, with the second and third address of the network, with
      priorities that VRRP allows a backup (section 5.2.4 of RFC 9568), the primary
      one's being the higher, and for the same specification with the same list of
      VIPs; the first address is one of them if there is a NAT address. */
  lemma PairAgreement(net: Net, p: Prefix, q: Prefix, ip: string, iq: string, primary: bool, v: VIPs,
                      k: KeepalivedData, l: KeepalivedData, c: ConntrackdData, d: ConntrackdData)
    returns (m: nat)
    requires IsNetwork(p) && IsNetwork(q) && p.bits == q.bits <= 30
    requires Inside(p, q.addr)
    requires KeepalivedFor(net, p, Some(ip), primary, v, Ok(k)) && KeepalivedFor(net, q, Some(iq), !primary, v, Ok(l))
    requires ConntrackdFor(p, Some(ip), primary) == Ok(Some(c)) && ConntrackdFor(q, Some(iq), !primary) == Ok(Some(d))
    ensures StartsAt(p, m) && m + 3 < 0x1_0000_0000
    ensures k.srcIP == l.dstIP == c.srcIP == d.dstIP == V4(m + if primary then 2 else 3)
    ensures k.dstIP == l.srcIP == c.dstIP == d.srcIP == V4(m + if primary then 3 else 2)
    ensures Inside(p, k.srcIP) && Inside(p, k.dstIP)
    ensures 1 <= k.priority <= 254 && 1 <= l.priority <= 254
    ensures if primary then l.priority < k.priority else k.priority < l.priority
    ensures v.natVIP.Some? ==> Prefix(V4(m + 1), 32) in k.vips
    ensures k.vips == l.vips && Ascending(k.vips)
  {
    hide StartsAt, Inside, InternalIPsOf, Arrangement, VIPSet, Ascending;
    SameNetworkSameIPs(p, q);
    m := InternalAddresses(p);
    PairVIPs(net, v, m, k.vips, l.vips);
  }

  lemma PairVIPs(net: Net, v: VIPs, m: nat, r: seq<Prefix>, s: seq<Prefix>)
    requires m + 1 < 0x1_0000_0000
    requires var extras := if v.natVIP.Some? then [Prefix(V4(m + 1), 32)] else [];
             Arrangement(VIPSet(net, v, PRIVATE, extras), BY_ADDR, r) && Arrangement(VIPSet(net, v, PRIVATE, extras), BY_ADDR, s)
    ensures v.natVIP.Some? ==> Prefix(V4(m + 1), 32) in r
    ensures r == s && Ascending(r)
  {
    var extras := if v.natVIP.Some? then [Prefix(V4(m + 1), 32)] else [];
    ListsAreCanonical(net, v, v, PRIVATE, extras, extras, r, s);
    if v.natVIP.Some? {
      assert extras[0] in Elems(r);
    }
  }
}
