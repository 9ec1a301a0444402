/** The virtual addresses of a LoadBalancerConfig: the lists that are printed into
    the configuration of HAProxy, Keepalived, Floaty, NetworkManager and Firewalld. */
module Vips {
  import opened Prelude
  import opened Netip
  import opened Sorting

  const PRIVATE := "private"
  const PUBLIC := "public"

  datatype VirtualAddress = VirtualAddress(kind: string, address: string)

  datatype VIPs = VIPs(api: seq<VirtualAddress>, ingress: seq<VirtualAddress>, natVIP: Option<VirtualAddress>)

  /** The type is one that the custom resource definition admits. */
  predicate KnownKind(a: VirtualAddress) {
    a.kind == PRIVATE || a.kind == PUBLIC
  }

  /** A prefix of the full length of its family. */
  predicate FullLength(p: Prefix) {
    (p.addr.V4? && p.bits == 32) || (p.addr.V6? && p.bits == 128)
  }

  /** parseVIP; None is an error. Exactly the single addresses are VIPs. */
  function ParseVIP(net: Net, a: VirtualAddress): (p: Option<Prefix>)
    ensures p.Some? ==> IsSingleIP(p.value)
    ensures forall q :: p == Some(q) <==> net.parse(a.address) == Some(q) && FullLength(q)
  {
    match net.parse(a.address)
    case None => None
    case Some(p) => if IsSingleIP(p) then Some(p) else None
  }

  function NatList(v: VIPs): seq<VirtualAddress> {
    if v.natVIP.Some? then [v.natVIP.value] else []
  }

  /** All virtual addresses of a configuration. */
  function All(v: VIPs): seq<VirtualAddress> {
    v.api + v.ingress + NatList(v)
  }

  /** The addresses of one type among some virtual addresses. */
  ghost function OfKind(net: Net, list: seq<VirtualAddress>, kind: string): set<Prefix> {
    set a | a in list && a.kind == kind && ParseVIP(net, a).Some? :: ParseVIP(net, a).value
  }

  ghost predicate KindParses(net: Net, list: seq<VirtualAddress>, kind: string) {
    forall a :: a in list && a.kind == kind ==> ParseVIP(net, a).Some?
  }

  /** Some virtual address of this type, for API, ingress or NAT, is this prefix. */
  ghost predicate Listed(net: Net, v: VIPs, kind: string, p: Prefix) {
    FullLength(p) &&
    exists a :: (a in v.api || a in v.ingress || v.natVIP == Some(a)) && a.kind == kind && net.parse(a.address) == Some(p)
  }

  /** Some virtual address of the list has this address, and this type if one is given. */
  ghost predicate AddressListed(net: Net, list: seq<VirtualAddress>, kind: Option<string>, x: Addr) {
    exists a, p :: a in list && (kind.None? || a.kind == kind.value) &&
                   net.parse(a.address) == Some(p) && FullLength(p) && p.addr == x
  }

  const BY_ADDR: Prefix -> Addr := (p: Prefix) => p.addr
  const ITSELF: Addr -> Addr := (a: Addr) => a

  // ---------------------------------------------------------------------
  // publicVIPs and privateVIPs
  // ---------------------------------------------------------------------

  /** One of their loops: skip the other type, parse, and put into the set. */
  method AddVIPs(net: Net, list: seq<VirtualAddress>, kind: string, addrs: set<Prefix>, errors: seq<string>)
    returns (addrs': set<Prefix>, errors': seq<string>)
    ensures addrs' == addrs + OfKind(net, list, kind)
    ensures errors' == [] <==> errors == [] && KindParses(net, list, kind)
  {
    addrs', errors' := addrs, errors;
    for i := 0 to |list|
      invariant addrs' == addrs + OfKind(net, list[..i], kind)
      invariant errors' == [] <==> errors == [] && KindParses(net, list[..i], kind)
    {
      assert list[..i + 1] == list[..i] + [list[i]];
      OfKindJoined(net, list[..i], [list[i]], kind);
      var address := list[i];
      if address.kind == kind {
        var a := ParseVIP(net, address);
        if a.Some? {
          addrs' := addrs' + {a.value};
        } else {
          errors' := errors' + ["failed to parse VIP"];
        }
      }
    }
    assert list[..|list|] == list;
  }

  lemma OfKindJoined(net: Net, a: seq<VirtualAddress>, b: seq<VirtualAddress>, kind: string)
    ensures OfKind(net, a + b, kind) == OfKind(net, a, kind) + OfKind(net, b, kind)
    ensures KindParses(net, a + b, kind) <==> KindParses(net, a, kind) && KindParses(net, b, kind)
  {
    assert forall x :: x in a + b <==> x in a || x in b;
  }

  /** The set that a list of VIPs is made from. */
  ghost function VIPSet(net: Net, v: VIPs, kind: string, extras: seq<Prefix>): set<Prefix> {
    Elems(extras) + OfKind(net, All(v), kind)
  }

  lemma ListMembers(net: Net, v: VIPs, kind: string, extras: seq<Prefix>, r: seq<Prefix>)
    requires Elems(r) == VIPSet(net, v, kind, extras)
    ensures forall p :: p in r <==> p in extras || Listed(net, v, kind, p)
  {
    assert forall a :: a in All(v) <==> a in v.api || a in v.ingress || v.natVIP == Some(a);
    forall p ensures p in r <==> p in extras || Listed(net, v, kind, p) {
      assert p in r <==> p in Elems(r);
      OfKindListed(net, v, kind, p);
    }
  }

  lemma OfKindListed(net: Net, v: VIPs, kind: string, p: Prefix)
    ensures p in OfKind(net, All(v), kind) <==> Listed(net, v, kind, p)
  {
    assert forall a :: a in All(v) <==> a in v.api || a in v.ingress || v.natVIP == Some(a);
    assert forall a :: ParseVIP(net, a) == Some(p) <==> net.parse(a.address) == Some(p) && FullLength(p);
    if Listed(net, v, kind, p) {
      var a :| (a in v.api || a in v.ingress || v.natVIP == Some(a)) && a.kind == kind && net.parse(a.address) == Some(p);
      assert a in All(v) && ParseVIP(net, a) == Some(p);
    }
  }

  /** publicVIPs and privateVIPs: the sorted keys of a map that was filled from the
      lists. `ok` is false when there are errors; the list is made all the same. */
  method VIPsOfKind(net: Net, v: VIPs, kind: string, extras: seq<Prefix>) returns (r: seq<Prefix>, ok: bool)
    ensures Arrangement(VIPSet(net, v, kind, extras), BY_ADDR, r)
    ensures forall p :: p in r <==> p in extras || Listed(net, v, kind, p)
    ensures forall i, j :: 0 <= i < j < |r| ==> InOrder(r[i].addr, r[j].addr) && r[i] != r[j]
    ensures ok <==> KindParses(net, All(v), kind)
  {
    var addrs := set p | p in extras;
    var errors: seq<string> := [];
    addrs, errors := AddVIPs(net, v.api, kind, addrs, errors);
    addrs, errors := AddVIPs(net, v.ingress, kind, addrs, errors);
    addrs, errors := AddVIPs(net, NatList(v), kind, addrs, errors);
    OfKindJoined(net, v.api, v.ingress, kind);
    OfKindJoined(net, v.api + v.ingress, NatList(v), kind);
    r := SortedKeys(addrs, BY_ADDR);
    ok := errors == [];
    ListMembers(net, v, kind, extras, r);
    assert forall i :: 0 <= i < |r| ==> BY_ADDR(r[i]) == r[i].addr;
  }

  method PrivateVIPs(net: Net, v: VIPs, extras: seq<Prefix>) returns (r: seq<Prefix>, ok: bool)
    ensures Arrangement(VIPSet(net, v, PRIVATE, extras), BY_ADDR, r)
    ensures forall p :: p in r <==> p in extras || Listed(net, v, "private", p)
    ensures AllSingle(extras) ==> Ascending(r)
    ensures ok <==> KindParses(net, All(v), PRIVATE)
  {
    r, ok := VIPsOfKind(net, v, PRIVATE, extras);
    if AllSingle(extras) { ListsAreCanonical(net, v, v, PRIVATE, extras, extras, r, r); }
  }

  method PublicVIPs(net: Net, v: VIPs) returns (r: seq<Prefix>, ok: bool)
    ensures r == PublicList(net, v) && Ascending(r)
    ensures forall p :: p in r <==> Listed(net, v, "public", p)
    ensures ok <==> KindParses(net, All(v), PUBLIC)
  {
    r, ok := VIPsOfKind(net, v, PUBLIC, []);
    PublicListCanonical(net, v, r);
    ListsAreCanonical(net, v, v, PUBLIC, [], [], r, r);
  }

  /** The public VIPs as a function of the configuration. */
  ghost function PublicList(net: Net, v: VIPs): seq<Prefix> {
    Arrange(VIPSet(net, v, PUBLIC, []), BY_ADDR)
  }

  lemma PublicListCanonical(net: Net, v: VIPs, r: seq<Prefix>)
    requires Arrangement(VIPSet(net, v, PUBLIC, []), BY_ADDR, r)
    ensures r == PublicList(net, v)
  {
    ArrangeArranges(VIPSet(net, v, PUBLIC, []), BY_ADDR);
    ListsAreCanonical(net, v, v, PUBLIC, [], [], r, PublicList(net, v));
  }

  predicate AllSingle(ps: seq<Prefix>) {
    forall p :: p in ps ==> IsSingleIP(p)
  }

  function Addrs(r: seq<Prefix>): (s: seq<Addr>)
    ensures |s| == |r| && forall i :: 0 <= i < |r| ==> s[i] == r[i].addr
  {
    seq(|r|, i requires 0 <= i < |r| => r[i].addr)
  }

  ghost predicate Ascending(r: seq<Prefix>) {
    AscendingAddrs(Addrs(r))
  }

  /** Canonical VIP lists: configurations with the same virtual addresses, in any
      order and with any repetitions and spread over the lists in any way, and
      the same single-address extras give the same list, strictly ascending by
      address, whatever the order of map keys and the sort. */
  lemma ListsAreCanonical(net: Net, v: VIPs, w: VIPs, kind: string, extras: seq<Prefix>, extras': seq<Prefix>,
                          r: seq<Prefix>, t: seq<Prefix>)
    requires Elems(All(v)) == Elems(All(w)) && Elems(extras) == Elems(extras') && AllSingle(extras)
    requires Arrangement(VIPSet(net, v, kind, extras), BY_ADDR, r)
    requires Arrangement(VIPSet(net, w, kind, extras'), BY_ADDR, t)
    ensures r == t && Ascending(r)
  {
    var s := VIPSet(net, v, kind, extras);
    forall a ensures a in All(v) <==> a in All(w) {
      assert a in Elems(All(v)) <==> a in Elems(All(w));
    }
    assert VIPSet(net, w, kind, extras') == s;
    SinglesDetermined(net, v, kind, extras);
    SameArrangement(s, BY_ADDR, r, t);
    SortedInOrder(r, BY_ADDR);
    forall i, j | 0 <= i < j < |r| ensures InOrder(r[i].addr, r[j].addr) && r[i].addr != r[j].addr {
      assert r[i] in Elems(r) && r[j] in Elems(r);
      assert InOrder(BY_ADDR(r[i]), BY_ADDR(r[j]));
    }
  }

  lemma SinglesDetermined(net: Net, v: VIPs, kind: string, extras: seq<Prefix>)
    requires AllSingle(extras)
    ensures KeyDetermines(VIPSet(net, v, kind, extras), BY_ADDR)
    ensures forall p :: p in VIPSet(net, v, kind, extras) ==> IsSingleIP(p)
  {
  }

  /** With any extras, the list is determined by the configuration exactly when no
      extra shares its address with another prefix of the list: the VIPs, being
      single addresses, never do. */
  lemma ListDeterminedExactly(net: Net, v: VIPs, kind: string, extras: seq<Prefix>)
    ensures Determined(VIPSet(net, v, kind, extras), BY_ADDR)
       <==> forall p, q :: p in extras && q in VIPSet(net, v, kind, extras) && p.addr == q.addr ==> p == q
  {
    var s := VIPSet(net, v, kind, extras);
    DeterminedExactly(s, BY_ADDR);
    if forall p, q :: p in extras && q in s && p.addr == q.addr ==> p == q {
      forall x, y | x in s && y in s && BY_ADDR(x) == BY_ADDR(y) ensures x == y {
        if x !in extras && y !in extras {
          assert x in OfKind(net, All(v), kind) && y in OfKind(net, All(v), kind);
        }
      }
    } else {
      var p, q :| p in extras && q in s && p.addr == q.addr && p != q;
      assert p in s && BY_ADDR(p) == BY_ADDR(q);
    }
  }

  // ---------------------------------------------------------------------
  // HAProxy frontends
  // ---------------------------------------------------------------------

  datatype FrontendData = FrontendData(api: seq<Addr>, ignition: seq<Addr>, ingress: seq<Addr>)

  /** The addresses of some virtual addresses, of any type. */
  ghost function Addresses(net: Net, list: seq<VirtualAddress>): set<Addr> {
    set a | a in list && ParseVIP(net, a).Some? :: ParseVIP(net, a).value.addr
  }

  ghost function AddressesOfKind(net: Net, list: seq<VirtualAddress>, kind: string): set<Addr> {
    set a | a in list && a.kind == kind && ParseVIP(net, a).Some? :: ParseVIP(net, a).value.addr
  }

  ghost predicate AllParse(net: Net, list: seq<VirtualAddress>) {
    forall a :: a in list ==> ParseVIP(net, a).Some?
  }

  /** What the frontends are made from. */
  ghost predicate Frontends(net: Net, v: VIPs, d: FrontendData) {
    Arrangement(Addresses(net, v.api), ITSELF, d.api) &&
    Arrangement(AddressesOfKind(net, v.api, PRIVATE), ITSELF, d.ignition) &&
    Arrangement(Addresses(net, v.ingress), ITSELF, d.ingress)
  }

  method GetHAProxyFrontends(net: Net, v: VIPs) returns (d: FrontendData, ok: bool)
    ensures Frontends(net, v, d)
    ensures AscendingAddrs(d.api) && AscendingAddrs(d.ignition) && AscendingAddrs(d.ingress)
    ensures forall x :: x in d.api <==> AddressListed(net, v.api, None, x)
    ensures forall x :: x in d.ignition <==> AddressListed(net, v.api, Some("private"), x)
    ensures forall x :: x in d.ingress <==> AddressListed(net, v.ingress, None, x)
    ensures ok <==> AllParse(net, v.api) && AllParse(net, v.ingress)
  {
    var api: set<Addr>, ignition: set<Addr>, ingress: set<Addr> := {}, {}, {};
    ok := true;
    for i := 0 to |v.api|
      invariant api == Addresses(net, v.api[..i]) && ignition == AddressesOfKind(net, v.api[..i], PRIVATE)
      invariant ok <==> AllParse(net, v.api[..i])
    {
      assert v.api[..i + 1] == v.api[..i] + [v.api[i]];
      AddressesMore(net, v.api[..i], v.api[i]);
      var addr := ParseVIP(net, v.api[i]);
      if addr.Some? {
        api := api + {addr.value.addr};
        if v.api[i].kind == PRIVATE {
          ignition := ignition + {addr.value.addr};
        }
      } else {
        ok := false;
      }
    }
    for i := 0 to |v.ingress|
      invariant ingress == Addresses(net, v.ingress[..i])
      invariant ok <==> AllParse(net, v.api) && AllParse(net, v.ingress[..i])
    {
      assert v.ingress[..i + 1] == v.ingress[..i] + [v.ingress[i]];
      AddressesMore(net, v.ingress[..i], v.ingress[i]);
      var addr := ParseVIP(net, v.ingress[i]);
      if addr.Some? {
        ingress := ingress + {addr.value.addr};
      } else {
        ok := false;
      }
    }
    assert v.api[..|v.api|] == v.api && v.ingress[..|v.ingress|] == v.ingress;
    var a := SortedKeys(api, ITSELF);
    var g := SortedKeys(ignition, ITSELF);
    var n := SortedKeys(ingress, ITSELF);
    d := FrontendData(a, g, n);
    FrontendMembers(net, v, d);
    DistinctAscends(a);
    DistinctAscends(g);
    DistinctAscends(n);
  }

  lemma FrontendMembers(net: Net, v: VIPs, d: FrontendData)
    requires Frontends(net, v, d)
    ensures forall x :: x in d.api <==> AddressListed(net, v.api, None, x)
    ensures forall x :: x in d.ignition <==> AddressListed(net, v.api, Some("private"), x)
    ensures forall x :: x in d.ingress <==> AddressListed(net, v.ingress, None, x)
  {
    forall x
      ensures x in d.api <==> AddressListed(net, v.api, None, x)
      ensures x in d.ignition <==> AddressListed(net, v.api, Some("private"), x)
      ensures x in d.ingress <==> AddressListed(net, v.ingress, None, x)
    {
      assert x in d.api <==> x in Elems(d.api);
      assert x in d.ignition <==> x in Elems(d.ignition);
      assert x in d.ingress <==> x in Elems(d.ingress);
      AddressesListed(net, v.api, x);
      AddressesListed(net, v.ingress, x);
    }
  }

  lemma AddressesListed(net: Net, list: seq<VirtualAddress>, x: Addr)
    ensures x in Addresses(net, list) <==> AddressListed(net, list, None, x)
    ensures x in AddressesOfKind(net, list, PRIVATE) <==> AddressListed(net, list, Some("private"), x)
  {
    if a, p :| a in list && net.parse(a.address) == Some(p) && FullLength(p) && p.addr == x {
      assert ParseVIP(net, a) == Some(p);
    }
    if a, p :| a in list && a.kind == "private" && net.parse(a.address) == Some(p) && FullLength(p) && p.addr == x {
      assert ParseVIP(net, a) == Some(p);
    }
    if a :| a in list && ParseVIP(net, a).Some? && ParseVIP(net, a).value.addr == x {
      assert net.parse(a.address) == Some(ParseVIP(net, a).value);
    }
    if a :| a in list && a.kind == PRIVATE && ParseVIP(net, a).Some? && ParseVIP(net, a).value.addr == x {
      assert net.parse(a.address) == Some(ParseVIP(net, a).value);
    }
  }

  lemma DistinctAscends(s: seq<Addr>)
    requires Distinct(s) && Sorted(s, ITSELF)
    ensures AscendingAddrs(s)
  {
    SortedInOrder(s, ITSELF);
    forall i, j | 0 <= i < j < |s| ensures InOrder(s[i], s[j]) && s[i] != s[j] {
      assert InOrder(ITSELF(s[i]), ITSELF(s[j]));
    }
  }

  lemma AddressesMore(net: Net, list: seq<VirtualAddress>, a: VirtualAddress)
    ensures Addresses(net, list + [a]) == Addresses(net, list) +
            (if ParseVIP(net, a).Some? then {ParseVIP(net, a).value.addr} else {})
    ensures AddressesOfKind(net, list + [a], PRIVATE) == AddressesOfKind(net, list, PRIVATE) +
            (if ParseVIP(net, a).Some? && a.kind == PRIVATE then {ParseVIP(net, a).value.addr} else {})
    ensures AllParse(net, list + [a]) <==> AllParse(net, list) && ParseVIP(net, a).Some?
  {
    assert forall x :: x in list + [a] <==> x in list || x == a;
  }

  /** The frontends are a function of the sets of virtual addresses. */
  lemma FrontendsCanonical(net: Net, v: VIPs, w: VIPs, d: FrontendData, e: FrontendData)
    requires Elems(v.api) == Elems(w.api) && Elems(v.ingress) == Elems(w.ingress)
    requires Frontends(net, v, d) && Frontends(net, w, e)
    ensures d == e
  {
    forall a ensures (a in v.api <==> a in w.api) && (a in v.ingress <==> a in w.ingress) {
      assert a in Elems(v.api) <==> a in Elems(w.api);
      assert a in Elems(v.ingress) <==> a in Elems(w.ingress);
    }
    assert Addresses(net, v.api) == Addresses(net, w.api) && Addresses(net, v.ingress) == Addresses(net, w.ingress);
    assert AddressesOfKind(net, v.api, PRIVATE) == AddressesOfKind(net, w.api, PRIVATE);
    SameArrangement(Addresses(net, v.api), ITSELF, d.api, e.api);
    SameArrangement(AddressesOfKind(net, v.api, PRIVATE), ITSELF, d.ignition, e.ignition);
    SameArrangement(Addresses(net, v.ingress), ITSELF, d.ingress, e.ingress);
  }

  // ---------------------------------------------------------------------
  // Every listener is owned
  // ---------------------------------------------------------------------

  ghost function AddrsIn(r: seq<Prefix>): set<Addr> {
    set p | p in r :: p.addr
  }

  ghost function Binds(d: FrontendData): set<Addr> {
    Elems(d.api) + Elems(d.ingress)
  }

  ghost predicate Owned(d: FrontendData, keepalived: seq<Prefix>, floaty: seq<Prefix>) {
    Binds(d) <= AddrsIn(keepalived) + AddrsIn(floaty)
  }

  /** The address occurs with an admitted type, for API, ingress or NAT. */
  ghost predicate HasOwner(net: Net, v: VIPs, x: Addr) {
    exists b :: b in All(v) && KnownKind(b) && ParseVIP(net, b).Some? && ParseVIP(net, b).value.addr == x
  }

  /** Every address that HAProxy binds is owned by Keepalived or Floaty if and only
      if each API and ingress address also occurs with an admitted type, or is one
      of the extras; so always when all types are admitted. */
  lemma OwnedExactly(net: Net, v: VIPs, extras: seq<Prefix>, d: FrontendData, keepalived: seq<Prefix>, floaty: seq<Prefix>)
    requires Frontends(net, v, d)
    requires Arrangement(VIPSet(net, v, PRIVATE, extras), BY_ADDR, keepalived)
    requires Arrangement(VIPSet(net, v, PUBLIC, []), BY_ADDR, floaty)
    ensures Owned(d, keepalived, floaty) <==>
            forall a :: a in v.api + v.ingress && ParseVIP(net, a).Some? ==>
              ParseVIP(net, a).value.addr in AddrsIn(extras) ||
              HasOwner(net, v, ParseVIP(net, a).value.addr)
    ensures (forall a :: a in v.api + v.ingress ==> KnownKind(a)) ==> Owned(d, keepalived, floaty)
  {
    var owned := AddrsIn(keepalived) + AddrsIn(floaty);
    ListAddrs(VIPSet(net, v, PRIVATE, extras), keepalived);
    ListAddrs(VIPSet(net, v, PUBLIC, []), floaty);
    forall x ensures x in owned <==>
      x in AddrsIn(extras) || HasOwner(net, v, x)
    {
      OwnersOf(net, v, extras, x);
    }
    BindsOf(net, v, d);
    assert forall a :: a in v.api + v.ingress ==> a in All(v);
  }

  lemma ListAddrs(s: set<Prefix>, r: seq<Prefix>)
    requires Elems(r) == s
    ensures AddrsIn(r) == set p | p in s :: p.addr
  {
    assert forall p :: p in r <==> p in s;
  }

  lemma OwnersOf(net: Net, v: VIPs, extras: seq<Prefix>, x: Addr)
    ensures x in (set p | p in VIPSet(net, v, PRIVATE, extras) :: p.addr) + (set p | p in VIPSet(net, v, PUBLIC, []) :: p.addr)
       <==> x in AddrsIn(extras) || HasOwner(net, v, x)
  {
    if HasOwner(net, v, x) {
      var b :| b in All(v) && KnownKind(b) && ParseVIP(net, b).Some? && ParseVIP(net, b).value.addr == x;
      assert ParseVIP(net, b).value in VIPSet(net, v, if b.kind == PRIVATE then PRIVATE else PUBLIC, extras);
    }
  }

  lemma BindsOf(net: Net, v: VIPs, d: FrontendData)
    requires Frontends(net, v, d)
    ensures Binds(d) == Addresses(net, v.api + v.ingress)
  {
    assert forall a :: a in v.api + v.ingress <==> a in v.api || a in v.ingress;
  }

  /** The ignition frontend binds API addresses only, and Keepalived owns them. */
  lemma IgnitionIsPrivate(net: Net, v: VIPs, extras: seq<Prefix>, d: FrontendData, keepalived: seq<Prefix>)
    requires Frontends(net, v, d)
    requires Arrangement(VIPSet(net, v, PRIVATE, extras), BY_ADDR, keepalived)
    ensures Elems(d.ignition) <= Elems(d.api) && Elems(d.ignition) <= AddrsIn(keepalived)
  {
    ListAddrs(VIPSet(net, v, PRIVATE, extras), keepalived);
    forall x | x in Elems(d.ignition) ensures x in AddrsIn(keepalived) && x in Elems(d.api) {
      var a :| a in v.api && a.kind == PRIVATE && ParseVIP(net, a).Some? && ParseVIP(net, a).value.addr == x;
      assert a in All(v);
      assert ParseVIP(net, a).value in VIPSet(net, v, PRIVATE, extras);
    }
  }

  // ---------------------------------------------------------------------
  // The split by family
  // ---------------------------------------------------------------------

  function Family(ps: seq<Prefix>, v4: bool): seq<Prefix> {
    if ps == [] then []
    else Family(DropLast(ps), v4) + (if Last(ps).addr.V4? == v4 then [Last(ps)] else [])
  }

  /** The loop in front of the NetworkManager and Firewalld templates. */
  method SplitFamilies(vips: seq<Prefix>) returns (vips4: seq<Prefix>, vips6: seq<Prefix>)
    ensures vips4 == Family(vips, true) && vips6 == Family(vips, false)
  {
    vips4, vips6 := [], [];
    for i := 0 to |vips|
      invariant vips4 == Family(vips[..i], true) && vips6 == Family(vips[..i], false)
    {
      assert DropLast(vips[..i + 1]) == vips[..i];
      if vips[i].addr.V4? {
        vips4 := vips4 + [vips[i]];
      } else {
        vips6 := vips6 + [vips[i]];
      }
    }
    assert vips[..|vips|] == vips;
  }

  lemma {:induction false} OneFamily(ps: seq<Prefix>)
    requires forall p :: p in ps ==> p.addr.V4?
    ensures Family(ps, false) == []
  {
    if ps != [] {
      assert Last(ps) in ps;
      assert forall p :: p in DropLast(ps) ==> p in ps;
      OneFamily(DropLast(ps));
    }
  }

  lemma FourBeforeSix(ps: seq<Prefix>)
    requires ps != [] && Sorted(ps, BY_ADDR) && Last(ps).addr.V4?
    requires forall p :: p in ps ==> ValidPrefix(p)
    ensures forall p :: p in DropLast(ps) ==> p.addr.V4?
  {
    forall i | 0 <= i < |ps| - 1 ensures ps[i].addr.V4? {
      assert ps[i] in ps;
      assert Leq(BY_ADDR(ps[i]), BY_ADDR(ps[|ps| - 1]));
    }
  }

  lemma Rotate(a: seq<Prefix>, b: seq<Prefix>, p: Prefix)
    ensures (a + []) + (b + [p]) == (a + b) + [p]
  {
  }

  /** Split refines the sort: addresses are compared by family first, so of a sorted
      list of VIPs the split loses nothing, not even the order. */
  lemma {:induction false} SplitKeepsOrder(vips: seq<Prefix>)
    requires Sorted(vips, BY_ADDR) && forall p :: p in vips ==> ValidPrefix(p)
    ensures Family(vips, true) + Family(vips, false) == vips
  {
    if vips != [] {
      var front, p := DropLast(vips), Last(vips);
      SplitKeepsOrder(front);
      assert vips == front + [p];
      if p.addr.V4? {
        FourBeforeSix(vips);
        OneFamily(front);
        assert Family(front, true) == front;
      } else {
        Rotate(Family(front, true), Family(front, false), p);
      }
    }
  }
}
