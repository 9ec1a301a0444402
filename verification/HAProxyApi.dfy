/** The HAProxy configuration of the API servers: which servers are chosen, the
    printer of the OpenShift template, a parser, and what the text determines. */
module HAProxyApi {
  import opened Prelude
  import opened Text
  import opened Netip
  import opened Sorting
  import opened Vips

  // ---------------------------------------------------------------------
  // getHAProxyBackends
  // ---------------------------------------------------------------------

  const INTERNAL_IP := "InternalIP"

  datatype NodeAddress = NodeAddress(kind: string, address: string)

  datatype ClusterNode = ClusterNode(name: string, addresses: seq<NodeAddress>)

  datatype Backend = Backend(name: string, address: string)

  /** `a` is the first internal address of the node. */
  ghost predicate FirstInternal(n: ClusterNode, a: string) {
    exists j :: 0 <= j < |n.addresses| && n.addresses[j] == NodeAddress("InternalIP", a) &&
                forall k :: 0 <= k < j ==> n.addresses[k].kind != "InternalIP"
  }

  ghost predicate HasInternal(n: ClusterNode) {
    exists j :: 0 <= j < |n.addresses| && n.addresses[j].kind == "InternalIP"
  }

  /** The backends stand, in the order of the nodes, for exactly the nodes with an
      internal address: backend `k` for node `picks[k]`. */
  ghost predicate Selection(nodes: seq<ClusterNode>, picks: seq<nat>, backends: seq<Backend>) {
    && |picks| == |backends|
    && (forall j, k :: 0 <= j < k < |picks| ==> picks[j] < picks[k])
    && (forall k :: 0 <= k < |picks| ==>
          picks[k] < |nodes| && backends[k].name == nodes[picks[k]].name &&
          FirstInternal(nodes[picks[k]], backends[k].address))
    && (forall i :: 0 <= i < |nodes| && HasInternal(nodes[i]) ==> i in picks)
  }

  ghost predicate Selected(nodes: seq<ClusterNode>, backends: seq<Backend>) {
    exists picks :: Selection(nodes, picks, backends)
  }

  method GetHAProxyBackends(nodes: seq<ClusterNode>) returns (backends: seq<Backend>)
    ensures Selected(nodes, backends)
  {
    backends := [];
    ghost var picks: seq<nat> := [];
    for i := 0 to |nodes|
      invariant Selection(nodes[..i], picks, backends)
    {
      var node := nodes[i];
      ghost var before, old_picks := backends, picks;
      for j := 0 to |node.addresses|
        invariant backends == before && picks == old_picks
        invariant forall k :: 0 <= k < j ==> node.addresses[k].kind != INTERNAL_IP
      {
        var addr := node.addresses[j];
        if addr.kind == INTERNAL_IP {
          backends := backends + [Backend(node.name, addr.address)];
          picks := picks + [i];
          assert node.addresses[j] == NodeAddress(INTERNAL_IP, addr.address);
          break;
        }
      }
      SelectionMore(nodes[..i], node, old_picks, before, picks, backends);
      assert nodes[..i + 1] == nodes[..i] + [node];
    }
    assert nodes[..|nodes|] == nodes;
  }

  lemma SelectionMore(nodes: seq<ClusterNode>, n: ClusterNode, picks: seq<nat>, backends: seq<Backend>,
                      picks': seq<nat>, backends': seq<Backend>)
    requires Selection(nodes, picks, backends)
    requires
      || (!HasInternal(n) && picks' == picks && backends' == backends)
      || (exists a :: FirstInternal(n, a) && picks' == picks + [|nodes|] && backends' == backends + [Backend(n.name, a)])
    ensures Selection(nodes + [n], picks', backends')
  {
    var all := nodes + [n];
    forall i | 0 <= i < |all| && HasInternal(all[i]) ensures i in picks' {
      if i < |nodes| {
        assert all[i] == nodes[i];
        assert i in picks;
      } else {
        assert Last(picks') == i;
      }
    }
  }

  lemma FirstInternalUnique(n: ClusterNode, a: string, b: string)
    requires FirstInternal(n, a) && FirstInternal(n, b)
    ensures a == b
  {
  }

  /** The selection is a function of the node list: same list, same backends. */
  lemma SelectedUnique(nodes: seq<ClusterNode>, a: seq<Backend>, b: seq<Backend>)
    requires Selected(nodes, a) && Selected(nodes, b)
    ensures a == b
  {
    var p :| Selection(nodes, p, a);
    var q :| Selection(nodes, q, b);
    AscendingPicks(p, q);
    forall k | 0 <= k < |a| ensures a[k] == b[k] {
      FirstInternalUnique(nodes[p[k]], a[k].address, b[k].address);
    }
  }

  lemma FirstIsIn<T>(s: seq<T>)
    ensures s == [] || exists x :: x in s && x == s[0]
  {
    if s != [] { assert s[0] in s; }
  }

  /** Two ascending sequences with the same elements are the same. */
  lemma {:induction false} AscendingPicks(p: seq<nat>, q: seq<nat>)
    requires forall j, k :: 0 <= j < k < |p| ==> p[j] < p[k]
    requires forall j, k :: 0 <= j < k < |q| ==> q[j] < q[k]
    requires forall i :: i in p <==> i in q
    ensures p == q
  {
    FirstIsIn(p);
    FirstIsIn(q);
    if p != [] {
      assert Last(p) in q;
      assert Last(q) in p;
      assert Last(p) == Last(q);
      forall i ensures i in DropLast(p) <==> i in DropLast(q) {
        assert i in DropLast(p) <==> i in p && i != Last(p);
        assert i in DropLast(q) <==> i in q && i != Last(q);
      }
      AscendingPicks(DropLast(p), DropLast(q));
      assert p == DropLast(p) + [Last(p)] && q == DropLast(q) + [Last(q)];
    }
  }

  // ---------------------------------------------------------------------
  // The template
  // ---------------------------------------------------------------------

  const FE_API: seq<string> := ["frontend fe-api", "  mode tcp", "  default_backend be-api"]
  const FE_IGN: seq<string> := ["", "frontend fe-ign", "  mode tcp", "  default_backend be-ign"]
  const BE_API: seq<string> := ["", "backend be-api", "  option httpchk GET /readyz"]
  const BE_IGN: seq<string> := ["", "backend be-ign", "  balance roundrobin"]

  const BIND := "  bind "
  const SERVER := "  server "
  const OPTIONS := " check check-ssl verify none" + " resolvers localdns"
  const API_PORT := ":6443"
  const IGN_PORT := ":22623"

  function BindLine(port: string, addr: string): string {
    BIND + (addr + port)
  }

  function BindLines(port: string, addrs: seq<string>): seq<string> {
    seq(|addrs|, i requires 0 <= i < |addrs| => BindLine(port, addrs[i]))
  }

  function ServerName(i: nat): string {
    "server_" + Decimal(i)
  }

  function ServerLine(port: string, i: nat, addr: string): string {
    SERVER + (ServerName(i) + ([' '] + (addr + (port + OPTIONS))))
  }

  function ServerLines(port: string, addrs: seq<string>): seq<string> {
    seq(|addrs|, i requires 0 <= i < |addrs| => ServerLine(port, i, addrs[i]))
  }

  function BackendPart(addrs: seq<string>): seq<string> {
    BE_API + (ServerLines(API_PORT, addrs) + (BE_IGN + (ServerLines(IGN_PORT, addrs) + [])))
  }

  /** The template, of the texts of the addresses to bind and of the servers. */
  function Printed(api: seq<string>, ignition: seq<string>, addrs: seq<string>): string {
    Unlines(FE_API + (BindLines(API_PORT, api) + (FE_IGN + (BindLines(IGN_PORT, ignition) + BackendPart(addrs)))))
  }

  // ---------------------------------------------------------------------
  // Reading it back
  // ---------------------------------------------------------------------

  datatype Server = Server(name: string, address: string)

  datatype ApiConfig = ApiConfig(
    api: seq<string>,
    ignition: seq<string>,
    apiServers: seq<Server>,
    ignitionServers: seq<Server>)

  function ReadBind(port: string, line: string): Option<string> {
    match Strip(BIND, line)
    case None => None
    case Some(s) => StripEnd(s, port)
  }

  function ReadBinds(port: string, ls: seq<string>): Option<seq<string>> {
    AllSome(seq(|ls|, i requires 0 <= i < |ls| => ReadBind(port, ls[i])))
  }

  function ReadServer(port: string, line: string): Option<Server> {
    match Strip(SERVER, line)
    case None => None
    case Some(s) =>
      match StripEnd(After(s, ' '), port + OPTIONS)
      case None => None
      case Some(addr) => Some(Server(Before(s, ' '), addr))
  }

  function ReadServers(port: string, ls: seq<string>): Option<seq<Server>> {
    AllSome(seq(|ls|, i requires 0 <= i < |ls| => ReadServer(port, ls[i])))
  }

  function ParseBackends(api: seq<string>, ignition: seq<string>, ls: seq<string>): Option<ApiConfig> {
    match Section(BE_API, SERVER, ls)
    case None => None
    case Some((first, rest)) =>
      match Section(BE_IGN, SERVER, rest)
      case None => None
      case Some((second, end)) =>
        var servers, others := ReadServers(API_PORT, first), ReadServers(IGN_PORT, second);
        if end == [] && servers.Some? && others.Some? then Some(ApiConfig(api, ignition, servers.value, others.value))
        else None
  }

  function Parse(s: string): Option<ApiConfig> {
    match Section(FE_API, BIND, Lines(s))
    case None => None
    case Some((first, rest)) =>
      match Section(FE_IGN, BIND, rest)
      case None => None
      case Some((second, end)) =>
        var api, ignition := ReadBinds(API_PORT, first), ReadBinds(IGN_PORT, second);
        if api.Some? && ignition.Some? then ParseBackends(api.value, ignition.value, end)
        else None
  }

  /** The servers of a list of addresses, numbered from 0. */
  function Servers(addrs: seq<string>): (r: seq<Server>)
    ensures |r| == |addrs|
  {
    seq(|addrs|, i requires 0 <= i < |addrs| => Server(ServerName(i), addrs[i]))
  }

  /** No two servers of a backend have the same name. */
  lemma ServerNamesDistinct(addrs: seq<string>, i: nat, j: nat)
    requires i < j < |addrs|
    ensures Servers(addrs)[i].name != Servers(addrs)[j].name
  {
    NatOfDecimal(i);
    NatOfDecimal(j);
    StripJoined("server_", Decimal(i));
    StripJoined("server_", Decimal(j));
  }

  lemma ReadBindLine(port: string, addr: string)
    ensures ReadBind(port, BindLine(port, addr)) == Some(addr) && BIND <= BindLine(port, addr)
    ensures OneLine(addr) && OneLine(port) ==> OneLine(BindLine(port, addr))
  {
    StripJoined(BIND, addr + port);
    StripJoined(addr, port);
  }

  lemma ReadBindLines(port: string, addrs: seq<string>)
    requires OneLine(port)
    ensures ReadBinds(port, BindLines(port, addrs)) == Some(addrs)
    ensures forall l :: l in BindLines(port, addrs) ==> BIND <= l
    ensures (forall a :: a in addrs ==> OneLine(a)) ==> forall l :: l in BindLines(port, addrs) ==> OneLine(l)
  {
    var ls := BindLines(port, addrs);
    forall i | 0 <= i < |addrs|
      ensures ReadBind(port, ls[i]) == Some(addrs[i]) && BIND <= ls[i] && (OneLine(addrs[i]) ==> OneLine(ls[i]))
    {
      ReadBindLine(port, addrs[i]);
    }
    AllSomeOf(seq(|ls|, i requires 0 <= i < |ls| => ReadBind(port, ls[i])), addrs);
  }

  lemma ReadServerLine(port: string, i: nat, addr: string)
    ensures ReadServer(port, ServerLine(port, i, addr)) == Some(Server(ServerName(i), addr))
    ensures SERVER <= ServerLine(port, i, addr)
  {
    var name, tail := ServerName(i), port + OPTIONS;
    NameIsWord(i);
    StripJoined(SERVER, name + ([' '] + (addr + tail)));
    CutAt(name, ' ', addr + tail);
    StripJoined(addr, tail);
  }

  lemma NameIsWord(i: nat)
    ensures ' ' !in ServerName(i) && OneLine(ServerName(i))
  {
    DecimalHasNo(i, ' ');
    DecimalHasNo(i, '\n');
  }

  lemma ServerLineIsLine(port: string, i: nat, addr: string)
    requires OneLine(addr) && OneLine(port)
    ensures OneLine(ServerLine(port, i, addr))
  {
    NameIsWord(i);
    OneLineJoined(" check check-ssl verify none", " resolvers localdns");
    OneLineJoined(port, OPTIONS);
    OneLineJoined(addr, port + OPTIONS);
    OneLineJoined([' '], addr + (port + OPTIONS));
    OneLineJoined(ServerName(i), [' '] + (addr + (port + OPTIONS)));
  }

  lemma ReadServerLines(port: string, addrs: seq<string>)
    requires OneLine(port)
    ensures ReadServers(port, ServerLines(port, addrs)) == Some(Servers(addrs))
    ensures forall l :: l in ServerLines(port, addrs) ==> SERVER <= l
    ensures (forall a :: a in addrs ==> OneLine(a)) ==> forall l :: l in ServerLines(port, addrs) ==> OneLine(l)
  {
    var ls := ServerLines(port, addrs);
    forall i | 0 <= i < |addrs|
      ensures ReadServer(port, ls[i]) == Some(Servers(addrs)[i]) && SERVER <= ls[i] && (OneLine(addrs[i]) ==> OneLine(ls[i]))
    {
      ReadServerLine(port, i, addrs[i]);
      if OneLine(addrs[i]) { ServerLineIsLine(port, i, addrs[i]); }
    }
    AllSomeOf(seq(|ls|, i requires 0 <= i < |ls| => ReadServer(port, ls[i])), Servers(addrs));
  }

  lemma HeadsAreLines()
    ensures forall l :: l in FE_API || l in FE_IGN || l in BE_API || l in BE_IGN ==> OneLine(l)
  {
  }

  lemma ParseBackendPart(api: seq<string>, ignition: seq<string>, addrs: seq<string>)
    ensures ParseBackends(api, ignition, BackendPart(addrs)) ==
            Some(ApiConfig(api, ignition, Servers(addrs), Servers(addrs)))
  {
    var a, b := ServerLines(API_PORT, addrs), ServerLines(IGN_PORT, addrs);
    ReadServerLines(API_PORT, addrs);
    ReadServerLines(IGN_PORT, addrs);
    SectionOf(BE_IGN, SERVER, b, []);
    assert (BE_IGN + (b + []))[0] == "";
    SectionOf(BE_API, SERVER, a, BE_IGN + (b + []));
  }

  /** HAProxy API text round trip: for lists of any length the text gives back the
      addresses to bind and, in both backends, the same servers in order. */
  lemma RoundTrip(api: seq<string>, ignition: seq<string>, addrs: seq<string>)
    requires forall a :: a in api || a in ignition || a in addrs ==> OneLine(a)
    ensures Parse(Printed(api, ignition, addrs)) == Some(ApiConfig(api, ignition, Servers(addrs), Servers(addrs)))
  {
    var a, g, end := BindLines(API_PORT, api), BindLines(IGN_PORT, ignition), BackendPart(addrs);
    ReadBindLines(API_PORT, api);
    ReadBindLines(IGN_PORT, ignition);
    PartsAreLines(api, ignition, addrs);
    LinesOfUnlines(FE_API + (a + (FE_IGN + (g + end))));
    assert end[0] == "";
    SectionOf(FE_IGN, BIND, g, end);
    assert (FE_IGN + (g + end))[0] == "";
    SectionOf(FE_API, BIND, a, FE_IGN + (g + end));
    ParseBackendPart(api, ignition, addrs);
  }

  lemma PartsAreLines(api: seq<string>, ignition: seq<string>, addrs: seq<string>)
    requires forall a :: a in api || a in ignition || a in addrs ==> OneLine(a)
    ensures forall l :: l in FE_API + (BindLines(API_PORT, api) + (FE_IGN + (BindLines(IGN_PORT, ignition) + BackendPart(addrs))))
              ==> OneLine(l)
  {
    HeadsAreLines();
    ReadBindLines(API_PORT, api);
    ReadBindLines(IGN_PORT, ignition);
    ReadServerLines(API_PORT, addrs);
    ReadServerLines(IGN_PORT, addrs);
  }

  lemma BindsSpelled(addrs: seq<string>)
    ensures BindLines(API_PORT, addrs) == seq(|addrs|, i requires 0 <= i < |addrs| => "  bind " + (addrs[i] + ":6443"))
    ensures BindLines(IGN_PORT, addrs) == seq(|addrs|, i requires 0 <= i < |addrs| => "  bind " + (addrs[i] + ":22623"))
  {
  }

  /** One server line of the template. */
  function SpelledServer(i: nat, addr: string, port: string): string {
    "  server " + (("server_" + Decimal(i)) + (" " + (addr + (port + (" check check-ssl verify none" + " resolvers localdns")))))
  }

  lemma ServersSpelled(addrs: seq<string>)
    ensures ServerLines(API_PORT, addrs) ==
            seq(|addrs|, i requires 0 <= i < |addrs| => SpelledServer(i, addrs[i], ":6443"))
    ensures ServerLines(IGN_PORT, addrs) ==
            seq(|addrs|, i requires 0 <= i < |addrs| => SpelledServer(i, addrs[i], ":22623"))
  {
  }

  /** The lines of the text, spelled out. */
  lemma LinesSpelled(api: seq<string>, ignition: seq<string>, addrs: seq<string>)
    requires forall a :: a in api || a in ignition || a in addrs ==> OneLine(a)
    ensures Lines(Printed(api, ignition, addrs)) ==
            ["frontend fe-api", "  mode tcp", "  default_backend be-api"] +
            (seq(|api|, i requires 0 <= i < |api| => "  bind " + (api[i] + ":6443")) +
            (["", "frontend fe-ign", "  mode tcp", "  default_backend be-ign"] +
            (seq(|ignition|, i requires 0 <= i < |ignition| => "  bind " + (ignition[i] + ":22623")) +
            (["", "backend be-api", "  option httpchk GET /readyz"] +
            (seq(|addrs|, i requires 0 <= i < |addrs| => SpelledServer(i, addrs[i], ":6443")) +
            (["", "backend be-ign", "  balance roundrobin"] +
             seq(|addrs|, i requires 0 <= i < |addrs| => SpelledServer(i, addrs[i], ":22623"))))))))
  {
    PartsAreLines(api, ignition, addrs);
    LinesOfUnlines(FE_API + (BindLines(API_PORT, api) + (FE_IGN + (BindLines(IGN_PORT, ignition) + BackendPart(addrs)))));
    BindsSpelled(api);
    BindsSpelled(ignition);
    ServersSpelled(addrs);
    assert ServerLines(IGN_PORT, addrs) + [] == ServerLines(IGN_PORT, addrs);
  }

  lemma ServersDetermine(a: seq<string>, b: seq<string>)
    requires Servers(a) == Servers(b)
    ensures a == b
  {
    assert |a| == |Servers(a)| == |Servers(b)| == |b|;
    forall i | 0 <= i < |a| ensures a[i] == b[i] {
      assert Servers(a)[i] == Servers(b)[i];
    }
  }

  // ---------------------------------------------------------------------
  // From the configuration to the text
  // ---------------------------------------------------------------------

  function AddrTexts(net: Net, s: seq<Addr>): seq<string> {
    seq(|s|, i requires 0 <= i < |s| => net.text(s[i]))
  }

  function BackendAddresses(bs: seq<Backend>): seq<string> {
    seq(|bs|, i requires 0 <= i < |bs| => bs[i].address)
  }

  function ApiText(net: Net, d: FrontendData, bs: seq<Backend>): string {
    Printed(AddrTexts(net, d.api), AddrTexts(net, d.ignition), BackendAddresses(bs))
  }

  /** RenderHAProxyAPIConfig for the OpenShift distribution; backends that are given
      replace those of the cluster's nodes, which then need not be listed. */
  method RenderHAProxyAPIConfig(net: Net, v: VIPs, localBackends: Option<seq<Backend>>, nodes: Result<seq<ClusterNode>>)
    returns (r: Result<string>)
    ensures r.Ok? <==> AllParse(net, v.api) && AllParse(net, v.ingress) && (localBackends.Some? || nodes.Ok?)
    ensures r.Ok? && localBackends.Some? ==>
              exists d :: Frontends(net, v, d) && r.value == ApiText(net, d, localBackends.value)
    ensures r.Ok? && localBackends.None? ==>
              exists d, bs :: Frontends(net, v, d) && Selected(nodes.value, bs) && r.value == ApiText(net, d, bs)
  {
    var frontends, ok := GetHAProxyFrontends(net, v);
    if !ok { return Err("failed to prepare ingress HAProxy frontends"); }
    var backends: seq<Backend> := [];
    if localBackends.Some? {
      backends := localBackends.value;
    } else {
      if nodes.Err? { return Err("failed to prepare ingress HAProxy backends"); }
      backends := GetHAProxyBackends(nodes.value);
    }
    r := Ok(ApiText(net, frontends, backends));
    assert Frontends(net, v, frontends) && r.value == ApiText(net, frontends, backends);
  }

  ghost predicate ValidAddrs(d: FrontendData) {
    forall a :: a in d.api || a in d.ignition ==> !a.Zero?
  }

  lemma AddrTextsDetermine(net: Net, s: seq<Addr>, t: seq<Addr>)
    requires Lawful(net) && (forall a :: a in s ==> !a.Zero?) && (forall a :: a in t ==> !a.Zero?)
    requires AddrTexts(net, s) == AddrTexts(net, t)
    ensures s == t
  {
    assert |s| == |AddrTexts(net, s)| == |AddrTexts(net, t)| == |t|;
    forall i | 0 <= i < |s| ensures s[i] == t[i] {
      assert s[i] in s && t[i] in t;
      assert AddrTexts(net, s)[i] == AddrTexts(net, t)[i];
    }
  }

  lemma FrontendsValid(net: Net, v: VIPs, d: FrontendData)
    requires Frontends(net, v, d)
    ensures ValidAddrs(d)
  {
    forall a | a in d.api || a in d.ignition ensures !a.Zero? {
      assert a in Elems(d.api) || a in Elems(d.ignition);
      var x :| x in v.api && ParseVIP(net, x).Some? && ParseVIP(net, x).value.addr == a;
    }
  }

  lemma ApiTextReads(net: Net, d: FrontendData, bs: seq<Backend>)
    requires Lawful(net) && ValidAddrs(d) && forall b :: b in bs ==> OneLine(b.address)
    ensures Parse(ApiText(net, d, bs)) == Some(ApiConfig(AddrTexts(net, d.api), AddrTexts(net, d.ignition),
              Servers(BackendAddresses(bs)), Servers(BackendAddresses(bs))))
  {
    forall i | 0 <= i < |bs| ensures OneLine(BackendAddresses(bs)[i]) {
      assert bs[i] in bs;
    }
    forall s, i | s in {d.api, d.ignition} && 0 <= i < |s| ensures OneLine(AddrTexts(net, s)[i]) {
      assert s[i] in s;
    }
    RoundTrip(AddrTexts(net, d.api), AddrTexts(net, d.ignition), BackendAddresses(bs));
  }

  /** Two configurations with their backends get the same text exactly when they have
      the same API addresses, the same private API addresses, and the same
      addresses of backends in the same order. */
  lemma ApiTextExactly(net: Net, v: VIPs, w: VIPs, d: FrontendData, e: FrontendData, bs: seq<Backend>, cs: seq<Backend>)
    requires Lawful(net) && Frontends(net, v, d) && Frontends(net, w, e)
    requires forall b :: b in bs || b in cs ==> OneLine(b.address)
    ensures ApiText(net, d, bs) == ApiText(net, e, cs)
       <==> Addresses(net, v.api) == Addresses(net, w.api) &&
            AddressesOfKind(net, v.api, PRIVATE) == AddressesOfKind(net, w.api, PRIVATE) &&
            BackendAddresses(bs) == BackendAddresses(cs)
  {
    FrontendsValid(net, v, d);
    FrontendsValid(net, w, e);
    if ApiText(net, d, bs) == ApiText(net, e, cs) {
      ApiTextReads(net, d, bs);
      ApiTextReads(net, e, cs);
      AddrTextsDetermine(net, d.api, e.api);
      AddrTextsDetermine(net, d.ignition, e.ignition);
      ServersDetermine(BackendAddresses(bs), BackendAddresses(cs));
    }
    if Addresses(net, v.api) == Addresses(net, w.api) &&
       AddressesOfKind(net, v.api, PRIVATE) == AddressesOfKind(net, w.api, PRIVATE) {
      SameArrangement(Addresses(net, v.api), ITSELF, d.api, e.api);
      SameArrangement(AddressesOfKind(net, v.api, PRIVATE), ITSELF, d.ignition, e.ignition);
    }
  }
}
