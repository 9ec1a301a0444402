/** From the specification to the services: a change of the virtual addresses is
    never missed, a mere reordering is never acted upon, and what a service has
    loaded names the virtual addresses of the specification. */
module EndToEnd {
  import opened Prelude
  import opened FilePair
  import opened Files
  import opened FinalConfig
  import opened Netip
  import opened Pass
  import opened Vips
  import Cluster
  import Controller
  import HAProxyApi
  import Faults
  import Lane
  import NMConnection
  import Runs
  import Text

  /** A pass at whose start the saved hash of file `f` is that of the text `a`, and
      which renders `b` for it. */
  ghost predicate Poised(env: Env, w: Work, inputs: seq<Input>, f: ConfigFile, a: string, b: string) {
    |inputs| == COUNT && w.updated == {} && !w.failed &&
    HashOf(w.hashes, f) == env.sha(a) &&
    inputs[Position(f)].text == Some(b) && NoCollision(env.sha, {a, b})
  }

  /** What the whole pass leaves for file `f` after rendering `b`. */
  ghost predicate Rewritten(env: Env, gen: int, w: Work, inputs: seq<Input>, f: ConfigFile, b: string)
    requires |inputs| == COUNT
  {
    var r := Steps(env, gen, w, inputs, COUNT);
    ServiceOf(f) in r.updated &&
    PairOf(r.pairs, f) == Pair(Some(env.final(f, gen, b)), Some(env.sha(env.final(f, gen, b)))) &&
    HashOf(r.hashes, f) == env.sha(b)
  }

  ghost predicate Untouched(env: Env, gen: int, w: Work, inputs: seq<Input>, f: ConfigFile)
    requires |inputs| == COUNT
  {
    !Reloads(env, gen, w, inputs, f) && SameFile(Steps(env, gen, w, inputs, COUNT), w, f)
  }

  predicate Intact(env: Env, w: Work, f: ConfigFile) {
    Accepted(env.sha, PairOf(w.pairs, f))
  }

  /** Whatever the other steps of the pass do: a step without error writes the new
      text and marks its service when the text or the file has changed, and does
      nothing when neither has. */
  lemma TextChange(env: Env, gen: int, w: Work, inputs: seq<Input>, f: ConfigFile, a: string, b: string)
    requires Poised(env, w, inputs, f, a, b) && !Fails(env, gen, w, inputs, f)
    ensures a != b || !Intact(env, w, f) ==> Rewritten(env, gen, w, inputs, f, b)
    ensures a == b && Intact(env, w, f) ==> Untouched(env, gen, w, inputs, f)
  {
    Isolation(env, gen, w, inputs);
    assert Reloads(env, gen, w, inputs, f) <==> a != b || !Intact(env, w, f);
  }

  /** Missed-change freedom for the public VIPs: NetworkManager is reloaded with the
      new list when the set of public VIPs has changed since the last saved pass,
      whatever is on disk, and nothing happens when the specification was only
      reordered and the file is intact. */
  lemma PublicVIPChange(env: Env, gen: int, w: Work, inputs: seq<Input>, net: Net, v: VIPs, v': VIPs)
    requires Lawful(net)
    requires Poised(env, w, inputs, KeepalivedDummyNM,
               NMConnection.DummyText(net, PublicList(net, v)), NMConnection.DummyText(net, PublicList(net, v')))
    requires !Fails(env, gen, w, inputs, KeepalivedDummyNM)
    ensures VIPSet(net, v, PUBLIC, []) != VIPSet(net, v', PUBLIC, []) ==>
              Rewritten(env, gen, w, inputs, KeepalivedDummyNM, NMConnection.DummyText(net, PublicList(net, v'))) &&
              NetworkManager in Steps(env, gen, w, inputs, COUNT).updated
    ensures VIPSet(net, v, PUBLIC, []) == VIPSet(net, v', PUBLIC, []) && Intact(env, w, KeepalivedDummyNM) ==>
              Untouched(env, gen, w, inputs, KeepalivedDummyNM)
  {
    NMConnection.DummyTextExactly(net, v, v');
    TextChange(env, gen, w, inputs, KeepalivedDummyNM,
               NMConnection.DummyText(net, PublicList(net, v)), NMConnection.DummyText(net, PublicList(net, v')));
  }

  /** The same for the listeners and servers of the API: HAProxy is reloaded when an
      API address, its privacy, or the addresses or the order of the backends have
      changed, and nothing happens otherwise if the file is intact. */
  lemma APIChange(env: Env, gen: int, w: Work, inputs: seq<Input>, net: Net, v: VIPs, v': VIPs,
                  d: FrontendData, d': FrontendData, bs: seq<HAProxyApi.Backend>, bs': seq<HAProxyApi.Backend>)
    requires Lawful(net) && Frontends(net, v, d) && Frontends(net, v', d')
    requires forall b :: b in bs || b in bs' ==> Text.OneLine(b.address)
    requires Poised(env, w, inputs, HAProxyAPI, HAProxyApi.ApiText(net, d, bs), HAProxyApi.ApiText(net, d', bs'))
    requires !Fails(env, gen, w, inputs, HAProxyAPI)
    ensures var same := Addresses(net, v.api) == Addresses(net, v'.api) &&
                        AddressesOfKind(net, v.api, PRIVATE) == AddressesOfKind(net, v'.api, PRIVATE) &&
                        HAProxyApi.BackendAddresses(bs) == HAProxyApi.BackendAddresses(bs');
            (!same ==> Rewritten(env, gen, w, inputs, HAProxyAPI, HAProxyApi.ApiText(net, d', bs')) &&
                       HAProxy in Steps(env, gen, w, inputs, COUNT).updated) &&
            (same && Intact(env, w, HAProxyAPI) ==> Untouched(env, gen, w, inputs, HAProxyAPI))
  {
    HAProxyApi.ApiTextExactly(net, v, v', d, d', bs, bs');
    TextChange(env, gen, w, inputs, HAProxyAPI, HAProxyApi.ApiText(net, d, bs), HAProxyApi.ApiText(net, d', bs'));
  }

  /** The final texts are those of RenderFinalConfig under the root "/". */
  ghost predicate Finalizes(env: Env, id: Identity) {
    forall f, gen, text :: env.final(f, gen, text) == RenderFinalConfig(ConfigPath("/", f), id, gen, text)
  }

  /** A controller under the root "/" makes these final texts. */
  lemma ReconcilerFinalizes(r: Controller.Reconciler, id: Identity)
    requires r.Valid() && r.root == "/"
    ensures Finalizes(r.EnvFor(id), id)
  {
  }

  /** The controller's own final texts are readable, as the exact fault theorems ask:
      those of different texts differ. */
  lemma FinalTextsReadable(env: Env, id: Identity, f: ConfigFile)
    requires Finalizes(env, id) && WellFormed(id)
    ensures Faults.Readable(FinalOf(env, f))
  {
    forall g, x, h, y | FinalOf(env, f)(g, x) == FinalOf(env, f)(h, y) ensures x == y {
      FinalRoundTrip(ConfigPath("/", f), id, g, x);
      FinalRoundTrip(ConfigPath("/", f), id, h, y);
    }
  }

  /** The texts are those of the addresses, each with the full length of its family. */
  ghost predicate Shows(net: Net, texts: seq<string>, r: seq<Prefix>) {
    |texts| == |r| &&
    forall i :: 0 <= i < |r| ==> texts[i] == net.text(r[i].addr) + (if r[i].addr.V4? then "/32" else "/128")
  }

  lemma TextsShow(net: Net, r: seq<Prefix>)
    requires forall p :: p in r ==> FullLength(p)
    ensures Shows(net, NMConnection.Texts(net, r), r)
  {
    forall i | 0 <= i < |r|
      ensures NMConnection.Texts(net, r)[i] == net.text(r[i].addr) + (if r[i].addr.V4? then "/32" else "/128")
    {
      assert r[i] in r;
      SingleText(net, r[i]);
    }
  }

  /** The text for a specification shows exactly its public VIPs, in ascending order. */
  lemma TextShowsVIPs(net: Net, v: VIPs)
    requires Lawful(net)
    ensures var connection := NMConnection.Parse(NMConnection.DummyText(net, PublicList(net, v)));
            connection.Some? && Shows(net, NMConnection.Listing(connection.value), PublicList(net, v))
    ensures Ascending(PublicList(net, v)) && forall p :: p in PublicList(net, v) <==> Listed(net, v, "public", p)
  {
    NMConnection.PublicListed(net, v);
    ListMembers(net, v, PUBLIC, [], PublicList(net, v));
    hide NMConnection.DummyText, NMConnection.Parse, NMConnection.Listing, NMConnection.Texts, PublicList, Shows;
    NMConnection.DummyTextReads(net, PublicList(net, v));
    TextsShow(net, PublicList(net, v));
  }

  /** Composition: in every run of any number of hosts in which a live host suffers
      crashes and rejected status updates only, with texts that never return, when
      the host is about to send its status after a pass that rendered the public
      VIPs without error, NetworkManager has loaded a file that names the
      LoadBalancerConfig and lists exactly the public VIPs of its specification,
      in ascending order. */
  lemma LoadedVIPs(env: Env, c: Cluster.State, es: seq<Cluster.Event>, h: string, id: Identity, net: Net, v: VIPs)
    requires IsSha(env.sha) && Cluster.Idle(c) && Cluster.Valid(env, c, es) && h in c.hosts && c.hosts[h].live
    requires forall e :: e in es ==> Runs.CrashesOnly(e, h)
    requires Cluster.Stored(Cluster.NodesOf(c), h, KeepalivedDummyNM) == ""
    requires Runs.Forward(env, c, es, h, KeepalivedDummyNM)
    requires Cluster.Enabled(Cluster.Run(env, c, es), Cluster.Update(h))
    requires Finalizes(env, id) && WellFormed(id) && Lawful(net)
    requires var done := Cluster.Run(env, c, es).hosts[h].progress.value.done;
             Lookup(done, KeepalivedDummyNM) == Some(NMConnection.DummyText(net, PublicList(net, v)))
    ensures var loaded := Lookup(Cluster.Run(env, c, es).hosts[h].loaded, KeepalivedDummyNM);
            loaded.Some? &&
            (var file := ParseFinal(loaded.value);
             file.Some? && file.value.id == id &&
             (var connection := NMConnection.Parse(file.value.body);
              connection.Some? && Shows(net, NMConnection.Listing(connection.value), PublicList(net, v))))
    ensures Ascending(PublicList(net, v)) && forall p :: p in PublicList(net, v) <==> Listed(net, v, "public", p)
  {
    hide Cluster.Idle, Runs.Forward, Runs.CrashesOnly, NMConnection.DummyText, NMConnection.Parse, Listed, Ascending;
    hide RenderFinalConfig, ParseFinal, ConfigPath, WellFormed, Lawful, Shows, PublicList;
    var host := Cluster.Run(env, c, es).hosts[h];
    var text := NMConnection.DummyText(net, PublicList(net, v));
    assert KeepalivedDummyNM in host.progress.value.done;
    Runs.LoadedFileAtUpdate(env, c, es, h, KeepalivedDummyNM);
    var gen := WrittenAt(env, PairOf(host.pairs, KeepalivedDummyNM), KeepalivedDummyNM, text);
    FinalRoundTrip(ConfigPath("/", KeepalivedDummyNM), id, gen, text);
    TextShowsVIPs(net, v);
  }

  lemma WrittenAt(env: Env, p: Pair, f: ConfigFile, text: string) returns (gen: int)
    requires Lane.Holds(FinalOf(env, f), p, text)
    ensures p.cfg == Some(env.final(f, gen, text))
  {
    gen :| p.cfg == Some(FinalOf(env, f)(gen, text));
  }

  // ---------------------------------------------------------------------
  // Specifications that the controller cannot render
  // ---------------------------------------------------------------------

  /** Rendering the file dereferences a part of the specification that is missing. */
  predicate Panics(v: VIPs, ingressBackend: bool, f: ConfigFile) {
    (f == HAProxyIngress && !ingressBackend) || (f == DirectRules && v.natVIP.None?)
  }

  /** The passes of host `h` find its addresses and render this specification. */
  ghost predicate Renders(env: Env, c: Cluster.State, es: seq<Cluster.Event>, h: string, v: VIPs, ingressBackend: bool)
    requires Cluster.Valid(env, c, es)
  {
    es == [] ||
    (Renders(env, c, DropLast(es), h, v, ingressBackend) &&
     var e := Last(es);
     ((e.Begin? || e.BeginStale?) && e.host == h ==> e.facts.Some?) &&
     (e.FileStep? && e.host == h ==>
       Panics(v, ingressBackend, FileAt(Cluster.Run(env, c, DropLast(es)).hosts[h].progress.value.next)) ==> e.crash))
  }

  lemma {:induction false} RendersPanics(env: Env, c: Cluster.State, es: seq<Cluster.Event>, h: string,
                                         v: VIPs, ingressBackend: bool, f: ConfigFile)
    requires Cluster.Valid(env, c, es) && Renders(env, c, es, h, v, ingressBackend) && Panics(v, ingressBackend, f)
    ensures Cluster.PanicsAt(env, c, es, h, Position(f))
  {
    if es != [] {
      RendersPanics(env, c, DropLast(es), h, v, ingressBackend, f);
      if Last(es).FileStep? && Last(es).host == h {
        OrderIsBijective(Cluster.Run(env, c, DropLast(es)).hosts[h].progress.value.next, f);
      }
    }
  }

  /** A specification without an ingress backend or without a NAT address: in every run
      a host that renders it never reloads a service and never changes its entry. */
  lemma IncompleteSpecification(env: Env, c: Cluster.State, es: seq<Cluster.Event>, h: string, v: VIPs, ingressBackend: bool)
    requires Cluster.Idle(c) && Cluster.Valid(env, c, es) && h in c.hosts
    requires Renders(env, c, es, h, v, ingressBackend)
    requires !ingressBackend || v.natVIP.None?
    ensures var r := Cluster.Run(env, c, es);
            h in r.hosts && r.hosts[h].loaded == c.hosts[h].loaded &&
            Lookup(Cluster.NodesOf(r), h) == Lookup(Cluster.NodesOf(c), h)
  {
    var f := if !ingressBackend then HAProxyIngress else DirectRules;
    RendersPanics(env, c, es, h, v, ingressBackend, f);
    Cluster.PanickingHost(env, c, es, h, Position(f));
  }
}
