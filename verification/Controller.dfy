/** The controller as it changes its objects: the file system of the host, the
    entries of the status map, the config hashes and the set of updated services. */
module Controller {
  import opened Prelude
  import opened FilePair
  import opened Files
  import opened FinalConfig
  import opened Pass
  import opened Status
  import Cluster
  import Internal
  import Lane
  import Netip
  import Paths

  /** The host: its files by path, and what its services have read. */
  class Machine {
    var files: map<string, string>
    ghost var loaded: map<ConfigFile, string>

    constructor (files: map<string, string>)
      ensures this.files == files && loaded == map[]
    {
      this.files := files;
      loaded := map[];
    }
  }

  /** One entry of the status map. A nil hash map is None; its keys, the names of
      the files, are pairwise different (Files.NamesDistinct). */
  class NodeStatus {
    var publicIP: string
    var privateIP: string
    var vrrpIP: string
    var configHashes: Option<map<ConfigFile, string>>
    var status: string

    constructor ()
      ensures View() == EMPTY_NODE == Node("", "", "", map[], "")
    {
      publicIP, privateIP, vrrpIP, status := "", "", "", "";
      configHashes := None;
    }

    ghost function View(): Node
      reads this
    {
      Node(publicIP, privateIP, vrrpIP, if configHashes.Some? then configHashes.value else map[], status)
    }
  }

  /** A LoadBalancerConfig as it was read from the API server. */
  class LoadBalancerConfig {
    const id: Identity
    const generation: int
    var nodes: Option<map<string, NodeStatus>>

    /** Decoding gives every host an entry of its own. */
    ghost predicate Valid()
      reads this
    {
      nodes.Some? ==>
        forall h, k :: h in nodes.value && k in nodes.value && h != k ==> nodes.value[h] != nodes.value[k]
    }
  }

  /** Where the config and digest files are: configfilePath and digestfilePath. */
  datatype Layout = Layout(config: ConfigFile -> string, digest: ConfigFile -> string) {
    /** No two of the files coincide. */
    ghost predicate Apart() {
      && (forall f, g :: config(f) == config(g) ==> f == g)
      && (forall f, g :: digest(f) == digest(g) ==> f == g)
      && (forall f, g :: config(f) != digest(g))
    }
  }

  function LayoutUnder(root: string): Layout {
    Layout(f => ConfigPath(root, f), f => DigestPath(root, f))
  }

  /** RenderFinalConfig on the path of a file. */
  function FinalUnder(root: string): (ConfigFile, Identity, int, string) -> string {
    (f, id, gen, text) => RenderFinalConfig(ConfigPath(root, f), id, gen, text)
  }

  /** A file under the root "/" or any other names its LoadBalancerConfig and carries
      the rendered text. */
  lemma FinalUnderParses(root: string, f: ConfigFile, id: Identity, gen: int, text: string)
    requires WellFormed(id)
    ensures ParseFinal(FinalUnder(root)(f, id, gen, text)) == Some(Parsed(id, gen, text))
  {
    FinalRoundTrip(ConfigPath(root, f), id, gen, text);
  }

  lemma ConfigsApart(root: string)
    ensures forall f, g :: ConfigPath(root, f) == ConfigPath(root, g) ==> f == g
  {
    forall f, g | ConfigPath(root, f) == ConfigPath(root, g) ensures f == g { PathsDistinct(root, f, g); }
  }

  lemma DigestsApart(root: string)
    ensures forall f, g :: DigestPath(root, f) == DigestPath(root, g) ==> f == g
  {
    forall f, g | DigestPath(root, f) == DigestPath(root, g) ensures f == g { PathsDistinct(root, f, g); }
  }

  lemma KindsApart(root: string)
    ensures forall f, g :: ConfigPath(root, f) != DigestPath(root, g)
  {
    forall f, g ensures ConfigPath(root, f) != DigestPath(root, g) { PathsDistinct(root, f, g); }
  }

  /** Under any config root the twenty-two files are different. */
  lemma LayoutApart(root: string)
    ensures LayoutUnder(root).Apart()
  {
    ConfigsApart(root);
    DigestsApart(root);
    KindsApart(root);
  }

  function PairAt(files: map<string, string>, l: Layout, f: ConfigFile): Pair {
    Pair(Lookup(files, l.config(f)), Lookup(files, l.digest(f)))
  }

  /** The pairs of the managed files. */
  ghost function PairsOf(files: map<string, string>, l: Layout): (r: Pairs)
    ensures forall f :: f in r
  {
    map f: ConfigFile | true :: PairAt(files, l, f)
  }

  lemma PairsPut(files: map<string, string>, files': map<string, string>, l: Layout, f: ConfigFile, p: Pair)
    requires forall g :: PairAt(files', l, g) == if g == f then p else PairAt(files, l, g)
    ensures PairsOf(files', l) == PairsOf(files, l)[f := p]
  {
  }

  /** The files after a write of `contents` that stops at `o`. */
  function FilesWritten(sha: Sha, files: map<string, string>, l: Layout, f: ConfigFile, contents: string, o: Outcome):
    map<string, string>
  {
    var n := if o.FailsWriteConfig? then Min(o.n, |contents|) else |contents|;
    var m := if o.FailsWriteDigest? then Min(o.n, |sha(contents)|) else |sha(contents)|;
    if o.FailsMkdir? || o.FailsOpenConfig? then files
    else if ReachesDigest(o) then files[l.config(f) := contents[..n]][l.digest(f) := sha(contents)[..m]]
    else files[l.config(f) := contents[..n]]
  }

  lemma FilesWrittenOwn(sha: Sha, files: map<string, string>, l: Layout, f: ConfigFile, contents: string, o: Outcome)
    requires l.Apart()
    ensures PairAt(FilesWritten(sha, files, l, f, contents, o), l, f)
            == Written(sha, PairAt(files, l, f), contents, o)
  {
    assert l.config(f) != l.digest(f);
    assert contents[..|contents|] == contents;
    assert sha(contents)[..|sha(contents)|] == sha(contents);
  }

  lemma FilesWrittenOther(sha: Sha, files: map<string, string>, l: Layout, f: ConfigFile, contents: string, o: Outcome, p: string)
    requires p != l.config(f) && p != l.digest(f)
    ensures Lookup(FilesWritten(sha, files, l, f, contents, o), p) == Lookup(files, p)
  {
  }

  lemma FilesWrittenOthers(sha: Sha, files: map<string, string>, l: Layout, f: ConfigFile, contents: string, o: Outcome)
    ensures forall p :: p != l.config(f) && p != l.digest(f) ==>
              Lookup(FilesWritten(sha, files, l, f, contents, o), p) == Lookup(files, p)
  {
  }

  lemma FilesWrittenPairs(sha: Sha, files: map<string, string>, l: Layout, f: ConfigFile, contents: string, o: Outcome)
    requires l.Apart()
    ensures PairsOf(FilesWritten(sha, files, l, f, contents, o), l)
            == PairsOf(files, l)[f := Written(sha, PairsOf(files, l)[f], contents, o)]
  {
    var files' := FilesWritten(sha, files, l, f, contents, o);
    var p := Written(sha, PairAt(files, l, f), contents, o);
    FilesWrittenOwn(sha, files, l, f, contents, o);
    forall g | g != f ensures PairAt(files', l, g) == PairAt(files, l, g) {
      FilesWrittenOther(sha, files, l, f, contents, o, l.config(g));
      FilesWrittenOther(sha, files, l, f, contents, o, l.digest(g));
    }
    PairsPut(files, files', l, f, p);
  }

  lemma SameEntry<V>(m: map<string, V>, k: string)
    requires k in m
    ensures m[k := m[k]] == m
  {
  }

  lemma NothingLoaded(pairs: Pairs, loaded: map<ConfigFile, string>)
    ensures Cluster.Loaded(pairs, loaded, {}) == loaded
  {
  }

  /** What the services have read after some reloads, file by file. */
  lemma LoadedSpelled(pairs: Pairs, loaded: map<ConfigFile, string>, ss: set<Service>, f: ConfigFile)
    ensures Lookup(Cluster.Loaded(pairs, loaded, ss), f) ==
            if ServiceOf(f) in ss then PairOf(pairs, f).cfg else Lookup(loaded, f)
  {
  }

  lemma OneMoreLoaded(pairs: Pairs, loaded: map<ConfigFile, string>, ss: set<Service>, s: Service)
    ensures Cluster.Loaded(pairs, Cluster.Loaded(pairs, loaded, ss), {s}) == Cluster.Loaded(pairs, loaded, ss + {s})
  {
  }

  class Reconciler {
    const sha: Sha
    const layout: Layout
    const render: (ConfigFile, Identity, int, string) -> string
    const live: bool
    const root: string
    const host: string
    const net: Netip.Net
    const clusterNetwork: Netip.Prefix
    const isPrimary: bool
    const machine: Machine

    constructor (sha: Sha, root: string, host: string, net: Netip.Net, clusterNetwork: Netip.Prefix, isPrimary: bool,
                 machine: Machine)
      ensures Valid()
      ensures this.sha == sha && this.root == root && this.host == host && this.machine == machine
      ensures this.net == net && this.clusterNetwork == clusterNetwork && this.isPrimary == isPrimary
    {
      this.sha, this.root, this.host, this.machine := sha, root, host, machine;
      this.net, this.clusterNetwork, this.isPrimary := net, clusterNetwork, isPrimary;
      layout, render, live := LayoutUnder(root), FinalUnder(root), root == "/";
      LayoutApart(root);
    }

    ghost predicate Valid() {
      layout.Apart() && Rooted()
    }

    /** Paths, final texts and reloads are those of the config root. */
    ghost predicate Rooted() {
      layout == LayoutUnder(root) && render == FinalUnder(root) && live == (root == "/")
    }

    /** The config file, at the root joined with its name, is the final text of
        `configdata` for this object, and the file beside it is its digest. */
    ghost predicate Carries(id: Identity, generation: int, f: ConfigFile, configdata: string)
      reads machine`files
    {
      var path := Paths.Join(root, Name(f));
      path in machine.files && path + ".sha256" in machine.files &&
      machine.files[path + ".sha256"] == sha(machine.files[path]) &&
      (WellFormed(id) ==> ParseFinal(machine.files[path]) == Some(Parsed(id, generation, configdata)))
    }

    /** Among these files the config file of `f` and, beside it, its digest. */
    predicate Intact(files: map<string, string>, f: ConfigFile) {
      var path := Paths.Join(root, Name(f));
      path in files && path + ".sha256" in files && files[path + ".sha256"] == sha(files[path])
    }

    lemma IntactExactly(files: map<string, string>, f: ConfigFile)
      requires Valid()
      ensures Accepted(sha, PairsOf(files, layout)[f]) <==> Intact(files, f)
    {
      hide Name, Paths.Join;
      assert layout.config(f) == Paths.Join(root, Name(f));
      assert layout.digest(f) == Paths.Join(root, Name(f)) + ".sha256";
    }

    lemma CarriesWritten(id: Identity, generation: int, f: ConfigFile, configdata: string)
      requires Valid()
      requires var final := EnvFor(id).final(f, generation, configdata);
               PairAt(machine.files, layout, f) == Pair(Some(final), Some(sha(final)))
      ensures Carries(id, generation, f, configdata)
    {
      hide Name, Paths.Join, FinalUnder, ParseFinal;
      if WellFormed(id) { FinalUnderParses(root, f, id, generation, configdata); }
      assert layout.config(f) == Paths.Join(root, Name(f));
      assert layout.digest(f) == Paths.Join(root, Name(f)) + ".sha256";
    }

    ghost function EnvFor(id: Identity): Env {
      Env(sha, (f, gen, text) => render(f, id, gen, text))
    }

    ghost function Pairs(): Pairs
      reads machine`files
    {
      PairsOf(machine.files, layout)
    }

    /** WriteConfig; `o` says where it stops. Only the two files of `f` change. */
    method WriteConfig(id: Identity, generation: int, f: ConfigFile, configdata: string, o: Outcome)
      returns (failed: bool)
      requires Valid()
      modifies machine`files
      ensures failed == !o.Completes?
      ensures Pairs() == old(Pairs())[f := Written(sha, old(Pairs())[f], EnvFor(id).final(f, generation, configdata), o)]
      ensures forall p :: p != layout.config(f) && p != layout.digest(f) ==>
                Lookup(machine.files, p) == Lookup(old(machine.files), p)
      ensures !failed ==> Carries(id, generation, f, configdata)
    {
      hide Rooted, Carries, WellFormed;
      var contents := render(f, id, generation, configdata);
      failed := WriteContents(f, contents, o);
      if !failed {
        assert Pairs()[f] == PairAt(machine.files, layout, f);
        CarriesWritten(id, generation, f, configdata);
      }
    }

    /** The part of WriteConfig after the final text is made. */
    method WriteContents(f: ConfigFile, contents: string, o: Outcome) returns (failed: bool)
      requires layout.Apart()
      modifies machine`files
      ensures failed == !o.Completes?
      ensures Pairs() == old(Pairs())[f := Written(sha, old(Pairs())[f], contents, o)]
      ensures forall p :: p != layout.config(f) && p != layout.digest(f) ==>
                Lookup(machine.files, p) == Lookup(old(machine.files), p)
    {
      hide Written, PairsOf;
      var cfgfilepath, digestfilepath := layout.config(f), layout.digest(f);
      ghost var files := machine.files;
      FilesWrittenPairs(sha, files, layout, f, contents, o);
      FilesWrittenOthers(sha, files, layout, f, contents, o);
      if o.FailsMkdir? || o.FailsOpenConfig? {
        return true;
      }
      machine.files := machine.files[cfgfilepath := ""];
      var n := if o.FailsWriteConfig? then Min(o.n, |contents|) else |contents|;
      machine.files := machine.files[cfgfilepath := contents[..n]];
      assert machine.files == files[cfgfilepath := contents[..n]];
      if o.FailsWriteConfig? || o.FailsCloseConfig? || o.FailsOpenDigest? {
        return true;
      }
      machine.files := machine.files[digestfilepath := ""];
      var digest := sha(contents);
      var m := if o.FailsWriteDigest? then Min(o.n, |digest|) else |digest|;
      machine.files := machine.files[digestfilepath := digest[..m]];
      assert machine.files == files[cfgfilepath := contents[..n]][digestfilepath := digest[..m]];
      return !o.Completes?;
    }

    /** IsFileModified. */
    method IsFileModified(f: ConfigFile) returns (modified: bool)
      requires Valid()
      ensures modified <==> !Accepted(sha, Pairs()[f])
      ensures modified <==> !Intact(machine.files, f)
    {
      IntactExactly(machine.files, f);
      hide Rooted, Intact;
      var config := Lookup(machine.files, layout.config(f));
      if config.None? { return true; }
      var stored := Lookup(machine.files, layout.digest(f));
      if stored.None? { return true; }
      return sha(config.value) != stored.value;
    }

    /** The status map has an entry for this host. */
    ghost predicate Listed(cfg: LoadBalancerConfig)
      reads cfg
    {
      cfg.Valid() && cfg.nodes.Some? && host in cfg.nodes.value
    }

    ghost function Entry(cfg: LoadBalancerConfig): NodeStatus
      requires Listed(cfg)
      reads cfg
    {
      cfg.nodes.value[host]
    }

    /** CompareAndWrite: the hash is recorded before the write is tried. */
    method CompareAndWrite(cfg: LoadBalancerConfig, f: ConfigFile, configdata: string, o: Outcome)
      returns (changed: bool, failed: bool)
      requires Valid() && Listed(cfg)
      modifies cfg, Entry(cfg), machine`files
      ensures cfg.nodes == old(cfg.nodes)
      ensures var c := CompareFile(EnvFor(cfg.id), cfg.generation, old(Pairs()), old(Entry(cfg).View().hashes), f, configdata, o);
              (changed, failed) == (c.changed, c.failed) &&
              Pairs() == (if c.changed then old(Pairs())[f := c.pair] else old(Pairs())) &&
              Entry(cfg).View() == old(Entry(cfg).View()).(hashes := if c.changed
                then old(Entry(cfg).View().hashes)[f := c.hash] else old(Entry(cfg).View().hashes))
      ensures changed <==> !(old(Intact(machine.files, f)) && HashOf(old(Entry(cfg).View().hashes), f) == sha(configdata))
      ensures HashOf(Entry(cfg).View().hashes, f) == sha(configdata)
      ensures changed && !failed ==> Carries(cfg.id, cfg.generation, f, configdata)
    {
      hide PairsOf, Written, Accepted, Rooted, Carries, Intact;
      var nodeStatus := cfg.nodes.value[host];
      ghost var pairs, node := Pairs(), nodeStatus.View();
      ghost var c := CompareFile(EnvFor(cfg.id), cfg.generation, pairs, node.hashes, f, configdata, o);
      assert PairOf(pairs, f) == pairs[f];
      if nodeStatus.configHashes.None? {
        nodeStatus.configHashes := Some(map[]);
      }
      var dataDigest := sha(configdata);
      var isDiskModified := IsFileModified(f);
      if !isDiskModified && HashOf(nodeStatus.configHashes.value, f) == dataDigest {
        assert c == Lane.Compared(pairs[f], dataDigest, false, false);
        return false, false;
      }
      assert c == Lane.Compared(Written(sha, pairs[f], render(f, cfg.id, cfg.generation, configdata), o),
                                dataDigest, true, !o.Completes?);
      nodeStatus.configHashes := Some(nodeStatus.configHashes.value[f := dataDigest]);
      SameEntry(cfg.nodes.value, host);
      cfg.nodes := Some(cfg.nodes.value[host := nodeStatus]);
      failed := WriteConfig(cfg.id, cfg.generation, f, configdata, o);
      changed := true;
    }

    /** The state of a pass as a value. */
    ghost function WorkNow(cfg: LoadBalancerConfig, updated: set<Service>, done: map<ConfigFile, string>,
                           errors: seq<string>): Work
      requires Listed(cfg)
      reads cfg, Entry(cfg), machine`files
    {
      Work(Pairs(), Entry(cfg).View().hashes, updated, done, errors != [])
    }

    /** Everything in the host's entry but its hashes. */
    ghost function Fixed(cfg: LoadBalancerConfig): Node
      requires Listed(cfg)
      reads cfg, Entry(cfg)
    {
      Entry(cfg).View().(hashes := map[])
    }

    /** One component of ReconcileLBConfig: render, compare and write, and record
        either an error or the service to reload. */
    method Component(cfg: LoadBalancerConfig, f: ConfigFile, i: Input, updated: set<Service>,
                     ghost done: map<ConfigFile, string>, errors: seq<string>)
      returns (updated': set<Service>, ghost done': map<ConfigFile, string>, errors': seq<string>)
      requires Valid() && Listed(cfg)
      modifies cfg, Entry(cfg), machine`files
      ensures cfg.nodes == old(cfg.nodes) && Fixed(cfg) == old(Fixed(cfg))
      ensures WorkNow(cfg, updated', done', errors')
              == FileStep(EnvFor(cfg.id), cfg.generation, old(WorkNow(cfg, updated, done, errors)), f, i)
    {
      hide Lane.CompareAndWrite, Written, PairsOf, PairOf, HashOf, Accepted, Rooted, Carries, Intact;
      updated', done', errors' := updated, done, errors;
      if i.text.None? {
        errors' := errors + ["failed to render"];
        return;
      }
      var changed, failed := CompareAndWrite(cfg, f, i.text.value, i.o);
      if failed {
        errors' := errors + ["failed to write"];
        done' := done - {f};
      } else {
        if changed {
          updated' := updated + {ServiceOf(f)};
        }
        done' := done[f := i.text.value];
      }
    }

    /** The addresses that InitializeNodeStatus enters, if the cluster network has
        internal addresses and all lookups succeed. */
    function Found(lookups: Lookups): (r: Option<Facts>)
      ensures r.Some? <==> Internal.IsNetwork(clusterNetwork) && lookups.publicIP.Some? && lookups.privateIP.Some?
    {
      var ips := Internal.InternalIPsOf(clusterNetwork);
      if ips.Err? || lookups.publicIP.None? || lookups.privateIP.None? then None
      else Some(Facts(lookups.publicIP.value, lookups.privateIP.value, net.text(Internal.MyInternalIP(ips.value, isPrimary))))
    }

    /** The entry has the address of the public interface, that of the cluster
        interface, and the internal address of the host's role: the second address of
        the network on the primary host, the third on the other one. */
    ghost predicate Addressed(n: Node, lookups: Lookups) {
      Some(n.publicIP) == lookups.publicIP && Some(n.privateIP) == lookups.privateIP &&
      (Internal.IsNetwork(clusterNetwork) && clusterNetwork.bits <= 30 ==>
        forall m: nat :: Internal.StartsAt(clusterNetwork, m) ==>
          m + 3 < 0x1_0000_0000 && n.vrrpIP == net.text(Netip.V4(m + if isPrimary then 2 else 3)))
    }

    lemma FoundAddressed(lookups: Lookups, n: Node)
      requires Found(lookups).Some?
      ensures Addressed(Configuring(n, Found(lookups).value), lookups)
    {
      hide Internal.InternalIPsOf, Internal.StartsAt, Internal.MyInternalIP;
      if clusterNetwork.bits <= 30 {
        forall m: nat | Internal.StartsAt(clusterNetwork, m)
          ensures m + 3 < 0x1_0000_0000
          ensures Found(lookups).value.vrrpIP == net.text(Netip.V4(m + if isPrimary then 2 else 3))
        {
          Internal.AddressByRole(clusterNetwork, isPrimary, m);
        }
      }
    }

    /** InitializeNodeStatus, given what is found on the host's interfaces. */
    method InitializeNodeStatus(cfg: LoadBalancerConfig, lookups: Lookups) returns (failed: bool)
      requires cfg.Valid() && (cfg.nodes.Some? ==> host in cfg.nodes.value)
      modifies cfg, if cfg.nodes.Some? then {cfg.nodes.value[host]} else {}
      ensures Listed(cfg) && failed == Found(lookups).None?
      ensures old(cfg.nodes).Some? ==> cfg.nodes == old(cfg.nodes)
      ensures old(cfg.nodes).None? ==> cfg.nodes.value.Keys == {host} && fresh(Entry(cfg))
      ensures var before := if old(cfg.nodes).None? then EMPTY_NODE else old(cfg.nodes.value[host].View());
              Entry(cfg).View() == if failed then before else Configuring(before, Found(lookups).value)
      ensures !failed ==> Addressed(Entry(cfg).View(), lookups) && Entry(cfg).status == "Configuring"
    {
      if cfg.nodes.None? {
        var entry := new NodeStatus();
        cfg.nodes := Some(map[host := entry]);
      }
      var internalIPs := Internal.InternalIPsOf(clusterNetwork);
      if internalIPs.Err? { return true; }
      if lookups.publicIP.None? { return true; }
      if lookups.privateIP.None? { return true; }
      var node := cfg.nodes.value[host];
      FoundAddressed(lookups, node.View());
      node.status := CONFIGURING;
      node.publicIP := lookups.publicIP.value;
      node.privateIP := lookups.privateIP.value;
      node.vrrpIP := net.text(Internal.MyInternalIP(internalIPs.value, isPrimary));
      return false;
    }

    /** A component at its place in a pass that began with `w`. */
    method ComponentAt(cfg: LoadBalancerConfig, f: ConfigFile, inputs: seq<Input>, updated: set<Service>,
                       ghost done: map<ConfigFile, string>, errors: seq<string>, ghost n: nat, ghost w: Work)
      returns (updated': set<Service>, ghost done': map<ConfigFile, string>, errors': seq<string>, ghost next: nat)
      requires Valid() && Listed(cfg) && |inputs| == COUNT && n == Position(f)
      requires WorkNow(cfg, updated, done, errors) == Steps(EnvFor(cfg.id), cfg.generation, w, inputs, n)
      modifies cfg, Entry(cfg), machine`files
      ensures cfg.nodes == old(cfg.nodes) && Fixed(cfg) == old(Fixed(cfg)) && next == n + 1
      ensures WorkNow(cfg, updated', done', errors') == Steps(EnvFor(cfg.id), cfg.generation, w, inputs, next)
    {
      hide FileStep;
      OrderIsBijective(n, f);
      next := n + 1;
      updated', done', errors' := Component(cfg, f, inputs[Position(f)], updated, done, errors);
    }

    /** The components for HAProxy. */
    method ReconcileHAProxy(cfg: LoadBalancerConfig, inputs: seq<Input>, updated: set<Service>,
                  ghost done: map<ConfigFile, string>, errors: seq<string>, ghost n: nat, ghost w: Work)
      returns (updated': set<Service>, ghost done': map<ConfigFile, string>, errors': seq<string>, ghost next: nat)
      requires Valid() && Listed(cfg) && |inputs| == COUNT && n == 0
      requires WorkNow(cfg, updated, done, errors) == Steps(EnvFor(cfg.id), cfg.generation, w, inputs, n)
      modifies cfg, Entry(cfg), machine`files
      ensures cfg.nodes == old(cfg.nodes) && Fixed(cfg) == old(Fixed(cfg)) && next == 2
      ensures WorkNow(cfg, updated', done', errors') == Steps(EnvFor(cfg.id), cfg.generation, w, inputs, next)
    {
      hide FileStep, Steps;
      updated', done', errors', next := updated, done, errors, n;
      updated', done', errors', next := ComponentAt(cfg, HAProxyAPI, inputs, updated', done', errors', next, w);
      updated', done', errors', next := ComponentAt(cfg, HAProxyIngress, inputs, updated', done', errors', next, w);
    }

    /** The components for Keepalived and Floaty. */
    method ReconcileKeepalived(cfg: LoadBalancerConfig, inputs: seq<Input>, updated: set<Service>,
                  ghost done: map<ConfigFile, string>, errors: seq<string>, ghost n: nat, ghost w: Work)
      returns (updated': set<Service>, ghost done': map<ConfigFile, string>, errors': seq<string>, ghost next: nat)
      requires Valid() && Listed(cfg) && |inputs| == COUNT && n == 2
      requires WorkNow(cfg, updated, done, errors) == Steps(EnvFor(cfg.id), cfg.generation, w, inputs, n)
      modifies cfg, Entry(cfg), machine`files
      ensures cfg.nodes == old(cfg.nodes) && Fixed(cfg) == old(Fixed(cfg)) && next == 4
      ensures WorkNow(cfg, updated', done', errors') == Steps(EnvFor(cfg.id), cfg.generation, w, inputs, next)
    {
      hide FileStep, Steps;
      updated', done', errors', next := updated, done, errors, n;
      updated', done', errors', next := ComponentAt(cfg, KeepalivedConf, inputs, updated', done', errors', next, w);
      updated', done', errors', next := ComponentAt(cfg, Floaty, inputs, updated', done', errors', next, w);
    }

    /** The components for NetworkManager. */
    method ReconcileNetworkManager(cfg: LoadBalancerConfig, inputs: seq<Input>, updated: set<Service>,
                  ghost done: map<ConfigFile, string>, errors: seq<string>, ghost n: nat, ghost w: Work)
      returns (updated': set<Service>, ghost done': map<ConfigFile, string>, errors': seq<string>, ghost next: nat)
      requires Valid() && Listed(cfg) && |inputs| == COUNT && n == 5
      requires WorkNow(cfg, updated, done, errors) == Steps(EnvFor(cfg.id), cfg.generation, w, inputs, n)
      modifies cfg, Entry(cfg), machine`files
      ensures cfg.nodes == old(cfg.nodes) && Fixed(cfg) == old(Fixed(cfg)) && next == 8
      ensures WorkNow(cfg, updated', done', errors') == Steps(EnvFor(cfg.id), cfg.generation, w, inputs, next)
    {
      hide FileStep, Steps;
      updated', done', errors', next := updated, done, errors, n;
      updated', done', errors', next := ComponentAt(cfg, PublicNM, inputs, updated', done', errors', next, w);
      updated', done', errors', next := ComponentAt(cfg, ClusterNetNM, inputs, updated', done', errors', next, w);
      updated', done', errors', next := ComponentAt(cfg, KeepalivedDummyNM, inputs, updated', done', errors', next, w);
    }

    /** The components for Firewalld. */
    method ReconcileFirewalld(cfg: LoadBalancerConfig, inputs: seq<Input>, updated: set<Service>,
                  ghost done: map<ConfigFile, string>, errors: seq<string>, ghost n: nat, ghost w: Work)
      returns (updated': set<Service>, ghost done': map<ConfigFile, string>, errors': seq<string>, ghost next: nat)
      requires Valid() && Listed(cfg) && |inputs| == COUNT && n == 9
      requires WorkNow(cfg, updated, done, errors) == Steps(EnvFor(cfg.id), cfg.generation, w, inputs, n)
      modifies cfg, Entry(cfg), machine`files
      ensures cfg.nodes == old(cfg.nodes) && Fixed(cfg) == old(Fixed(cfg)) && next == 11
      ensures WorkNow(cfg, updated', done', errors') == Steps(EnvFor(cfg.id), cfg.generation, w, inputs, next)
    {
      hide FileStep, Steps;
      updated', done', errors', next := updated, done, errors, n;
      updated', done', errors', next := ComponentAt(cfg, ExternalZone, inputs, updated', done', errors', next, w);
      updated', done', errors', next := ComponentAt(cfg, DirectRules, inputs, updated', done', errors', next, w);
    }

    /** The components of ReconcileLBConfig, in its order. */
    method ReconcileComponents(cfg: LoadBalancerConfig, inputs: seq<Input>)
      returns (updated: set<Service>, ghost done: map<ConfigFile, string>, errors: seq<string>)
      requires Valid() && Listed(cfg) && |inputs| == COUNT
      modifies cfg, Entry(cfg), machine`files
      ensures cfg.nodes == old(cfg.nodes) && Fixed(cfg) == old(Fixed(cfg))
      ensures WorkNow(cfg, updated, done, errors)
              == Steps(EnvFor(cfg.id), cfg.generation, old(WorkNow(cfg, {}, map[], [])), inputs, COUNT)
    {
      hide FileStep, Steps;
      updated, done, errors := {}, map[], [];
      ghost var w, n := WorkNow(cfg, updated, done, errors), 0;
      NoSteps(EnvFor(cfg.id), cfg.generation, w, inputs);
      updated, done, errors, n := ReconcileHAProxy(cfg, inputs, updated, done, errors, n, w);
      updated, done, errors, n := ReconcileKeepalived(cfg, inputs, updated, done, errors, n, w);
      updated, done, errors, n := ComponentAt(cfg, ConntrackdConf, inputs, updated, done, errors, n, w);
      updated, done, errors, n := ReconcileNetworkManager(cfg, inputs, updated, done, errors, n, w);
      updated, done, errors, n := ComponentAt(cfg, SysctlConf, inputs, updated, done, errors, n, w);
      updated, done, errors, n := ReconcileFirewalld(cfg, inputs, updated, done, errors, n, w);
    }

    /** ReconcileLBConfig; InitializeNodeStatus must find or create the host's entry. */
    method ReconcileLBConfig(cfg: LoadBalancerConfig, lookups: Lookups, inputs: seq<Input>)
      returns (updated: set<Service>, ghost done: map<ConfigFile, string>, errors: seq<string>)
      requires Valid() && |inputs| == COUNT
      requires cfg.Valid() && (cfg.nodes.Some? ==> host in cfg.nodes.value)
      modifies cfg, if cfg.nodes.Some? then {cfg.nodes.value[host]} else {}
      modifies machine`files
      ensures Listed(cfg)
      ensures old(cfg.nodes).Some? ==> cfg.nodes == old(cfg.nodes)
      ensures old(cfg.nodes).None? ==> cfg.nodes.value.Keys == {host} && fresh(Entry(cfg))
      ensures var before := if old(cfg.nodes).None? then EMPTY_NODE else old(cfg.nodes.value[host].View());
              var w := Work(old(Pairs()), before.hashes, {}, map[], false);
              match Found(lookups)
              case None =>
                updated == {} && errors != [] && Pairs() == w.pairs && Entry(cfg).View() == before
              case Some(found) =>
                WorkNow(cfg, updated, done, errors) == Steps(EnvFor(cfg.id), cfg.generation, w, inputs, COUNT) &&
                Fixed(cfg) == Configuring(before, found).(hashes := map[]) &&
                Addressed(Entry(cfg).View(), lookups) &&
                MarkedExactly(EnvFor(cfg.id), cfg.generation, w, inputs, updated)
    {
      hide FileStep, Steps, Addressed, MarkedExactly, Reloads, Rooted, PairsOf, Found;
      updated, done, errors := {}, map[], [];
      var failed := InitializeNodeStatus(cfg, lookups);
      if failed {
        errors := ["failed to initialize node status"];
        return;
      }
      ghost var node, w := Entry(cfg).View(), WorkNow(cfg, {}, map[], []);
      updated, done, errors := ReconcileComponents(cfg, inputs);
      ReloadSetExactly(EnvFor(cfg.id), cfg.generation, w, inputs);
      SameAddresses(node, Entry(cfg).View(), lookups);
    }

    lemma SameAddresses(n: Node, m: Node, lookups: Lookups)
      requires Addressed(n, lookups) && m.(hashes := map[], status := "") == n.(hashes := map[], status := "")
      ensures Addressed(m, lookups)
    {
    }

    /** The reloads of Reconcile, in whatever order the map of services yields them.
        `reloads` says which reload commands succeed; without a live root none is run. */
    method ReloadServices(services: set<Service>, reloads: Service -> bool) returns (failed: bool)
      modifies machine`loaded
      ensures failed <==> live && exists s :: s in services && !reloads(s)
      ensures machine.loaded ==
              Cluster.Loaded(Pairs(), old(machine.loaded), set s | s in services && live && reloads(s))
      ensures forall f :: Lookup(machine.loaded, f) ==
                if live && ServiceOf(f) in services && reloads(ServiceOf(f)) then PairOf(Pairs(), f).cfg
                else Lookup(old(machine.loaded), f)
    {
      hide Cluster.Loaded;
      ghost var pairs, loaded := Pairs(), machine.loaded;
      var rest := services;
      failed := false;
      NothingLoaded(pairs, loaded);
      assert (set s | s in services - rest && live && reloads(s)) == {};
      while rest != {}
        invariant rest <= services
        invariant machine.loaded == Cluster.Loaded(pairs, loaded, set s | s in services - rest && live && reloads(s))
        invariant failed <==> live && exists s :: s in services - rest && !reloads(s)
      {
        var s :| s in rest;
        ghost var before := set t | t in services - rest && live && reloads(t);
        assert (set t | t in services - (rest - {s}) && live && reloads(t))
            == if live && reloads(s) then before + {s} else before;
        if live {
          if reloads(s) {
            OneMoreLoaded(pairs, loaded, before, s);
            machine.loaded := Cluster.Loaded(pairs, machine.loaded, {s});
          } else {
            failed := true;
          }
        }
        assert services - (rest - {s}) == (services - rest) + {s};
        rest := rest - {s};
      }
      assert services - rest == services;
      forall f ensures Lookup(machine.loaded, f) ==
                       if live && ServiceOf(f) in services && reloads(ServiceOf(f)) then PairOf(pairs, f).cfg
                       else Lookup(loaded, f)
      {
        LoadedSpelled(pairs, loaded, (set s | s in services && live && reloads(s)), f);
      }
    }

    /** Reconcile, after the object was read: ReconcileLBConfig, the reloads, and
        the status to send. */
    method Reconcile(cfg: LoadBalancerConfig, lookups: Lookups, inputs: seq<Input>, reloads: Service -> bool)
      returns (failed: bool, ghost updated: set<Service>)
      requires Valid() && |inputs| == COUNT
      requires cfg.Valid() && (cfg.nodes.Some? ==> host in cfg.nodes.value)
      modifies cfg, if cfg.nodes.Some? then {cfg.nodes.value[host]} else {}
      modifies machine
      ensures Listed(cfg)
      ensures old(cfg.nodes).Some? ==> cfg.nodes == old(cfg.nodes)
      ensures old(cfg.nodes).None? ==> cfg.nodes.value.Keys == {host} && fresh(Entry(cfg))
      ensures var before := if old(cfg.nodes).None? then EMPTY_NODE else old(cfg.nodes.value[host].View());
              var w := Work(old(Pairs()), before.hashes, {}, map[], false);
              var r := if Found(lookups).None? then w.(failed := true)
                       else Steps(EnvFor(cfg.id), cfg.generation, w, inputs, COUNT);
              failed == r.failed && updated == r.updated && Pairs() == r.pairs &&
              Entry(cfg).View() == (if Found(lookups).None? then before else Configuring(before, Found(lookups).value))
                .(hashes := r.hashes,
                  status := Verdict(failed || (live && exists s :: s in updated && !reloads(s))))
      ensures machine.loaded ==
              Cluster.Loaded(Pairs(), old(machine.loaded), set s | s in updated && live && reloads(s))
      ensures var before := if old(cfg.nodes).None? then EMPTY_NODE else old(cfg.nodes.value[host].View());
              var w := Work(old(Pairs()), before.hashes, {}, map[], false);
              if Found(lookups).None? then updated == {}
              else Addressed(Entry(cfg).View(), lookups) &&
                   MarkedExactly(EnvFor(cfg.id), cfg.generation, w, inputs, updated)
      ensures Entry(cfg).status ==
              if failed || (root == "/" && exists s :: s in updated && !reloads(s)) then "Failed" else "Ready"
    {
      hide FileStep, Steps, Cluster.Loaded, Addressed, MarkedExactly, Reloads;
      var services, done, errors := ReconcileLBConfig(cfg, lookups, inputs);
      ghost var entry := Entry(cfg).View();
      updated := services;
      failed := errors != [];
      var reloadFailed := ReloadServices(services, reloads);
      var node := cfg.nodes.value[host];
      node.status := if failed || reloadFailed then FAILED else READY;
      if Found(lookups).Some? { SameAddresses(entry, Entry(cfg).View(), lookups); }
    }
  }
}
