/** Any number of load balancer hosts that share one LoadBalancerConfig: each
    reads it, works through its own files and sends the whole status back with a
    version check. Hosts interleave freely between the steps of their passes. */
module Cluster {
  import opened Prelude
  import opened FilePair
  import opened Files
  import opened Pass
  import opened Status
  import Lane

  /** A reconcile in progress: the object it has read, with the version read, and
      the position in the order of files. */
  datatype Progress = Progress(
    version: nat,
    generation: int,
    nodes: map<string, Node>,
    next: nat,
    updated: set<Service>,
    done: map<ConfigFile, string>,
    failed: bool)

  /** A host; `live` when its config root is "/", `loaded` is what the services of
      its files have read. */
  datatype Host = Host(
    live: bool,
    pairs: Pairs,
    progress: Option<Progress>,
    loaded: map<ConfigFile, string>)

  /** A version of the object; `nodes` is None while its status has no node map at all. */
  datatype Version = Version(number: nat, generation: int, nodes: Option<map<string, Node>>)

  /** The newest version of the object, the earlier ones, and the hosts. */
  datatype State = State(
    version: nat,
    generation: int,
    nodes: Option<map<string, Node>>,
    hosts: map<string, Host>,
    past: seq<Version>)

  /** A pass may begin with an earlier version, from a cache that is behind. */
  datatype Event =
    | Begin(host: string, facts: Option<Facts>)
    | BeginStale(host: string, facts: Option<Facts>, read: Version)
    | FileStep(host: string, input: Input, crash: bool)
    | ReloadStep(host: string, service: Service, ok: bool)
    | Update(host: string)
    | Crash(host: string)
    | Tamper(host: string, file: ConfigFile, pair: Pair)
    | EditSpec

  function Now(c: State): Version {
    Version(c.version, c.generation, c.nodes)
  }

  function Nodes(v: Version): map<string, Node> {
    if v.nodes.Some? then v.nodes.value else map[]
  }

  function NodesOf(c: State): map<string, Node> {
    Nodes(Now(c))
  }

  /** In this version the host finds its entry, or creates it because there is no map. */
  predicate Admits(v: Version, h: string) {
    v.nodes.None? || h in v.nodes.value
  }

  predicate Admitted(c: State, h: string) {
    Admits(Now(c), h)
  }

  predicate Running(c: State, h: string) {
    h in c.hosts && InPass(c.hosts[h], h)
  }

  predicate Enabled(c: State, e: Event) {
    match e
    case EditSpec => true
    case Begin(h, _) => h in c.hosts && c.hosts[h].progress.None?
    case BeginStale(h, _, v) => h in c.hosts && c.hosts[h].progress.None? && v in c.past && v.number < c.version
    case FileStep(h, _, _) => Running(c, h) && c.hosts[h].progress.value.next < COUNT
    case ReloadStep(h, s, _) =>
      Running(c, h) && c.hosts[h].progress.value.next == COUNT && s in c.hosts[h].progress.value.updated
    case Update(h) =>
      Running(c, h) && c.hosts[h].progress.value.next == COUNT && c.hosts[h].progress.value.updated == {}
    case Crash(h) => h in c.hosts
    case Tamper(h, _, _) => h in c.hosts
  }

  function SetHost(c: State, h: string, host: Host): State {
    c.(hosts := c.hosts[h := host])
  }

  /** Get and InitializeNodeStatus. Without facts the pass goes on to its end
      without touching a file; without an entry among existing nodes it panics. */
  function BeginFrom(c: State, v: Version, h: string, facts: Option<Facts>): State
    requires h in c.hosts
  {
    if !Admits(v, h) then c
    else
      var nodes := if v.nodes.None? then map[h := EMPTY_NODE] else v.nodes.value;
      var p := match facts
        case None => Progress(v.number, v.generation, nodes, COUNT, {}, map[], true)
        case Some(found) =>
          Progress(v.number, v.generation, nodes[h := Configuring(nodes[h], found)], 0, {}, map[], false);
      SetHost(c, h, c.hosts[h].(progress := Some(p)))
  }

  function BeginPass(c: State, h: string, facts: Option<Facts>): State
    requires h in c.hosts
  {
    BeginFrom(c, Now(c), h, facts)
  }

  /** The host is in the middle of a pass and finds its entry in the copy it has read. */
  predicate InPass(host: Host, h: string) {
    host.progress.Some? && h in host.progress.value.nodes
  }

  function WorkOf(host: Host, h: string): Work
    requires InPass(host, h)
  {
    var p := host.progress.value;
    Work(host.pairs, p.nodes[h].hashes, p.updated, p.done, p.failed)
  }

  /** The host after a step of its pass that ends with `w`. */
  function After(host: Host, h: string, w: Work, crash: bool): Host
    requires InPass(host, h)
  {
    var p := host.progress.value;
    var p' := p.(nodes := p.nodes[h := p.nodes[h].(hashes := w.hashes)], next := p.next + 1,
                 updated := w.updated, done := w.done, failed := w.failed);
    host.(pairs := w.pairs, progress := if crash then None else Some(p'))
  }

  /** The host after the step of file `f`. */
  function StepHost(env: Env, host: Host, h: string, f: ConfigFile, input: Input, crash: bool): Host
    requires InPass(host, h)
  {
    After(host, h, Pass.FileStep(env, host.progress.value.generation, WorkOf(host, h), f, input), crash)
  }

  /** What the services have read after some of them were reloaded. */
  function Loaded(pairs: Pairs, loaded: map<ConfigFile, string>, ss: set<Service>): map<ConfigFile, string> {
    map f: ConfigFile | (if ServiceOf(f) in ss then PairOf(pairs, f).cfg.Some? else f in loaded)
      :: if ServiceOf(f) in ss then PairOf(pairs, f).cfg.value else loaded[f]
  }

  function ReloadHost(host: Host, s: Service, ok: bool): Host
    requires host.progress.Some?
  {
    var p := host.progress.value;
    host.(progress := Some(p.(updated := p.updated - {s}, failed := p.failed || (host.live && !ok))),
          loaded := if host.live && ok then Loaded(host.pairs, host.loaded, {s}) else host.loaded)
  }

  /** The status a pass sends back. */
  function Sent(c: State, h: string): map<string, Node>
    requires Running(c, h)
  {
    var p := c.hosts[h].progress.value;
    p.nodes[h := p.nodes[h].(status := Verdict(p.failed))]
  }

  /** The API server accepts a status only for the version that it was read with. */
  predicate Accepts(c: State, h: string)
    requires Running(c, h)
  {
    c.hosts[h].progress.value.version == c.version
  }

  function UpdateStatus(c: State, h: string): State
    requires Running(c, h)
  {
    var c' := SetHost(c, h, c.hosts[h].(progress := None));
    if !Accepts(c, h) || c.nodes == Some(Sent(c, h)) then c'
    else c'.(version := c.version + 1, nodes := Some(Sent(c, h)), past := c.past + [Now(c)])
  }

  function Apply(env: Env, c: State, e: Event): State
    requires Enabled(c, e)
  {
    match e
    case Begin(h, facts) => BeginPass(c, h, facts)
    case BeginStale(h, facts, v) => BeginFrom(c, v, h, facts)
    case FileStep(h, input, crash) =>
      SetHost(c, h, StepHost(env, c.hosts[h], h, FileAt(c.hosts[h].progress.value.next), input, crash))
    case ReloadStep(h, s, ok) => SetHost(c, h, ReloadHost(c.hosts[h], s, ok))
    case Update(h) => UpdateStatus(c, h)
    case Crash(h) => SetHost(c, h, c.hosts[h].(progress := None))
    case Tamper(h, f, p) => SetHost(c, h, c.hosts[h].(pairs := c.hosts[h].pairs[f := p]))
    case EditSpec => c.(version := c.version + 1, generation := c.generation + 1, past := c.past + [Now(c)])
  }

  predicate Valid(env: Env, c: State, es: seq<Event>)
    decreases |es|, 0
  {
    es == [] || (Valid(env, c, DropLast(es)) && Enabled(Run(env, c, DropLast(es)), Last(es)))
  }

  function Run(env: Env, c: State, es: seq<Event>): State
    requires Valid(env, c, es)
    decreases |es|, 1
  {
    if es == [] then c else Apply(env, Run(env, c, DropLast(es)), Last(es))
  }

  /** No host has a reconcile in progress. */
  ghost predicate Idle(c: State) {
    forall h :: h in c.hosts ==> c.hosts[h].progress.None?
  }

  // ---------------------------------------------------------------------
  // The shared status
  // ---------------------------------------------------------------------

  /** Equal except for the entry of `h`. */
  ghost predicate SameOthers(a: map<string, Node>, b: map<string, Node>, h: string) {
    forall k :: k != h ==> Lookup(a, k) == Lookup(b, k)
  }

  ghost predicate ProgressInv(c: State, h: string, p: Progress) {
    h in p.nodes && p.version <= c.version && p.next <= COUNT &&
    (p.version == c.version ==> SameOthers(p.nodes, NodesOf(c), h) && Admitted(c, h))
  }

  /** A copy whose version is still current differs from the server in its own entry only. */
  ghost predicate Inv(c: State) {
    forall h :: h in c.hosts && c.hosts[h].progress.Some? ==> ProgressInv(c, h, c.hosts[h].progress.value)
  }

  lemma InvStep(env: Env, c: State, e: Event)
    requires Inv(c) && Enabled(c, e)
    ensures Inv(Apply(env, c, e))
  {
  }

  lemma {:induction false} InvRun(env: Env, c: State, es: seq<Event>)
    requires Inv(c) && Valid(env, c, es)
    ensures Inv(Run(env, c, es))
  {
    if es != [] {
      InvRun(env, c, DropLast(es));
      InvStep(env, Run(env, c, DropLast(es)), Last(es));
    }
  }

  lemma UpdateKeepsOthers(c: State, h: string, k: string)
    requires Inv(c) && Running(c, h) && k != h
    ensures Lookup(NodesOf(UpdateStatus(c, h)), k) == Lookup(NodesOf(c), k)
  {
    var p := c.hosts[h].progress.value;
    assert ProgressInv(c, h, p);
    assert Lookup(Sent(c, h), k) == Lookup(p.nodes, k);
  }

  /** When the specification or the status changes while a pass is in progress, the update
      of that pass will be rejected: of passes that overlap only one saves its status. */
  lemma OverlappingPassRejected(env: Env, c: State, e: Event, h: string)
    requires Inv(c) && Enabled(c, e) && Running(c, h)
    requires e.EditSpec? || (e.Update? && e.host != h && NodesOf(Apply(env, c, e)) != NodesOf(c))
    ensures Running(Apply(env, c, e), h) && !Accepts(Apply(env, c, e), h)
  {
    assert ProgressInv(c, h, c.hosts[h].progress.value);
  }

  /** An event of host `k` that its status entry depends on. */
  predicate Updates(e: Event, k: string) {
    e.Update? && e.host == k
  }

  /** Shared-status safety: in every run of any number of hosts, whatever they do in
      between, the entry of a host changes only by a status update of that host. */
  lemma {:induction false} OthersEntrySafe(env: Env, c: State, es: seq<Event>, k: string)
    requires Inv(c) && Valid(env, c, es)
    requires forall e :: e in es ==> !Updates(e, k)
    ensures Lookup(NodesOf(Run(env, c, es)), k) == Lookup(NodesOf(c), k)
  {
    if es != [] {
      OthersEntrySafe(env, c, DropLast(es), k);
      InvRun(env, c, DropLast(es));
      var e := Last(es);
      assert !Updates(e, k);
      if e.Update? {
        UpdateKeepsOthers(Run(env, c, DropLast(es)), e.host, k);
      }
    }
  }

  lemma HostsFixedStep(env: Env, c: State, e: Event)
    requires Inv(c) && Enabled(c, e) && c.nodes.Some?
    ensures Apply(env, c, e).nodes.Some? && Apply(env, c, e).nodes.value.Keys == c.nodes.value.Keys
  {
    if e.Update? && Accepts(c, e.host) {
      var after := NodesOf(UpdateStatus(c, e.host));
      forall k ensures k in after <==> k in c.nodes.value {
        if k != e.host {
          UpdateKeepsOthers(c, e.host, k);
        } else {
          assert ProgressInv(c, k, c.hosts[k].progress.value);
        }
      }
    }
  }

  /** Once there is a node map its hosts are fixed, whatever reconciles are in
      progress: no run adds or removes one. */
  lemma {:induction false} HostsFixed(env: Env, c: State, es: seq<Event>)
    requires Inv(c) && Valid(env, c, es) && c.nodes.Some?
    ensures Run(env, c, es).nodes.Some? && Run(env, c, es).nodes.value.Keys == c.nodes.value.Keys
  {
    if es != [] {
      HostsFixed(env, c, DropLast(es));
      InvRun(env, c, DropLast(es));
      HostsFixedStep(env, Run(env, c, DropLast(es)), Last(es));
    }
  }

  /** After any run a host can start a pass if and only if it is in the node map from
      which the run started. */
  lemma {:induction false} LockedOut(env: Env, c: State, es: seq<Event>, h: string, facts: Option<Facts>)
    requires Inv(c) && Valid(env, c, es) && c.nodes.Some?
    requires Enabled(Run(env, c, es), Begin(h, facts))
    ensures var b := Run(env, c, es);
            Apply(env, b, Begin(h, facts)).hosts[h].progress.Some? <==> h in c.nodes.value
  {
    HostsFixed(env, c, es);
  }

  /** The first accepted status of a fresh object registers its sender alone. */
  lemma FirstUpdate(c: State, h: string)
    requires Inv(c) && Running(c, h) && c.nodes.None?
    ensures var r := UpdateStatus(c, h); r.nodes.None? || r.nodes.value.Keys == {h}
  {
    var p := c.hosts[h].progress.value;
    assert ProgressInv(c, h, p);
    if Accepts(c, h) {
      forall k | k in p.nodes ensures k == h {
        assert k != h ==> Lookup(p.nodes, k) == Lookup(NodesOf(c), k);
      }
      assert Sent(c, h).Keys == {h};
    }
  }

  /** From an object without a node map, however many hosts take part and however they
      interleave, at most one of them is ever registered. */
  lemma {:induction false} OneHostRegisters(env: Env, c: State, es: seq<Event>)
    requires Inv(c) && Valid(env, c, es) && c.nodes.None?
    ensures var r := Run(env, c, es); r.nodes.None? || exists h :: r.nodes.value.Keys == {h}
  {
    if es != [] {
      OneHostRegisters(env, c, DropLast(es));
      InvRun(env, c, DropLast(es));
      var b := Run(env, c, DropLast(es));
      var e := Last(es);
      if b.nodes.Some? {
        HostsFixedStep(env, b, e);
      } else if e.Update? {
        FirstUpdate(b, e.host);
      }
    }
  }

  /** Lockout in a fresh cluster: once a host is registered, after every continuation
      that host can start a pass and no other one can. */
  lemma OnlyTheFirstHost(env: Env, c: State, es: seq<Event>, more: seq<Event>, h: string, k: string, facts: Option<Facts>)
    requires Inv(c) && Valid(env, c, es) && c.nodes.None?
    requires Run(env, c, es).nodes.Some? && h in Run(env, c, es).nodes.value
    requires Valid(env, Run(env, c, es), more) && Enabled(Run(env, Run(env, c, es), more), Begin(k, facts))
    ensures Apply(env, Run(env, Run(env, c, es), more), Begin(k, facts)).hosts[k].progress.Some? <==> k == h
  {
    OneHostRegisters(env, c, es);
    InvRun(env, c, es);
    LockedOut(env, Run(env, c, es), more, k, facts);
    var keys := Run(env, c, es).nodes.value.Keys;
    assert h in keys && |keys| == 1;
    assert k in keys <==> k == h;
  }

  lemma Extend(env: Env, c: State, es: seq<Event>, e: Event)
    requires Valid(env, c, es) && Enabled(Run(env, c, es), e)
    ensures Valid(env, c, es + [e]) && Run(env, c, es + [e]) == Apply(env, Run(env, c, es), e)
  {
    assert DropLast(es + [e]) == es;
  }

  /** A fresh object and two hosts that have written nothing. */
  function TwoFreshHosts(h: string, k: string): State {
    var host := Host(true, map[], None, map[]);
    State(0, 1, None, map[h := host, k := host], [])
  }

  /** Both hosts read the object and send a status; then the second one tries again. */
  function LockoutRun(h: string, k: string, facts: Option<Facts>): seq<Event> {
    [] + [Begin(h, None)] + [Begin(k, None)] + [Update(h)] + [Update(k)] + [Begin(k, facts)]
  }

  /** Such a run ends with the second host locked out. */
  lemma TwoHostsLockOut(env: Env, h: string, k: string, facts: Option<Facts>)
    requires h != k
    ensures Idle(TwoFreshHosts(h, k)) && Valid(env, TwoFreshHosts(h, k), LockoutRun(h, k, facts))
    ensures var r := Run(env, TwoFreshHosts(h, k), LockoutRun(h, k, facts));
            r.nodes.Some? && r.nodes.value.Keys == {h} && k in r.hosts && r.hosts[k].progress.None?
  {
    var c := TwoFreshHosts(h, k);
    var e1: seq<Event> := [] + [Begin(h, None)];
    var e2 := e1 + [Begin(k, None)];
    var e3 := e2 + [Update(h)];
    var e4 := e3 + [Update(k)];
    Extend(env, c, [], Begin(h, None));
    Extend(env, c, e1, Begin(k, None));
    Extend(env, c, e2, Update(h));
    Extend(env, c, e3, Update(k));
    Extend(env, c, e4, Begin(k, facts));
  }

  // ---------------------------------------------------------------------
  // A host whose passes panic
  // ---------------------------------------------------------------------

  /** Whatever the lookups of host `h` find, its passes die at position `n`. */
  ghost predicate PanicsAt(env: Env, c: State, es: seq<Event>, h: string, n: nat)
    requires Valid(env, c, es)
  {
    es == [] ||
    (PanicsAt(env, c, DropLast(es), h, n) &&
     var e := Last(es);
     ((e.Begin? || e.BeginStale?) && e.host == h ==> e.facts.Some?) &&
     (e.FileStep? && e.host == h && Run(env, c, DropLast(es)).hosts[h].progress.value.next == n ==> e.crash))
  }

  lemma PanickingStep(env: Env, c: State, e: Event, h: string, n: nat)
    requires Inv(c) && Enabled(c, e) && h in c.hosts && n < COUNT
    requires c.hosts[h].progress.Some? ==> c.hosts[h].progress.value.next <= n
    requires (e.Begin? || e.BeginStale?) && e.host == h ==> e.facts.Some?
    requires e.FileStep? && e.host == h && c.hosts[h].progress.value.next == n ==> e.crash
    ensures var r := Apply(env, c, e);
            h in r.hosts && (r.hosts[h].progress.Some? ==> r.hosts[h].progress.value.next <= n) &&
            r.hosts[h].loaded == c.hosts[h].loaded && Lookup(NodesOf(r), h) == Lookup(NodesOf(c), h)
  {
    hide Pass.FileStep;
    if e.Update? && e.host != h {
      UpdateKeepsOthers(c, e.host, h);
    }
  }

  /** A host all of whose passes panic while rendering the same file, as without an
      ingress backend or a NAT address, never reloads a service and never changes
      its status entry, whatever it has written before that file. */
  lemma {:induction false} PanickingHost(env: Env, c: State, es: seq<Event>, h: string, n: nat)
    requires Idle(c) && Valid(env, c, es) && h in c.hosts && n < COUNT
    requires PanicsAt(env, c, es, h, n)
    ensures var r := Run(env, c, es);
            h in r.hosts && (r.hosts[h].progress.Some? ==> r.hosts[h].progress.value.next <= n) &&
            r.hosts[h].loaded == c.hosts[h].loaded && Lookup(NodesOf(r), h) == Lookup(NodesOf(c), h)
  {
    hide Apply, Enabled;
    if es != [] {
      PanickingHost(env, c, DropLast(es), h, n);
      InvRun(env, c, DropLast(es));
      PanickingStep(env, Run(env, c, DropLast(es)), Last(es), h, n);
    }
  }

  // ---------------------------------------------------------------------
  // What one file of one host sees
  // ---------------------------------------------------------------------

  /** The life of file `f` as host `h` sees it, given the saved hash. */
  function HostView(host: Host, h: string, stored: string, f: ConfigFile): Lane.Lane
    requires host.progress.None? || InPass(host, h)
  {
    match host.progress
    case None => Lane.Lane(PairOf(host.pairs, f), stored, None, None, false, Lookup(host.loaded, f))
    case Some(p) =>
      Lane.Lane(PairOf(host.pairs, f), stored, Some(HashOf(p.nodes[h].hashes, f)),
                Lookup(p.done, f), ServiceOf(f) in p.updated, Lookup(host.loaded, f))
  }

  /** The hash in the status of host `h`. */
  function Stored(nodes: map<string, Node>, h: string, f: ConfigFile): string {
    if h in nodes then HashOf(nodes[h].hashes, f) else ""
  }

  ghost predicate Placed(c: State, h: string) {
    h in c.hosts && (c.hosts[h].progress.None? || InPass(c.hosts[h], h))
  }

  /** The life of file `f` on host `h`, cut out of the cluster. */
  function View(c: State, h: string, f: ConfigFile): Lane.Lane
    requires Placed(c, h)
  {
    HostView(c.hosts[h], h, Stored(NodesOf(c), h, f), f)
  }

  /** What a step that ends with `w` is for a file that it does not compare. */
  function ProjectOther(p: Progress, w: Work, crash: bool, f: ConfigFile): Lane.Event {
    if crash then Lane.Crash
    else if ServiceOf(f) in w.updated && ServiceOf(f) !in p.updated then Lane.Flag
    else Lane.Idle
  }

  /** What the step of file `g` is for file `f`. */
  function ProjectStep(env: Env, host: Host, h: string, g: ConfigFile, input: Input, crash: bool, f: ConfigFile): Lane.Event
    requires InPass(host, h)
  {
    var p := host.progress.value;
    if g == f && input.text.Some? then Lane.Step(p.generation, input.text.value, input.o, crash)
    else ProjectOther(p, Pass.FileStep(env, p.generation, WorkOf(host, h), g, input), crash, f)
  }

  /** A file that is written marks the other files of its service for reload. */
  lemma SiblingMarks(env: Env, host: Host, h: string, g: ConfigFile, text: string, f: ConfigFile)
    requires InPass(host, h) && g != f && ServiceOf(g) == ServiceOf(f) && ServiceOf(f) !in host.progress.value.updated
    requires var w := WorkOf(host, h); !(Accepted(env.sha, PairOf(w.pairs, g)) && HashOf(w.hashes, g) == env.sha(text))
    ensures ProjectStep(env, host, h, g, Input(Some(text), Completes), false, f) == Lane.Flag
  {
  }

  /** What an event of the cluster is for file `f` of host `h`. */
  function Project(env: Env, c: State, e: Event, h: string, f: ConfigFile): Lane.Event
    requires Enabled(c, e)
  {
    if e.EditSpec? || e.host != h then Lane.Idle
    else
      match e
      case Begin(_, _) => if Admitted(c, h) then Lane.Begin else Lane.Idle
      case BeginStale(_, _, v) => if Admits(v, h) then Lane.BeginStale(Stored(Nodes(v), h, f)) else Lane.Idle
      case FileStep(_, input, crash) =>
        ProjectStep(env, c.hosts[h], h, FileAt(c.hosts[h].progress.value.next), input, crash, f)
      case ReloadStep(_, s, ok) => if ServiceOf(f) == s then Lane.Reload(ok && c.hosts[h].live) else Lane.Idle
      case Update(_) => Lane.Finish(Accepts(c, h))
      case Crash(_) => Lane.Crash
      case Tamper(_, f', p) => if f' == f then Lane.Tamper(p) else Lane.Idle
  }

  lemma ViewAfter(host: Host, h: string, w: Work, crash: bool, stored: string, f: ConfigFile)
    requires InPass(host, h)
    ensures var l := Lane.Lane(PairOf(w.pairs, f), stored, Some(HashOf(w.hashes, f)), Lookup(w.done, f),
                               ServiceOf(f) in w.updated, Lookup(host.loaded, f));
            HostView(After(host, h, w, crash), h, stored, f) == if crash then Lane.Forget(l) else l
  {
  }

  /** The end of a pass step in terms of its one comparison. */
  lemma ViewCompared(sha: Sha, final: Lane.Finalizer, host: Host, h: string, w: Work, crash: bool, stored: string,
                     f: ConfigFile, gen: int, text: string, o: Outcome)
    requires InPass(host, h)
    requires var l := HostView(host, h, stored, f);
             var c := Lane.CompareAndWrite(sha, l.pair, l.mem.value, text, final(gen, text), o);
             PairOf(w.pairs, f) == c.pair && HashOf(w.hashes, f) == c.hash &&
             Lookup(w.done, f) == (if c.failed then None else Some(text)) &&
             (ServiceOf(f) in w.updated <==> l.pending || (c.changed && !c.failed))
    ensures HostView(After(host, h, w, crash), h, stored, f)
            == Lane.Apply(sha, final, HostView(host, h, stored, f), Lane.Step(gen, text, o, crash))
  {
    ViewAfter(host, h, w, crash, stored, f);
  }

  lemma ViewOwnStep(env: Env, host: Host, h: string, f: ConfigFile, text: string, o: Outcome, crash: bool, stored: string)
    requires InPass(host, h)
    ensures HostView(StepHost(env, host, h, f, Input(Some(text), o), crash), h, stored, f)
            == Lane.Apply(env.sha, FinalOf(env, f), HostView(host, h, stored, f),
                          Lane.Step(host.progress.value.generation, text, o, crash))
  {
    var gen := host.progress.value.generation;
    StepCompares(env, gen, WorkOf(host, h), f, text, o);
    ViewCompared(env.sha, FinalOf(env, f), host, h, Pass.FileStep(env, gen, WorkOf(host, h), f, Input(Some(text), o)),
                 crash, stored, f, gen, text, o);
  }

  lemma ViewKept(sha: Sha, final: Lane.Finalizer, host: Host, h: string, w: Work, crash: bool, stored: string, f: ConfigFile)
    requires InPass(host, h)
    requires SameFile(w, WorkOf(host, h), f) && Lookup(w.done, f) == Lookup(host.progress.value.done, f)
    requires host.progress.value.updated <= w.updated
    ensures var l := HostView(host, h, stored, f);
            var e := ProjectOther(host.progress.value, w, crash, f);
            Lane.Enabled(l, e) && HostView(After(host, h, w, crash), h, stored, f) == Lane.Apply(sha, final, l, e)
  {
    ViewAfter(host, h, w, crash, stored, f);
  }

  lemma ViewStepHost(env: Env, host: Host, h: string, g: ConfigFile, input: Input, crash: bool, stored: string, f: ConfigFile)
    requires InPass(host, h)
    ensures var l := HostView(host, h, stored, f);
            var e := ProjectStep(env, host, h, g, input, crash, f);
            Lane.Enabled(l, e) &&
            HostView(StepHost(env, host, h, g, input, crash), h, stored, f)
            == Lane.Apply(env.sha, FinalOf(env, f), l, e)
  {
    if g == f && input.text.Some? {
      ViewOwnStep(env, host, h, f, input.text.value, input.o, crash, stored);
    } else {
      var gen := host.progress.value.generation;
      StepKeeps(env, gen, WorkOf(host, h), g, input, f);
      ViewKept(env.sha, FinalOf(env, f), host, h, Pass.FileStep(env, gen, WorkOf(host, h), g, input), crash, stored, f);
    }
  }

  lemma ViewReloadHost(env: Env, host: Host, h: string, s: Service, ok: bool, stored: string, f: ConfigFile)
    requires InPass(host, h) && ServiceOf(f) == s
    ensures HostView(ReloadHost(host, s, ok), h, stored, f)
            == Lane.Apply(env.sha, FinalOf(env, f), HostView(host, h, stored, f), Lane.Reload(ok && host.live))
  {
  }

  lemma ViewReloadOther(host: Host, h: string, s: Service, ok: bool, stored: string, f: ConfigFile)
    requires InPass(host, h) && ServiceOf(f) != s
    ensures HostView(ReloadHost(host, s, ok), h, stored, f) == HostView(host, h, stored, f)
  {
  }

  lemma ViewBegin(env: Env, c: State, h: string, facts: Option<Facts>, f: ConfigFile)
    requires h in c.hosts && c.hosts[h].progress.None? && Admitted(c, h)
    ensures Placed(BeginPass(c, h, facts), h)
    ensures View(BeginPass(c, h, facts), h, f)
            == Lane.Apply(env.sha, FinalOf(env, f), View(c, h, f), Lane.Begin)
  {
  }

  lemma ViewBeginStale(env: Env, c: State, v: Version, h: string, facts: Option<Facts>, f: ConfigFile)
    requires h in c.hosts && c.hosts[h].progress.None? && Admits(v, h)
    ensures Placed(BeginFrom(c, v, h, facts), h)
    ensures View(BeginFrom(c, v, h, facts), h, f)
            == Lane.Apply(env.sha, FinalOf(env, f), View(c, h, f), Lane.BeginStale(Stored(Nodes(v), h, f)))
  {
  }

  lemma ViewUpdate(env: Env, c: State, h: string, f: ConfigFile)
    requires Inv(c) && Enabled(c, Update(h))
    ensures View(UpdateStatus(c, h), h, f)
            == Lane.Apply(env.sha, FinalOf(env, f), View(c, h, f), Lane.Finish(Accepts(c, h)))
  {
    var p := c.hosts[h].progress.value;
    assert ProgressInv(c, h, p);
  }

  /** Steps of other hosts do not reach a host's files or its entry. */
  lemma ViewUntouched(env: Env, c: State, e: Event, h: string, f: ConfigFile)
    requires Inv(c) && Enabled(c, e) && Placed(c, h) && (e.EditSpec? || e.host != h)
    ensures Placed(Apply(env, c, e), h) && View(Apply(env, c, e), h, f) == View(c, h, f)
  {
    match e
    case Update(k) => UpdateKeepsOthers(c, k, h);
    case Begin(_, _) | BeginStale(_, _, _) => assert NodesOf(Apply(env, c, e)) == NodesOf(c);
    case FileStep(_, _, _) => assert Apply(env, c, e).hosts[h] == c.hosts[h];
    case _ =>
  }

  /** Every step of the cluster is a step of the file's life, or leaves it alone. */
  lemma ViewStep(env: Env, c: State, e: Event, h: string, f: ConfigFile)
    requires Inv(c) && Enabled(c, e) && Placed(c, h)
    ensures Placed(Apply(env, c, e), h)
    ensures Lane.Enabled(View(c, h, f), Project(env, c, e, h, f))
    ensures View(Apply(env, c, e), h, f)
            == Lane.Apply(env.sha, FinalOf(env, f), View(c, h, f), Project(env, c, e, h, f))
  {
    if e.EditSpec? || e.host != h {
      ViewUntouched(env, c, e, h, f);
    } else {
      ViewOwnEvent(env, c, e, h, f);
    }
  }

  lemma ViewSet(c: State, h: string, host: Host, f: ConfigFile)
    requires host.progress.None? || InPass(host, h)
    ensures Placed(SetHost(c, h, host), h)
    ensures View(SetHost(c, h, host), h, f) == HostView(host, h, Stored(NodesOf(c), h, f), f)
  {
  }

  lemma ViewOwnFileStep(env: Env, c: State, h: string, input: Input, crash: bool, f: ConfigFile)
    requires Enabled(c, FileStep(h, input, crash))
    ensures var e := FileStep(h, input, crash);
            Placed(Apply(env, c, e), h) && Lane.Enabled(View(c, h, f), Project(env, c, e, h, f)) &&
            View(Apply(env, c, e), h, f)
            == Lane.Apply(env.sha, FinalOf(env, f), View(c, h, f), Project(env, c, e, h, f))
  {
    var host := c.hosts[h];
    var g := FileAt(host.progress.value.next);
    var stored := Stored(NodesOf(c), h, f);
    ViewStepHost(env, host, h, g, input, crash, stored, f);
    ViewSet(c, h, StepHost(env, host, h, g, input, crash), f);
  }

  lemma ViewOwnReload(env: Env, c: State, h: string, s: Service, ok: bool, f: ConfigFile)
    requires Enabled(c, ReloadStep(h, s, ok))
    ensures var e := ReloadStep(h, s, ok);
            Placed(Apply(env, c, e), h) && Lane.Enabled(View(c, h, f), Project(env, c, e, h, f)) &&
            View(Apply(env, c, e), h, f)
            == Lane.Apply(env.sha, FinalOf(env, f), View(c, h, f), Project(env, c, e, h, f))
  {
    var host := c.hosts[h];
    var stored := Stored(NodesOf(c), h, f);
    ViewSet(c, h, ReloadHost(host, s, ok), f);
    if ServiceOf(f) == s {
      ViewReloadHost(env, host, h, s, ok, stored, f);
    } else {
      ViewReloadOther(host, h, s, ok, stored, f);
    }
  }

  lemma ViewCrash(env: Env, c: State, h: string, f: ConfigFile)
    requires Enabled(c, Crash(h)) && Placed(c, h)
    ensures Placed(Apply(env, c, Crash(h)), h)
    ensures View(Apply(env, c, Crash(h)), h, f) == Lane.Apply(env.sha, FinalOf(env, f), View(c, h, f), Lane.Crash)
  {
  }

  lemma ViewTamper(env: Env, c: State, h: string, g: ConfigFile, p: Pair, f: ConfigFile)
    requires Placed(c, h)
    ensures var c' := SetHost(c, h, c.hosts[h].(pairs := c.hosts[h].pairs[g := p]));
            Placed(c', h) &&
            View(c', h, f) == Lane.Apply(env.sha, FinalOf(env, f), View(c, h, f), if g == f then Lane.Tamper(p) else Lane.Idle)
  {
    hide HostView, PairOf, Stored, HashOf;
    var host := c.hosts[h];
    TamperedHost(host, h, g, p, Stored(NodesOf(c), h, f), f);
    ViewSet(c, h, host.(pairs := host.pairs[g := p]), f);
  }

  lemma TamperedHost(host: Host, h: string, g: ConfigFile, p: Pair, stored: string, f: ConfigFile)
    requires host.progress.None? || InPass(host, h)
    ensures var l := HostView(host, h, stored, f);
            HostView(host.(pairs := host.pairs[g := p]), h, stored, f) == if g == f then l.(pair := p) else l
  {
  }

  lemma ViewOwnEvent(env: Env, c: State, e: Event, h: string, f: ConfigFile)
    requires Inv(c) && Enabled(c, e) && Placed(c, h) && !e.EditSpec? && e.host == h
    ensures Placed(Apply(env, c, e), h)
    ensures Lane.Enabled(View(c, h, f), Project(env, c, e, h, f))
    ensures View(Apply(env, c, e), h, f)
            == Lane.Apply(env.sha, FinalOf(env, f), View(c, h, f), Project(env, c, e, h, f))
  {
    match e
    case Begin(_, facts) => if Admitted(c, h) { ViewBegin(env, c, h, facts, f); }
    case BeginStale(_, facts, v) => if Admits(v, h) { ViewBeginStale(env, c, v, h, facts, f); }
    case FileStep(_, input, crash) => ViewOwnFileStep(env, c, h, input, crash, f);
    case ReloadStep(_, s, ok) => ViewOwnReload(env, c, h, s, ok, f);
    case Update(_) => ViewUpdate(env, c, h, f);
    case Crash(_) => ViewCrash(env, c, h, f);
    case Tamper(_, g, p) => ViewTamper(env, c, h, g, p, f);
  }
}
