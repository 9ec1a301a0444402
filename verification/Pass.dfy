/** One pass over the eleven files of a host: what ReconcileLBConfig does to the
    pairs on disk, to the host's config hashes and to the set of services that
    are to be reloaded. */
module Pass {
  import opened Prelude
  import opened FilePair
  import opened Files
  import Lane

  /** The controller's surroundings: the hash, and how a final text is made from
      the file, the generation and the rendered text. */
  datatype Env = Env(sha: Sha, final: (ConfigFile, int, string) -> string)

  function FinalOf(env: Env, f: ConfigFile): Lane.Finalizer {
    (gen, text) => env.final(f, gen, text)
  }

  function NoPair(): Pair { Pair(None, None) }

  /** The pairs on disk; an absent key stands for two absent files. */
  type Pairs = map<ConfigFile, Pair>

  function PairOf(pairs: Pairs, f: ConfigFile): Pair {
    if f in pairs then pairs[f] else NoPair()
  }

  /** Go's map lookup: the empty string for a missing key. */
  function HashOf(hashes: map<ConfigFile, string>, f: ConfigFile): string {
    if f in hashes then hashes[f] else ""
  }

  /** The state of a pass. `done` keeps the texts compared without error, `failed`
      whether an error was collected. */
  datatype Work = Work(
    pairs: Pairs,
    hashes: map<ConfigFile, string>,
    updated: set<Service>,
    done: map<ConfigFile, string>,
    failed: bool)

  /** What a step of a pass meets: the rendered text, unless rendering fails, and
      where a write would stop. */
  datatype Input = Input(text: Option<string>, o: Outcome)

  function CompareFile(env: Env, gen: int, pairs: Pairs, hashes: map<ConfigFile, string>,
                       f: ConfigFile, text: string, o: Outcome): Lane.Compared
  {
    Lane.CompareAndWrite(env.sha, PairOf(pairs, f), HashOf(hashes, f), text, env.final(f, gen, text), o)
  }

  /** Rendering and CompareAndWrite of one file, with the bookkeeping around it. */
  function FileStep(env: Env, gen: int, w: Work, f: ConfigFile, i: Input): Work {
    match i.text
    case None => w.(failed := true)
    case Some(text) =>
      var c := CompareFile(env, gen, w.pairs, w.hashes, f, text, i.o);
      Work(if c.changed then w.pairs[f := c.pair] else w.pairs,
           if c.changed then w.hashes[f := c.hash] else w.hashes,
           if c.changed && !c.failed then w.updated + {ServiceOf(f)} else w.updated,
           if c.failed then w.done - {f} else w.done[f := text],
           w.failed || c.failed)
  }

  /** The first `n` steps of a pass. */
  function Steps(env: Env, gen: int, w: Work, inputs: seq<Input>, n: nat): Work
    requires n <= |inputs| == COUNT
  {
    if n == 0 then w
    else FileStep(env, gen, Steps(env, gen, w, inputs, n - 1), FileAt(n - 1), inputs[n - 1])
  }

  // ---------------------------------------------------------------------
  // Component isolation and the exact reload set
  // ---------------------------------------------------------------------

  /** The step of file `f` as if it were the only one. */
  function Alone(env: Env, gen: int, w: Work, inputs: seq<Input>, f: ConfigFile): Work
    requires |inputs| == COUNT
  {
    FileStep(env, gen, w, f, inputs[Position(f)])
  }

  /** The step of `f` alone marks its service for reload. */
  predicate Reloads(env: Env, gen: int, w: Work, inputs: seq<Input>, f: ConfigFile)
    requires |inputs| == COUNT
  {
    var i := inputs[Position(f)];
    i.text.Some? &&
    (var c := CompareFile(env, gen, w.pairs, w.hashes, f, i.text.value, i.o); c.changed && !c.failed)
  }

  /** The step of `f` alone adds an error. */
  predicate Fails(env: Env, gen: int, w: Work, inputs: seq<Input>, f: ConfigFile)
    requires |inputs| == COUNT
  {
    var i := inputs[Position(f)];
    i.text.None? || CompareFile(env, gen, w.pairs, w.hashes, f, i.text.value, i.o).failed
  }

  ghost predicate SameFile(a: Work, b: Work, f: ConfigFile) {
    PairOf(a.pairs, f) == PairOf(b.pairs, f) && HashOf(a.hashes, f) == HashOf(b.hashes, f)
  }

  /** A step touches its own file and hash only. */
  lemma StepFrame(env: Env, gen: int, w: Work, f: ConfigFile, i: Input, g: ConfigFile)
    requires f != g
    ensures SameFile(FileStep(env, gen, w, f, i), w, g)
  {
  }

  /** For the other files a step keeps what was done and only adds services. */
  lemma StepKeeps(env: Env, gen: int, w: Work, f: ConfigFile, i: Input, g: ConfigFile)
    requires f != g || i.text.None?
    ensures var r := FileStep(env, gen, w, f, i);
            SameFile(r, w, g) && Lookup(r.done, g) == Lookup(w.done, g) && w.updated <= r.updated
  {
  }

  /** For its own file a step is one comparison. */
  lemma StepCompares(env: Env, gen: int, w: Work, f: ConfigFile, text: string, o: Outcome)
    ensures var r := FileStep(env, gen, w, f, Input(Some(text), o));
            var c := Lane.CompareAndWrite(env.sha, PairOf(w.pairs, f), HashOf(w.hashes, f), text, FinalOf(env, f)(gen, text), o);
            PairOf(r.pairs, f) == c.pair && HashOf(r.hashes, f) == c.hash &&
            Lookup(r.done, f) == (if c.failed then None else Some(text)) &&
            (ServiceOf(f) in r.updated <==> ServiceOf(f) in w.updated || (c.changed && !c.failed))
  {
  }

  /** A step depends on its own file and hash only. */
  lemma StepLocal(env: Env, gen: int, a: Work, b: Work, f: ConfigFile, i: Input)
    requires SameFile(a, b, f)
    ensures SameFile(FileStep(env, gen, a, f, i), FileStep(env, gen, b, f, i), f)
  {
  }

  lemma {:induction false} FilesIsolated(env: Env, gen: int, w: Work, inputs: seq<Input>, n: nat, f: ConfigFile)
    requires n <= |inputs| == COUNT
    ensures SameFile(Steps(env, gen, w, inputs, n), if Position(f) < n then Alone(env, gen, w, inputs, f) else w, f)
  {
    hide FileStep;
    if n > 0 {
      OrderIsBijective(n - 1, f);
      FilesIsolated(env, gen, w, inputs, n - 1, f);
      var b := Steps(env, gen, w, inputs, n - 1);
      IsolatedStep(env, gen, w, b, FileAt(n - 1), inputs[n - 1], f);
    }
  }

  lemma IsolatedStep(env: Env, gen: int, w: Work, b: Work, g: ConfigFile, i: Input, f: ConfigFile)
    requires f == g ==> SameFile(b, w, f)
    ensures f == g ==> SameFile(FileStep(env, gen, b, g, i), FileStep(env, gen, w, f, i), f)
    ensures f != g ==> SameFile(FileStep(env, gen, b, g, i), b, f)
  {
    if f == g {
      StepLocal(env, gen, b, w, f, i);
    } else {
      StepFrame(env, gen, b, g, i, f);
    }
  }

  lemma NoSteps(env: Env, gen: int, w: Work, inputs: seq<Input>)
    requires |inputs| == COUNT
    ensures Steps(env, gen, w, inputs, 0) == w
  {
  }

  /** What one step adds to the services and to the errors. */
  lemma StepMarks(env: Env, gen: int, w: Work, inputs: seq<Input>, n: nat)
    requires n < |inputs| == COUNT
    ensures var b := Steps(env, gen, w, inputs, n);
            var r := Steps(env, gen, w, inputs, n + 1);
            r.updated == b.updated + (if Reloads(env, gen, w, inputs, FileAt(n)) then {ServiceOf(FileAt(n))} else {}) &&
            (r.failed <==> b.failed || Fails(env, gen, w, inputs, FileAt(n)))
  {
    OrderIsBijective(n, FileAt(n));
    FilesIsolated(env, gen, w, inputs, n, FileAt(n));
  }

  /** The services marked by the first `n` steps, and whether one of them failed, told
      from the single steps. */
  function Marked(env: Env, gen: int, w: Work, inputs: seq<Input>, n: nat): set<Service>
    requires |inputs| == COUNT
  {
    set f | Position(f) < n && Reloads(env, gen, w, inputs, f) :: ServiceOf(f)
  }

  lemma MarkedMore(env: Env, gen: int, w: Work, inputs: seq<Input>, n: nat)
    requires n < |inputs| == COUNT
    ensures Marked(env, gen, w, inputs, n + 1) == Marked(env, gen, w, inputs, n) +
            (if Reloads(env, gen, w, inputs, FileAt(n)) then {ServiceOf(FileAt(n))} else {})
    ensures (exists f :: Position(f) < n + 1 && Fails(env, gen, w, inputs, f)) <==>
            (exists f :: Position(f) < n && Fails(env, gen, w, inputs, f)) || Fails(env, gen, w, inputs, FileAt(n))
  {
    hide Reloads, Fails, ServiceOf, FileAt, Position;
    var g := FileAt(n);
    forall f ensures Position(f) < n + 1 <==> Position(f) < n || f == g {
      OrderIsBijective(n, f);
    }
  }

  lemma {:induction false} MarksIsolated(env: Env, gen: int, w: Work, inputs: seq<Input>, n: nat)
    requires n <= |inputs| == COUNT && w.updated == {} && !w.failed
    ensures Steps(env, gen, w, inputs, n).updated == Marked(env, gen, w, inputs, n)
    ensures Steps(env, gen, w, inputs, n).failed <==> exists f :: Position(f) < n && Fails(env, gen, w, inputs, f)
  {
    hide FileStep, Steps, Reloads, Fails;
    if n == 0 {
      NoSteps(env, gen, w, inputs);
    } else {
      MarksIsolated(env, gen, w, inputs, n - 1);
      StepMarks(env, gen, w, inputs, n - 1);
      hide Marked;
      MarkedMore(env, gen, w, inputs, n - 1);
    }
  }

  /** Component isolation: whatever subset of the render and write steps fails, each
      file and its hash end as if its step ran alone, the services to reload are
      exactly those of the steps that changed a file without error, and the pass
      fails exactly when some step does. */
  lemma Isolation(env: Env, gen: int, w: Work, inputs: seq<Input>)
    requires |inputs| == COUNT && w.updated == {} && !w.failed
    ensures var r := Steps(env, gen, w, inputs, COUNT);
            forall f :: PairOf(r.pairs, f) == PairOf(Alone(env, gen, w, inputs, f).pairs, f) &&
                        HashOf(r.hashes, f) == HashOf(Alone(env, gen, w, inputs, f).hashes, f)
    ensures var r := Steps(env, gen, w, inputs, COUNT);
            r.updated == set f | Reloads(env, gen, w, inputs, f) :: ServiceOf(f)
    ensures Steps(env, gen, w, inputs, COUNT).failed <==> exists f :: Fails(env, gen, w, inputs, f)
  {
    MarksIsolated(env, gen, w, inputs, COUNT);
    assert forall f :: Position(f) < COUNT;
    forall f {
      FilesIsolated(env, gen, w, inputs, COUNT, f);
    }
  }

  /** The services to reload, one by one: each exactly if the step of one of its files
      changed the file without error. */
  predicate MarkedExactly(env: Env, gen: int, w: Work, inputs: seq<Input>, updated: set<Service>)
    requires |inputs| == COUNT
  {
    && (HAProxy in updated <==>
          Reloads(env, gen, w, inputs, HAProxyAPI) || Reloads(env, gen, w, inputs, HAProxyIngress))
    && (Keepalived in updated <==>
          Reloads(env, gen, w, inputs, KeepalivedConf) || Reloads(env, gen, w, inputs, Floaty))
    && (Conntrackd in updated <==> Reloads(env, gen, w, inputs, ConntrackdConf))
    && (NetworkManager in updated <==>
          Reloads(env, gen, w, inputs, PublicNM) || Reloads(env, gen, w, inputs, ClusterNetNM) ||
          Reloads(env, gen, w, inputs, KeepalivedDummyNM))
    && (Sysctl in updated <==> Reloads(env, gen, w, inputs, SysctlConf))
    && (Firewalld in updated <==>
          Reloads(env, gen, w, inputs, ExternalZone) || Reloads(env, gen, w, inputs, DirectRules))
  }

  lemma ReloadSetExactly(env: Env, gen: int, w: Work, inputs: seq<Input>)
    requires |inputs| == COUNT && w.updated == {} && !w.failed
    ensures MarkedExactly(env, gen, w, inputs, Steps(env, gen, w, inputs, COUNT).updated)
  {
    hide Reloads, Fails, Steps, FileStep;
    Isolation(env, gen, w, inputs);
    var updated := Steps(env, gen, w, inputs, COUNT).updated;
    forall s ensures s in updated <==> exists f :: ServiceOf(f) == s && Reloads(env, gen, w, inputs, f) {
    }
    forall f | Reloads(env, gen, w, inputs, f) ensures ServiceOf(f) in updated {
    }
  }

  // ---------------------------------------------------------------------
  // Quiescence
  // ---------------------------------------------------------------------

  /** Every file is accepted and carries the hash of its text. */
  ghost predicate Settled(env: Env, w: Work, inputs: seq<Input>)
    requires |inputs| == COUNT
  {
    forall f :: inputs[Position(f)].text.Some? &&
                Accepted(env.sha, PairOf(w.pairs, f)) &&
                HashOf(w.hashes, f) == env.sha(inputs[Position(f)].text.value)
  }

  lemma SuccessSettles(env: Env, gen: int, w: Work, inputs: seq<Input>)
    requires |inputs| == COUNT && w.updated == {} && !w.failed
    requires !Steps(env, gen, w, inputs, COUNT).failed
    ensures Settled(env, Steps(env, gen, w, inputs, COUNT), inputs)
  {
    Isolation(env, gen, w, inputs);
    forall f
      ensures inputs[Position(f)].text.Some?
      ensures var r := Alone(env, gen, w, inputs, f);
              Accepted(env.sha, PairOf(r.pairs, f)) && HashOf(r.hashes, f) == env.sha(inputs[Position(f)].text.value)
    {
      assert !Fails(env, gen, w, inputs, f);
    }
  }

  lemma SettledStep(env: Env, gen: int, w: Work, f: ConfigFile, i: Input)
    requires i.text.Some? && Accepted(env.sha, PairOf(w.pairs, f)) && HashOf(w.hashes, f) == env.sha(i.text.value)
    ensures FileStep(env, gen, w, f, i) == w.(done := w.done[f := i.text.value])
  {
  }

  lemma {:induction false} SettledSkips(env: Env, gen: int, w: Work, inputs: seq<Input>, n: nat)
    requires n <= |inputs| == COUNT && Settled(env, w, inputs)
    ensures var r := Steps(env, gen, w, inputs, n);
            r.pairs == w.pairs && r.hashes == w.hashes && r.updated == w.updated && r.failed == w.failed
  {
    hide FileStep, Accepted;
    if n > 0 {
      SettledSkips(env, gen, w, inputs, n - 1);
      OrderIsBijective(n - 1, FileAt(n - 1));
      SettledStep(env, gen, Steps(env, gen, w, inputs, n - 1), FileAt(n - 1), inputs[n - 1]);
    }
  }

  /** Quiescence: after a pass without errors, another pass over the untouched disk
      and the saved hashes that renders the same texts changes no file and no
      hash, reports no error and reloads nothing, whatever its writes would do
      and whatever generation it reads. */
  lemma Quiescence(env: Env, gen: int, gen': int, w: Work, inputs: seq<Input>, inputs': seq<Input>)
    requires |inputs| == COUNT == |inputs'| && w.updated == {} && !w.failed
    requires !Steps(env, gen, w, inputs, COUNT).failed
    requires forall i :: 0 <= i < COUNT ==> inputs'[i].text == inputs[i].text
    ensures var r := Steps(env, gen, w, inputs, COUNT);
            var again := Steps(env, gen', r.(updated := {}, done := map[]), inputs', COUNT);
            again.pairs == r.pairs && again.hashes == r.hashes && again.updated == {} && !again.failed
  {
    SuccessSettles(env, gen, w, inputs);
    var r := Steps(env, gen, w, inputs, COUNT).(updated := {}, done := map[]);
    assert Settled(env, r, inputs');
    SettledSkips(env, gen', r, inputs', COUNT);
  }
}
