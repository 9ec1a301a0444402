/** The theorems about one file's life, for every file of every host of a cluster. */
module Runs {
  import opened Prelude
  import opened FilePair
  import opened Files
  import opened Pass
  import opened Status
  import opened Cluster
  import Faults
  import Lane

  /** What a run of the cluster is for file `f` of host `h`. */
  function Projection(env: Env, c: State, es: seq<Event>, h: string, f: ConfigFile): seq<Lane.Event>
    requires Valid(env, c, es)
  {
    if es == [] then []
    else Projection(env, c, DropLast(es), h, f) + [Project(env, Run(env, c, DropLast(es)), Last(es), h, f)]
  }

  /** Refinement: every run of the cluster, of any number of hosts, is for each file
      of each host a run of that file's life that ends in the same place. */
  lemma {:induction false} RunProjects(env: Env, c: State, es: seq<Event>, h: string, f: ConfigFile)
    requires Idle(c) && Valid(env, c, es) && h in c.hosts
    ensures Placed(Run(env, c, es), h)
    ensures Lane.Valid(env.sha, FinalOf(env, f), View(c, h, f), Projection(env, c, es, h, f))
    ensures View(Run(env, c, es), h, f)
            == Lane.Run(env.sha, FinalOf(env, f), View(c, h, f), Projection(env, c, es, h, f))
  {
    if es != [] {
      var before := DropLast(es);
      RunProjects(env, c, before, h, f);
      InvRun(env, c, before);
      ViewStep(env, Run(env, c, before), Last(es), h, f);
      var ps := Projection(env, c, es, h, f);
      assert DropLast(ps) == Projection(env, c, before, h, f);
    }
  }

  /** No rendered text of the file returns after being replaced, and none collide. */
  ghost predicate Forward(env: Env, c: State, es: seq<Event>, h: string, f: ConfigFile)
    requires Valid(env, c, es)
  {
    var texts := Lane.Texts(Projection(env, c, es, h, f));
    Lane.NeverReturns(texts) && NoCollision(env.sha, Elems(texts))
  }

  // ---------------------------------------------------------------------
  // Stale copies of the status
  // ---------------------------------------------------------------------

  /** The hash that a version of the object has for file `f` of host `h`. */
  function HashIn(v: Version, h: string, f: ConfigFile): string {
    Stored(Nodes(v), h, f)
  }

  /** The hashes that the earlier versions have for it. */
  function Hashes(past: seq<Version>, h: string, f: ConfigFile): seq<string> {
    seq(|past|, i requires 0 <= i < |past| => HashIn(past[i], h, f))
  }

  /** The saved hashes, old and new, are those of rendered texts, and an old one is that
      of the newest text only if it is still the saved one. */
  ghost predicate PastKnown(sha: Sha, past: seq<string>, stored: string, texts: seq<string>) {
    Lane.KnownHash(sha, texts, stored) &&
    forall x :: x in past ==> Lane.KnownHash(sha, texts, x) && (texts != [] && x == sha(Last(texts)) ==> x == stored)
  }

  lemma PastKnownStep(sha: Sha, past: seq<string>, stored: string, texts: seq<string>,
                      past': seq<string>, stored': string, e: Lane.Event)
    requires IsSha(sha) && PastKnown(sha, past, stored, texts)
    requires Lane.NeverReturns(Lane.TextsAfter(texts, e)) && NoCollision(sha, Elems(Lane.TextsAfter(texts, e)))
    requires past' == past || past' == past + [stored]
    requires stored' == stored || (!e.Step? && texts != [] && stored' == sha(Last(texts)))
    ensures PastKnown(sha, past', stored', Lane.TextsAfter(texts, e))
  {
    assert forall x :: x in past' ==> x in past || x == stored;
    if e.Step? {
      hide Lane.KnownHash, Lane.NeverReturns, NoCollision;
      Lane.KnownAgain(sha, texts, e.text);
      assert Last(texts + [e.text]) == e.text;
    } else {
      assert Lane.TextsAfter(texts, e) == texts;
    }
  }

  /** A pass holds the saved hash or that of the newest text. */
  ghost predicate HoldsNewest(sha: Sha, l: Lane.Lane, texts: seq<string>) {
    l.mem == Some(l.stored) || (texts != [] && l.mem == Some(sha(Last(texts))))
  }

  /** The pass of the host, if there is one, has read the newest version. */
  predicate UpToDate(c: State, h: string) {
    h in c.hosts && c.hosts[h].progress.Some? && c.hosts[h].progress.value.version == c.version
  }

  ghost predicate PastInv(env: Env, c: State, h: string, f: ConfigFile, texts: seq<string>)
    requires Placed(c, h)
  {
    PastKnown(env.sha, Hashes(c.past, h, f), View(c, h, f).stored, texts) &&
    (UpToDate(c, h) ==> HoldsNewest(env.sha, View(c, h, f), texts))
  }

  lemma PastGrows(env: Env, c: State, e: Event, h: string, f: ConfigFile)
    requires Enabled(c, e) && Placed(c, h)
    ensures var r := Apply(env, c, e);
            Hashes(r.past, h, f) == Hashes(c.past, h, f) ||
            Hashes(r.past, h, f) == Hashes(c.past, h, f) + [View(c, h, f).stored]
  {
    hide Pass.FileStep;
    assert HashIn(Now(c), h, f) == View(c, h, f).stored;
  }

  /** A pass that is up to date after a step has just begun, or was before; and only
      such a pass saves its status. */
  lemma UpToDateBefore(env: Env, c: State, e: Event, h: string, f: ConfigFile)
    requires Inv(c) && Enabled(c, e) && Placed(c, h)
    ensures UpToDate(Apply(env, c, e), h) ==>
              Project(env, c, e, h, f).Begin? || (UpToDate(c, h) && !Project(env, c, e, h, f).BeginStale?)
    ensures Project(env, c, e, h, f) == Lane.Finish(true) ==> UpToDate(c, h)
  {
    hide Pass.FileStep;
  }

  /** What one event of a file's life does to the saved and to the held hash. */
  lemma HashesStep(env: Env, l: Lane.Lane, p: Lane.Event, f: ConfigFile, texts: seq<string>)
    requires Lane.Enabled(l, p)
    ensures var r := Lane.Apply(env.sha, FinalOf(env, f), l, p);
            r.stored == l.stored || (p == Lane.Finish(true) && l.mem == Some(r.stored))
    ensures var r := Lane.Apply(env.sha, FinalOf(env, f), l, p);
            r.mem.Some? && (p.Begin? || (HoldsNewest(env.sha, l, texts) && !p.BeginStale?)) ==>
              HoldsNewest(env.sha, r, Lane.TextsAfter(texts, p))
  {
    if p.Step? { assert Last(texts + [p.text]) == p.text; } else { assert Lane.TextsAfter(texts, p) == texts; }
  }

  lemma PastStep(env: Env, c: State, e: Event, h: string, f: ConfigFile, texts: seq<string>)
    requires IsSha(env.sha) && Inv(c) && Enabled(c, e) && Placed(c, h) && PastInv(env, c, h, f, texts)
    requires var after := Lane.TextsAfter(texts, Project(env, c, e, h, f));
             Lane.NeverReturns(after) && NoCollision(env.sha, Elems(after))
    ensures Placed(Apply(env, c, e), h)
    ensures PastInv(env, Apply(env, c, e), h, f, Lane.TextsAfter(texts, Project(env, c, e, h, f)))
  {
    hide Apply, Project, Enabled, Hashes, PastKnown, HostView, Pass.FileStep;
    hide Lane.Apply, Lane.TextsAfter, Lane.NeverReturns, NoCollision;
    var p, r, l := Project(env, c, e, h, f), Apply(env, c, e), View(c, h, f);
    ViewStep(env, c, e, h, f);
    PastGrows(env, c, e, h, f);
    UpToDateBefore(env, c, e, h, f);
    HashesStep(env, l, p, f, texts);
    PastKnownStep(env.sha, Hashes(c.past, h, f), l.stored, texts, Hashes(r.past, h, f), View(r, h, f).stored, p);
    if UpToDate(r, h) { HeldInPass(r, h, f); }
  }

  lemma HeldInPass(c: State, h: string, f: ConfigFile)
    requires Placed(c, h) && c.hosts[h].progress.Some?
    ensures View(c, h, f).mem.Some?
  {
  }

  lemma {:induction false} PastRun(env: Env, c: State, es: seq<Event>, h: string, f: ConfigFile)
    requires IsSha(env.sha) && Idle(c) && Valid(env, c, es) && h in c.hosts
    requires Stored(NodesOf(c), h, f) == "" && PastClean(c, h, f) && Forward(env, c, es, h, f)
    ensures Placed(Run(env, c, es), h)
    ensures PastInv(env, Run(env, c, es), h, f, Lane.Texts(Projection(env, c, es, h, f)))
  {
    hide Apply, Enabled, PastInv, Project;
    if es == [] {
      PastStart(env, c, h, f);
    } else {
      var before := DropLast(es);
      var ps := Projection(env, c, es, h, f);
      RunProjects(env, c, before, h, f);
      InvRun(env, c, before);
      assert DropLast(ps) == Projection(env, c, before, h, f);
      Lane.Shorter(env.sha, ps);
      PastRun(env, c, before, h, f);
      assert Lane.Texts(ps) == Lane.TextsAfter(Lane.Texts(DropLast(ps)), Last(ps));
      PastStep(env, Run(env, c, before), Last(es), h, f, Lane.Texts(DropLast(ps)));
    }
  }

  /** The run starts before anything was saved for the file. */
  ghost predicate PastClean(c: State, h: string, f: ConfigFile) {
    forall v :: v in c.past ==> HashIn(v, h, f) == ""
  }

  lemma PastStart(env: Env, c: State, h: string, f: ConfigFile)
    requires Idle(c) && h in c.hosts && Stored(NodesOf(c), h, f) == "" && PastClean(c, h, f)
    ensures PastInv(env, c, h, f, [])
  {
  }

  /** No outcome on this file was misleading, and outside changes left no accepted file
      of another text under the hash of the newest one. Stale reads are free. */
  ghost predicate Unmisled(env: Env, c: State, es: seq<Event>, h: string, f: ConfigFile)
    requires Idle(c) && Valid(env, c, es) && h in c.hosts
  {
    es == [] ||
    (Unmisled(env, c, DropLast(es), h, f) &&
     var b := Run(env, c, DropLast(es));
     var e := Project(env, b, Last(es), h, f);
     RunProjects(env, c, DropLast(es), h, f);
     (e.BeginStale? ||
      Lane.ConvergenceFault(env.sha, FinalOf(env, f), View(b, h, f), e, Lane.Texts(Projection(env, c, DropLast(es), h, f)))))
  }

  lemma InHashes(past: seq<Version>, v: Version, h: string, f: ConfigFile)
    requires v in past
    ensures HashIn(v, h, f) in Hashes(past, h, f)
  {
    var i :| 0 <= i < |past| && past[i] == v;
    assert Hashes(past, h, f)[i] == HashIn(v, h, f);
  }

  /** A stale hash is that of an older text, or else the saved one: it misleads nobody. */
  lemma StaleIsTruthful(env: Env, c: State, h: string, f: ConfigFile, v: Version, texts: seq<string>)
    requires Placed(c, h) && v in c.past && PastInv(env, c, h, f, texts)
    requires Lane.ConvergenceInv(env.sha, FinalOf(env, f), View(c, h, f), texts)
    ensures Lane.ConvergenceFault(env.sha, FinalOf(env, f), View(c, h, f), Lane.BeginStale(HashIn(v, h, f)), texts)
  {
    InHashes(c.past, v, h, f);
  }

  lemma {:induction false} UnmisledRun(env: Env, c: State, es: seq<Event>, h: string, f: ConfigFile)
    requires IsSha(env.sha) && Idle(c) && Valid(env, c, es) && h in c.hosts
    requires Stored(NodesOf(c), h, f) == "" && PastClean(c, h, f)
    requires Forward(env, c, es, h, f) && Unmisled(env, c, es, h, f)
    ensures Lane.Valid(env.sha, FinalOf(env, f), View(c, h, f), Projection(env, c, es, h, f))
    ensures Lane.ConvergenceRun(env.sha, FinalOf(env, f), View(c, h, f), Projection(env, c, es, h, f))
  {
    hide Apply, Enabled, PastInv, Lane.ConvergenceFault, Lane.ConvergenceInv, Lane.Apply, Lane.Enabled;
    RunProjects(env, c, es, h, f);
    if es != [] {
      var before := DropLast(es);
      var ps := Projection(env, c, es, h, f);
      RunProjects(env, c, before, h, f);
      assert DropLast(ps) == Projection(env, c, before, h, f);
      Lane.Shorter(env.sha, ps);
      UnmisledRun(env, c, before, h, f);
      Lane.ConvergenceInvRun(env.sha, FinalOf(env, f), View(c, h, f), DropLast(ps));
      PastRun(env, c, before, h, f);
      if Last(ps).BeginStale? {
        StaleFrom(env, Run(env, c, before), Last(es), h, f);
        StaleIsTruthful(env, Run(env, c, before), h, f, Last(es).read, Lane.Texts(DropLast(ps)));
      }
    }
  }

  lemma StaleFrom(env: Env, c: State, e: Event, h: string, f: ConfigFile)
    requires Enabled(c, e) && Project(env, c, e, h, f).BeginStale?
    ensures e.BeginStale? && e.read in c.past && Project(env, c, e, h, f) == Lane.BeginStale(HashIn(e.read, h, f))
  {
  }

  /** The last event compares file `f` of host `h` with `text` and reports success. */
  ghost predicate Compares(env: Env, c: State, es: seq<Event>, h: string, f: ConfigFile, text: string)
    requires Valid(env, c, es)
  {
    es != [] && Last(es).FileStep? && Last(es).host == h &&
    FileAt(Run(env, c, DropLast(es)).hosts[h].progress.value.next) == f &&
    Last(es).input.text == Some(text) &&
    h in Run(env, c, es).hosts && Run(env, c, es).hosts[h].progress.Some? &&
    Lookup(Run(env, c, es).hosts[h].progress.value.done, f) == Some(text)
  }

  /** Crash-tolerant convergence in a cluster: in every run of any number of hosts,
      with crashes at any system call, rejected status updates, stale reads, failed
      reloads, failed renders and tampering, a successful comparison leaves a final
      text made from the rendered one, whether it wrote or skipped. */
  lemma ConvergesInCluster(env: Env, c: State, es: seq<Event>, h: string, f: ConfigFile, text: string)
    requires IsSha(env.sha) && Idle(c) && Valid(env, c, es) && h in c.hosts
    requires Stored(NodesOf(c), h, f) == "" && PastClean(c, h, f)
    requires Forward(env, c, es, h, f) && Unmisled(env, c, es, h, f)
    requires Compares(env, c, es, h, f, text)
    ensures h in Run(env, c, es).hosts
    ensures Lane.Holds(FinalOf(env, f), PairOf(Run(env, c, es).hosts[h].pairs, f), text)
  {
    var final := FinalOf(env, f);
    var ps := Projection(env, c, es, h, f);
    RunProjects(env, c, es, h, f);
    UnmisledRun(env, c, es, h, f);
    RunProjects(env, c, DropLast(es), h, f);
    InvRun(env, c, DropLast(es));
    assert DropLast(ps) == Projection(env, c, DropLast(es), h, f);
    assert Last(ps).Step? && Last(ps).text == text;
    Lane.Convergence(env.sha, final, View(c, h, f), ps);
  }

  /** Host `h` suffers crashes and rejected status updates only. */
  predicate CrashesOnly(e: Event, h: string) {
    match e
    case FileStep(k, input, crash) => k == h ==> input.o.Completes? || crash
    case ReloadStep(k, _, ok) => k == h ==> ok
    case Tamper(k, _, _) => k != h
    case BeginStale(k, _, _) => k != h
    case _ => true
  }

  lemma {:induction false} ProjectsCrashesOnly(env: Env, c: State, es: seq<Event>, h: string, f: ConfigFile)
    requires Idle(c) && Valid(env, c, es) && h in c.hosts && c.hosts[h].live
    requires forall e :: e in es ==> CrashesOnly(e, h)
    ensures h in Run(env, c, es).hosts && Run(env, c, es).hosts[h].live
    ensures forall e :: e in Projection(env, c, es, h, f) ==> Lane.CrashesOnly(e)
  {
    hide Pass.FileStep;
    if es != [] {
      ProjectsCrashesOnly(env, c, DropLast(es), h, f);
      assert CrashesOnly(Last(es), h);
    }
  }

  /** A pass without errors so far has compared every file up to its position. */
  ghost predicate DoneInv(c: State) {
    forall h :: h in c.hosts && c.hosts[h].progress.Some? && !c.hosts[h].progress.value.failed ==>
      forall f :: Position(f) < c.hosts[h].progress.value.next ==> f in c.hosts[h].progress.value.done
  }

  lemma DoneStep(env: Env, gen: int, w: Work, i: nat, input: Input)
    requires i < COUNT
    requires !w.failed ==> forall f :: Position(f) < i ==> f in w.done
    ensures var r := Pass.FileStep(env, gen, w, FileAt(i), input);
            !r.failed ==> forall f :: Position(f) < i + 1 ==> f in r.done
  {
    OrderIsBijective(i, FileAt(i));
    assert forall f :: Position(f) == i ==> f == FileAt(i);
  }

  lemma {:induction false} DoneRun(env: Env, c: State, es: seq<Event>)
    requires Idle(c) && Valid(env, c, es)
    ensures DoneInv(Run(env, c, es))
  {
    if es != [] {
      DoneRun(env, c, DropLast(es));
      var b := Run(env, c, DropLast(es));
      var e := Last(es);
      if e.FileStep? {
        var p := b.hosts[e.host].progress.value;
        DoneStep(env, p.generation, WorkOf(b.hosts[e.host], e.host), p.next, e.input);
      }
    }
  }

  /** At-least-once reload in a cluster, file by file: in every run in which a live
      host suffers crashes and rejected status updates only, when it is about to
      send its status, a file that it compared and whose text never returns holds
      the rendered text, and its service has loaded exactly what the file holds. */
  lemma LoadedFileAtUpdate(env: Env, c: State, es: seq<Event>, h: string, f: ConfigFile)
    requires IsSha(env.sha) && Idle(c) && Valid(env, c, es) && h in c.hosts && c.hosts[h].live
    requires forall e :: e in es ==> CrashesOnly(e, h)
    requires Stored(NodesOf(c), h, f) == "" && Forward(env, c, es, h, f)
    requires Enabled(Run(env, c, es), Update(h)) && f in Run(env, c, es).hosts[h].progress.value.done
    ensures var host := Run(env, c, es).hosts[h];
            Accepted(env.sha, PairOf(host.pairs, f)) &&
            Lane.Holds(FinalOf(env, f), PairOf(host.pairs, f), host.progress.value.done[f]) &&
            Lookup(host.loaded, f) == PairOf(host.pairs, f).cfg
  {
    var b := Run(env, c, es);
    RunProjects(env, c, es, h, f);
    ProjectsCrashesOnly(env, c, es, h, f);
    Lane.ReloadedWhenDone(env.sha, FinalOf(env, f), View(c, h, f), Projection(env, c, es, h, f));
    assert View(b, h, f).done == Some(b.hosts[h].progress.value.done[f]);
  }

  /** No fault on this file loses a reload. Stale reads are free. */
  ghost predicate ReloadsKept(env: Env, c: State, es: seq<Event>, h: string, f: ConfigFile)
    requires Idle(c) && Valid(env, c, es) && h in c.hosts
  {
    es == [] ||
    (ReloadsKept(env, c, DropLast(es), h, f) &&
     var b := Run(env, c, DropLast(es));
     var e := Project(env, b, Last(es), h, f);
     RunProjects(env, c, DropLast(es), h, f);
     (e.BeginStale? ||
      Faults.KeepsReload(env.sha, FinalOf(env, f), View(b, h, f), e, Lane.Texts(Projection(env, c, DropLast(es), h, f)))))
  }

  lemma StaleKeepsReload(env: Env, c: State, h: string, f: ConfigFile, v: Version, texts: seq<string>)
    requires Placed(c, h) && c.hosts[h].progress.None? && v in c.past && PastInv(env, c, h, f, texts)
    requires Faults.LoadInv(env.sha, FinalOf(env, f), View(c, h, f), texts)
    ensures Faults.KeepsReload(env.sha, FinalOf(env, f), View(c, h, f), Lane.BeginStale(HashIn(v, h, f)), texts)
  {
    InHashes(c.past, v, h, f);
  }

  lemma {:induction false} ReloadsKeptRun(env: Env, c: State, es: seq<Event>, h: string, f: ConfigFile)
    requires IsSha(env.sha) && Idle(c) && Valid(env, c, es) && h in c.hosts
    requires Stored(NodesOf(c), h, f) == "" && PastClean(c, h, f)
    requires Forward(env, c, es, h, f) && ReloadsKept(env, c, es, h, f)
    ensures Lane.Valid(env.sha, FinalOf(env, f), View(c, h, f), Projection(env, c, es, h, f))
    ensures Faults.KeepsReloads(env.sha, FinalOf(env, f), View(c, h, f), Projection(env, c, es, h, f))
  {
    hide Apply, PastInv, Faults.KeepsReload, Faults.LoadInv, Lane.Apply, Lane.Enabled;
    RunProjects(env, c, es, h, f);
    if es != [] {
      var before := DropLast(es);
      var ps := Projection(env, c, es, h, f);
      RunProjects(env, c, before, h, f);
      assert DropLast(ps) == Projection(env, c, before, h, f);
      Lane.Shorter(env.sha, ps);
      ReloadsKeptRun(env, c, before, h, f);
      Faults.LoadInvRun(env.sha, FinalOf(env, f), View(c, h, f), DropLast(ps));
      PastRun(env, c, before, h, f);
      if Last(ps).BeginStale? {
        StaleFrom(env, Run(env, c, before), Last(es), h, f);
        StaleKeepsReload(env, Run(env, c, before), h, f, Last(es).read, Lane.Texts(DropLast(ps)));
      }
    }
  }

  /** The same with failed writes, outside changes, stale reads and all other faults
      that lose no reload, for a file that was not changed after its comparison. */
  lemma LoadedUnlessLost(env: Env, c: State, es: seq<Event>, h: string, f: ConfigFile)
    requires IsSha(env.sha) && Idle(c) && Valid(env, c, es) && h in c.hosts
    requires Stored(NodesOf(c), h, f) == "" && PastClean(c, h, f)
    requires Forward(env, c, es, h, f) && ReloadsKept(env, c, es, h, f)
    requires Enabled(Run(env, c, es), Update(h)) && f in Run(env, c, es).hosts[h].progress.value.done
    requires Accepted(env.sha, PairOf(Run(env, c, es).hosts[h].pairs, f))
    ensures var host := Run(env, c, es).hosts[h];
            Lane.Holds(FinalOf(env, f), PairOf(host.pairs, f), host.progress.value.done[f]) &&
            Lookup(host.loaded, f) == PairOf(host.pairs, f).cfg
  {
    var b := Run(env, c, es);
    RunProjects(env, c, es, h, f);
    ReloadsKeptRun(env, c, es, h, f);
    assert View(b, h, f).done == Some(b.hosts[h].progress.value.done[f]);
    Faults.LoadedUnlessLost(env.sha, FinalOf(env, f), View(c, h, f), Projection(env, c, es, h, f));
  }

  /** At-least-once reload in a cluster: the same for all files that the host
      compared, and a status of Ready means that these are all eleven. */
  lemma LoadedAtUpdate(env: Env, c: State, es: seq<Event>, h: string)
    requires IsSha(env.sha) && Idle(c) && Valid(env, c, es) && h in c.hosts && c.hosts[h].live
    requires forall e :: e in es ==> CrashesOnly(e, h)
    requires Enabled(Run(env, c, es), Update(h))
    ensures var host := Run(env, c, es).hosts[h];
            forall f :: f in host.progress.value.done && Stored(NodesOf(c), h, f) == "" && Forward(env, c, es, h, f) ==>
              Accepted(env.sha, PairOf(host.pairs, f)) &&
              Lane.Holds(FinalOf(env, f), PairOf(host.pairs, f), host.progress.value.done[f]) &&
              Lookup(host.loaded, f) == PairOf(host.pairs, f).cfg
    ensures var b := Run(env, c, es);
            Sent(b, h)[h].status == "Ready" ==> forall f :: f in b.hosts[h].progress.value.done
  {
    var b := Run(env, c, es);
    var host := b.hosts[h];
    forall f | f in host.progress.value.done && Stored(NodesOf(c), h, f) == "" && Forward(env, c, es, h, f)
      ensures Accepted(env.sha, PairOf(host.pairs, f)) &&
              Lane.Holds(FinalOf(env, f), PairOf(host.pairs, f), host.progress.value.done[f]) &&
              Lookup(host.loaded, f) == PairOf(host.pairs, f).cfg
    {
      LoadedFileAtUpdate(env, c, es, h, f);
    }
    DoneRun(env, c, es);
    assert forall f :: Position(f) < COUNT;
  }

  // ---------------------------------------------------------------------
  // Torn writes, and skipping against writing
  // ---------------------------------------------------------------------

  /** The final texts of file `f` that host `h` wrote completely. */
  ghost function WholeTexts(env: Env, c: State, es: seq<Event>, h: string, f: ConfigFile): set<string>
    requires Idle(c) && Valid(env, c, es) && h in c.hosts
  {
    RunProjects(env, c, es, h, f);
    Lane.WholeTexts(env.sha, FinalOf(env, f), View(c, h, f), Projection(env, c, es, h, f))
  }

  /** Nobody but the host changes the digest file. */
  ghost predicate DigestUntouched(env: Env, c: State, es: seq<Event>, h: string, f: ConfigFile)
    requires Idle(c) && Valid(env, c, es) && h in c.hosts
  {
    RunProjects(env, c, es, h, f);
    Lane.DigestUntouchedRun(env.sha, FinalOf(env, f), View(c, h, f), Projection(env, c, es, h, f))
  }

  /** Torn writes are never accepted, on any host of a cluster. */
  lemma TornNeverAccepted(env: Env, c: State, es: seq<Event>, h: string, f: ConfigFile)
    requires IsSha(env.sha) && Idle(c) && Valid(env, c, es) && h in c.hosts && h in Run(env, c, es).hosts
    requires PairOf(c.hosts[h].pairs, f).dig.None? && DigestUntouched(env, c, es, h, f)
    requires var p := PairOf(Run(env, c, es).hosts[h].pairs, f);
             Accepted(env.sha, p) && NoCollision(env.sha, WholeTexts(env, c, es, h, f) + {p.cfg.value})
    ensures PairOf(Run(env, c, es).hosts[h].pairs, f).cfg.value in WholeTexts(env, c, es, h, f)
  {
    RunProjects(env, c, es, h, f);
    Lane.TornNeverAccepted(env.sha, FinalOf(env, f), View(c, h, f), Projection(env, c, es, h, f));
  }

  /** On this file every write completes and every status update is accepted. */
  ghost predicate FaultFree(env: Env, c: State, es: seq<Event>, h: string, f: ConfigFile)
    requires Idle(c) && Valid(env, c, es) && h in c.hosts
  {
    RunProjects(env, c, es, h, f);
    Lane.FaultFreeRun(env.sha, FinalOf(env, f), View(c, h, f), Projection(env, c, es, h, f))
  }

  /** Without lost work, each file of a host is up to the stamp what it would be if
      every pass had written it. */
  lemma SkippingRefinesWriting(env: Env, c: State, es: seq<Event>, h: string, f: ConfigFile)
    requires IsSha(env.sha) && Idle(c) && Valid(env, c, es) && h in c.hosts && h in Run(env, c, es).hosts
    requires !Accepted(env.sha, PairOf(c.hosts[h].pairs, f)) || Stored(NodesOf(c), h, f) == ""
    requires FaultFree(env, c, es, h, f) && NoCollision(env.sha, Elems(Lane.Texts(Projection(env, c, es, h, f))))
    ensures var eager := Lane.EagerRun(env.sha, FinalOf(env, f), PairOf(c.hosts[h].pairs, f), Projection(env, c, es, h, f));
            Lane.SameUpToStamp(env.sha, FinalOf(env, f), PairOf(Run(env, c, es).hosts[h].pairs, f), eager)
  {
    RunProjects(env, c, es, h, f);
    Lane.SkippingRefinesWriting(env.sha, FinalOf(env, f), View(c, h, f), Projection(env, c, es, h, f));
  }

  // ---------------------------------------------------------------------
  // An undisturbed pass
  // ---------------------------------------------------------------------

  /** The first events of a pass of host `h` that nothing interrupts. */
  function PassEvents(h: string, facts: Facts, inputs: seq<Input>, n: nat): seq<Event>
    requires n <= |inputs|
  {
    if n == 0 then [Begin(h, Some(facts))]
    else PassEvents(h, facts, inputs, n - 1) + [FileStep(h, inputs[n - 1], false)]
  }

  /** The entry of a host when its pass begins. */
  function EntryAt(c: State, h: string): Node
    requires Admitted(c, h)
  {
    if c.nodes.None? then EMPTY_NODE else c.nodes.value[h]
  }

  /** The cluster while host `h` is in a pass that has come to `w` before file `n`. */
  function InPassAt(c: State, h: string, facts: Facts, w: Work, n: nat): State
    requires h in c.hosts && Admitted(c, h)
  {
    var nodes := NodesOf(c)[h := Configuring(EntryAt(c, h), facts).(hashes := w.hashes)];
    var p := Progress(c.version, c.generation, nodes, n, w.updated, w.done, w.failed);
    SetHost(c, h, Host(c.hosts[h].live, w.pairs, Some(p), c.hosts[h].loaded))
  }

  lemma InPassStep(env: Env, c: State, h: string, facts: Facts, w: Work, n: nat, input: Input)
    requires h in c.hosts && Admitted(c, h) && n < COUNT
    ensures var e := FileStep(h, input, false);
            Enabled(InPassAt(c, h, facts, w, n), e) &&
            Apply(env, InPassAt(c, h, facts, w, n), e)
            == InPassAt(c, h, facts, Pass.FileStep(env, c.generation, w, FileAt(n), input), n + 1)
  {
    hide Pass.FileStep;
    var b := InPassAt(c, h, facts, w, n);
    var w' := Pass.FileStep(env, c.generation, w, FileAt(n), input);
    assert WorkOf(b.hosts[h], h) == w;
    assert b.hosts[h].progress.value.nodes[h := b.hosts[h].progress.value.nodes[h].(hashes := w'.hashes)]
        == NodesOf(c)[h := Configuring(EntryAt(c, h), facts).(hashes := w'.hashes)];
  }

  /** The state of a pass of host `h` before its first step. */
  function WorkAt(c: State, h: string): Work
    requires h in c.hosts && Admitted(c, h)
  {
    Work(c.hosts[h].pairs, EntryAt(c, h).hashes, {}, map[], false)
  }

  lemma PassBegins(env: Env, c: State, h: string, facts: Facts)
    requires h in c.hosts && c.hosts[h].progress.None? && Admitted(c, h)
    ensures Valid(env, c, [Begin(h, Some(facts))])
    ensures Run(env, c, [Begin(h, Some(facts))]) == InPassAt(c, h, facts, WorkAt(c, h), 0)
  {
    var entry := Configuring(EntryAt(c, h), facts);
    assert map[h := EMPTY_NODE][h := entry] == (map[])[h := entry];
    assert [] + [Begin(h, Some(facts))] == [Begin(h, Some(facts))];
    Extend(env, c, [], Begin(h, Some(facts)));
  }

  /** In the cluster, an undisturbed pass computes what the controller computes: after
      each file the pass has come to the steps of one pass, and nothing else in the
      cluster has changed. */
  lemma {:induction false} PassIsRun(env: Env, c: State, h: string, facts: Facts, inputs: seq<Input>, n: nat)
    requires h in c.hosts && c.hosts[h].progress.None? && Admitted(c, h)
    requires n <= |inputs| == COUNT
    ensures Valid(env, c, PassEvents(h, facts, inputs, n))
    ensures Run(env, c, PassEvents(h, facts, inputs, n))
            == InPassAt(c, h, facts, Steps(env, c.generation, WorkAt(c, h), inputs, n), n)
  {
    hide Pass.FileStep, InPassAt, Enabled, Apply;
    if n == 0 {
      PassBegins(env, c, h, facts);
      NoSteps(env, c.generation, WorkAt(c, h), inputs);
    } else {
      var w := Steps(env, c.generation, WorkAt(c, h), inputs, n - 1);
      PassIsRun(env, c, h, facts, inputs, n - 1);
      InPassStep(env, c, h, facts, w, n - 1, inputs[n - 1]);
      Extend(env, c, PassEvents(h, facts, inputs, n - 1), FileStep(h, inputs[n - 1], false));
    }
  }

  // ---------------------------------------------------------------------
  // A pass with its reloads and its update
  // ---------------------------------------------------------------------

  /** The reloads of a pass, all successful or all failing. */
  function ReloadEvents(h: string, order: seq<Service>, ok: bool): seq<Event> {
    if order == [] then []
    else ReloadEvents(h, DropLast(order), ok) + [ReloadStep(h, Last(order), ok)]
  }

  /** The cluster after the reloads of some services in the pass of host `h`. */
  function WithReloads(b: State, h: string, ss: set<Service>, ok: bool): State
    requires Running(b, h)
  {
    var host := b.hosts[h];
    var p := host.progress.value;
    SetHost(b, h, host.(
      progress := Some(p.(updated := p.updated - ss, failed := p.failed || (host.live && !ok && ss != {}))),
      loaded := if host.live && ok then Loaded(host.pairs, host.loaded, ss) else host.loaded))
  }

  lemma NothingReloaded(b: State, h: string, ok: bool)
    requires Running(b, h)
    ensures WithReloads(b, h, {}, ok) == b
  {
    var host := b.hosts[h];
    assert Loaded(host.pairs, host.loaded, {}) == host.loaded;
    assert host.progress.value.updated - {} == host.progress.value.updated;
  }

  lemma OneMoreReload(env: Env, b: State, h: string, ss: set<Service>, s: Service, ok: bool)
    requires Running(b, h) && b.hosts[h].progress.value.next == COUNT
    requires s in b.hosts[h].progress.value.updated && s !in ss
    ensures var c := WithReloads(b, h, ss, ok);
            Enabled(c, ReloadStep(h, s, ok)) && Apply(env, c, ReloadStep(h, s, ok)) == WithReloads(b, h, ss + {s}, ok)
  {
    var host := b.hosts[h];
    var updated := host.progress.value.updated;
    assert Loaded(host.pairs, Loaded(host.pairs, host.loaded, ss), {s}) == Loaded(host.pairs, host.loaded, ss + {s});
    assert (updated - ss) - {s} == updated - (ss + {s});
  }

  lemma {:induction false} ReloadsRun(env: Env, b: State, h: string, order: seq<Service>, ok: bool)
    requires Running(b, h) && b.hosts[h].progress.value.next == COUNT
    requires Distinct(order) && Elems(order) <= b.hosts[h].progress.value.updated
    ensures Valid(env, b, ReloadEvents(h, order, ok))
    ensures Run(env, b, ReloadEvents(h, order, ok)) == WithReloads(b, h, Elems(order), ok)
  {
    hide Apply, Enabled, WithReloads, ReloadHost;
    if order == [] {
      NothingReloaded(b, h, ok);
      assert Elems(order) == {};
    } else {
      var front, s := DropLast(order), Last(order);
      assert order == front + [s];
      assert Elems(order) == Elems(front) + {s};
      assert s in order && s !in front;
      ReloadsRun(env, b, h, front, ok);
      OneMoreReload(env, b, h, Elems(front), s, ok);
      Extend(env, b, ReloadEvents(h, front, ok), ReloadStep(h, s, ok));
    }
  }

  lemma {:induction false} Joined(env: Env, c: State, es: seq<Event>, fs: seq<Event>)
    requires Valid(env, c, es) && Valid(env, Run(env, c, es), fs)
    ensures Valid(env, c, es + fs) && Run(env, c, es + fs) == Run(env, Run(env, c, es), fs)
    decreases |fs|
  {
    hide Apply, Enabled;
    if fs == [] {
      assert es + fs == es;
    } else {
      Joined(env, c, es, DropLast(fs));
      assert es + fs == (es + DropLast(fs)) + [Last(fs)];
      Extend(env, c, es + DropLast(fs), Last(fs));
    }
  }

  /** One whole pass of host `h` that nothing interrupts: the files, the reloads in
      some order, and the update. */
  function WholePass(h: string, facts: Facts, inputs: seq<Input>, order: seq<Service>, ok: bool): seq<Event>
    requires |inputs| == COUNT
  {
    PassEvents(h, facts, inputs, COUNT) + ReloadEvents(h, order, ok) + [Update(h)]
  }

  /** The order names exactly the services that the pass marks. */
  ghost predicate Covers(env: Env, c: State, h: string, inputs: seq<Input>, order: seq<Service>)
    requires h in c.hosts && Admitted(c, h) && |inputs| == COUNT
  {
    Distinct(order) && Elems(order) == Steps(env, c.generation, WorkAt(c, h), inputs, COUNT).updated
  }

  /** The cluster after a pass that has come to `w`, with its reloads and its update. */
  function PassEnd(c: State, h: string, facts: Facts, w: Work, ok: bool): State
    requires h in c.hosts && Admitted(c, h)
  {
    var host := c.hosts[h];
    var failed := w.failed || (host.live && !ok && w.updated != {});
    var nodes := NodesOf(c)[h := Configuring(EntryAt(c, h), facts).(hashes := w.hashes, status := Verdict(failed))];
    var after := Host(host.live, w.pairs, None,
                      if host.live && ok then Loaded(w.pairs, host.loaded, w.updated) else host.loaded);
    var c' := SetHost(c, h, after);
    if c.nodes == Some(nodes) then c'
    else c'.(version := c.version + 1, nodes := Some(nodes), past := c.past + [Now(c)])
  }

  lemma UpdateEnds(c: State, h: string, facts: Facts, w: Work, ok: bool)
    requires h in c.hosts && Admitted(c, h)
    ensures var b := WithReloads(InPassAt(c, h, facts, w, COUNT), h, w.updated, ok);
            Enabled(b, Update(h)) && UpdateStatus(b, h) == PassEnd(c, h, facts, w, ok)
  {
    var b := WithReloads(InPassAt(c, h, facts, w, COUNT), h, w.updated, ok);
    var entry := Configuring(EntryAt(c, h), facts).(hashes := w.hashes);
    var failed := w.failed || (c.hosts[h].live && !ok && w.updated != {});
    assert w.updated - w.updated == {};
    assert Sent(b, h) == NodesOf(c)[h := entry.(status := Verdict(failed))];
  }

  /** The entry at the end of a pass, field by field. */
  lemma EndFields(c: State, h: string, facts: Facts, w: Work, ok: bool)
    requires h in c.hosts && Admitted(c, h)
    ensures var r := PassEnd(c, h, facts, w, ok);
            h in NodesOf(r) && h in r.hosts && NodesOf(r)[h].hashes == w.hashes && r.hosts[h].pairs == w.pairs &&
            NodesOf(r)[h].publicIP == facts.publicIP && NodesOf(r)[h].privateIP == facts.privateIP &&
            NodesOf(r)[h].vrrpIP == facts.vrrpIP &&
            NodesOf(r)[h].status == if w.failed || (c.hosts[h].live && !ok && w.updated != {}) then "Failed" else "Ready"
  {
  }

  lemma WholePassRuns(env: Env, c: State, h: string, facts: Facts, inputs: seq<Input>, order: seq<Service>, ok: bool)
    requires h in c.hosts && c.hosts[h].progress.None? && Admitted(c, h) && |inputs| == COUNT
    requires Covers(env, c, h, inputs, order)
    ensures Valid(env, c, WholePass(h, facts, inputs, order, ok))
    ensures Run(env, c, WholePass(h, facts, inputs, order, ok))
            == PassEnd(c, h, facts, Steps(env, c.generation, WorkAt(c, h), inputs, COUNT), ok)
    ensures var r := Run(env, c, WholePass(h, facts, inputs, order, ok));
            var w := Steps(env, c.generation, WorkAt(c, h), inputs, COUNT);
            h in NodesOf(r) && h in r.hosts && NodesOf(r)[h].hashes == w.hashes && r.hosts[h].pairs == w.pairs &&
            NodesOf(r)[h].publicIP == facts.publicIP && NodesOf(r)[h].privateIP == facts.privateIP &&
            NodesOf(r)[h].vrrpIP == facts.vrrpIP &&
            NodesOf(r)[h].status == if w.failed || (c.hosts[h].live && !ok && order != []) then "Failed" else "Ready"
  {
    hide Pass.FileStep, Steps, WithReloads, PassEnd, UpdateStatus, Valid, Run;
    var w := Steps(env, c.generation, WorkAt(c, h), inputs, COUNT);
    var es, fs := PassEvents(h, facts, inputs, COUNT), ReloadEvents(h, order, ok);
    PassIsRun(env, c, h, facts, inputs, COUNT);
    ReloadsRun(env, InPassAt(c, h, facts, w, COUNT), h, order, ok);
    Joined(env, c, es, fs);
    UpdateEnds(c, h, facts, w, ok);
    Extend(env, c, es + fs, Update(h));
    EndFields(c, h, facts, w, ok);
    assert order != [] <==> w.updated != {} by { if order != [] { assert order[0] in Elems(order); } }
  }

  /** Quiescence of the cluster: a pass that finds its files settled marks no service,
      and if it also finds its entry as it would send it, it ends where it began. Its
      update then saves nothing, so that an accepted status causes no further
      reconcile. */
  lemma SettledPassIsSilent(env: Env, c: State, h: string, facts: Facts, inputs: seq<Input>)
    requires h in c.hosts && c.hosts[h].progress.None? && h in NodesOf(c) && |inputs| == COUNT
    requires Settled(env, WorkAt(c, h), inputs)
    ensures Covers(env, c, h, inputs, []) && Valid(env, c, WholePass(h, facts, inputs, [], true))
    ensures var r := Run(env, c, WholePass(h, facts, inputs, [], true));
            h in NodesOf(r) && NodesOf(r)[h] == Configuring(NodesOf(c)[h], facts).(status := READY) && r.hosts == c.hosts &&
            (NodesOf(c)[h] == NodesOf(r)[h] ==> r == c)
  {
    hide Pass.FileStep, Steps, WholePass, Valid, Run;
    SettledSkips(env, c.generation, WorkAt(c, h), inputs, COUNT);
    assert Elems<Service>([]) == {};
    WholePassRuns(env, c, h, facts, inputs, [], true);
    var w := Steps(env, c.generation, WorkAt(c, h), inputs, COUNT);
    assert Loaded(w.pairs, c.hosts[h].loaded, {}) == c.hosts[h].loaded;
    assert c.hosts[h := c.hosts[h]] == c.hosts;
    assert NodesOf(c)[h := NodesOf(c)[h]] == NodesOf(c);
  }

  /** After a whole pass without errors, another one that renders the same texts ends
      where it began, whatever its generation and whatever order the reloads of the
      first one took. */
  lemma PassThenSilence(env: Env, c: State, h: string, facts: Facts, inputs: seq<Input>, inputs': seq<Input>, order: seq<Service>)
    requires h in c.hosts && c.hosts[h].progress.None? && Admitted(c, h) && |inputs| == COUNT == |inputs'|
    requires Covers(env, c, h, inputs, order) && !Steps(env, c.generation, WorkAt(c, h), inputs, COUNT).failed
    requires forall i :: 0 <= i < COUNT ==> inputs'[i].text == inputs[i].text
    ensures var first, second := WholePass(h, facts, inputs, order, true), WholePass(h, facts, inputs', [], true);
            Valid(env, c, first) && Valid(env, c, first + second) &&
            Run(env, c, first + second) == Run(env, c, first)
  {
    hide Pass.FileStep, Steps, WholePass, Valid, Run;
    var w := Steps(env, c.generation, WorkAt(c, h), inputs, COUNT);
    WholePassRuns(env, c, h, facts, inputs, order, true);
    SuccessSettles(env, c.generation, WorkAt(c, h), inputs);
    var d := PassEnd(c, h, facts, w, true);
    assert Settled(env, WorkAt(d, h), inputs');
    SettledPassIsSilent(env, d, h, facts, inputs');
    assert Configuring(NodesOf(d)[h], facts).(status := READY) == NodesOf(d)[h];
    Joined(env, c, WholePass(h, facts, inputs, order, true), WholePass(h, facts, inputs', [], true));
  }

  // ---------------------------------------------------------------------
  // What a status of Ready means
  // ---------------------------------------------------------------------

  ghost predicate AllLoaded(host: Host) {
    forall f :: Lookup(host.loaded, f) == PairOf(host.pairs, f).cfg
  }

  /** Ready, exactly: after a whole pass of a live host without errors and with
      successful reloads, the status is Ready, and all files are loaded if and only
      if the files of the services that were not reloaded were loaded before. */
  lemma ReadyIsTrueExactly(env: Env, c: State, h: string, facts: Facts, inputs: seq<Input>, order: seq<Service>)
    requires h in c.hosts && c.hosts[h].progress.None? && Admitted(c, h) && c.hosts[h].live && |inputs| == COUNT
    requires Covers(env, c, h, inputs, order) && !Steps(env, c.generation, WorkAt(c, h), inputs, COUNT).failed
    ensures Valid(env, c, WholePass(h, facts, inputs, order, true))
    ensures var r := Run(env, c, WholePass(h, facts, inputs, order, true));
            h in NodesOf(r) && h in r.hosts && NodesOf(r)[h].status == "Ready" &&
            (AllLoaded(r.hosts[h]) <==>
              forall f :: ServiceOf(f) !in Elems(order) ==> Lookup(c.hosts[h].loaded, f) == PairOf(c.hosts[h].pairs, f).cfg)
  {
    hide Pass.FileStep, Steps, WholePass, Valid, Run;
    var w := Steps(env, c.generation, WorkAt(c, h), inputs, COUNT);
    WholePassRuns(env, c, h, facts, inputs, order, true);
    forall f
      ensures Lookup(Loaded(w.pairs, c.hosts[h].loaded, w.updated), f) == PairOf(w.pairs, f).cfg
         <==> (ServiceOf(f) !in w.updated ==> Lookup(c.hosts[h].loaded, f) == PairOf(c.hosts[h].pairs, f).cfg)
    {
      if ServiceOf(f) !in w.updated { UnmarkedUntouched(env, c.generation, WorkAt(c, h), inputs, f); }
    }
  }

  /** In a pass without errors the files of unmarked services stay as they are. */
  lemma UnmarkedUntouched(env: Env, gen: int, w: Work, inputs: seq<Input>, f: ConfigFile)
    requires |inputs| == COUNT && w.updated == {} && !w.failed
    requires var r := Steps(env, gen, w, inputs, COUNT); !r.failed && ServiceOf(f) !in r.updated
    ensures PairOf(Steps(env, gen, w, inputs, COUNT).pairs, f) == PairOf(w.pairs, f)
  {
    Isolation(env, gen, w, inputs);
    assert !Fails(env, gen, w, inputs, f) && !Reloads(env, gen, w, inputs, f);
  }

  /** A false Ready: when the files were written and the reloads failed, the status is
      Failed, but the next pass over the same texts sends Ready, and the services
      still have what they had before. */
  lemma FalseReady(env: Env, c: State, h: string, facts: Facts, inputs: seq<Input>, inputs': seq<Input>, order: seq<Service>)
    requires h in c.hosts && c.hosts[h].progress.None? && Admitted(c, h) && c.hosts[h].live && |inputs| == COUNT == |inputs'|
    requires Covers(env, c, h, inputs, order) && order != []
    requires !Steps(env, c.generation, WorkAt(c, h), inputs, COUNT).failed
    requires forall i :: 0 <= i < COUNT ==> inputs'[i].text == inputs[i].text
    ensures var first, second := WholePass(h, facts, inputs, order, false), WholePass(h, facts, inputs', [], true);
            Valid(env, c, first) && Valid(env, c, first + second) &&
            (var r := Run(env, c, first);
             h in NodesOf(r) && h in r.hosts && NodesOf(r)[h].status == "Failed" && r.hosts[h].loaded == c.hosts[h].loaded) &&
            (var r := Run(env, c, first + second);
             h in NodesOf(r) && h in r.hosts && NodesOf(r)[h].status == "Ready" && r.hosts[h].loaded == c.hosts[h].loaded &&
             forall f :: Reloads(env, c.generation, WorkAt(c, h), inputs, f) ==>
               PairOf(r.hosts[h].pairs, f).cfg == Some(env.final(f, c.generation, inputs[Position(f)].text.value)))
  {
    hide Pass.FileStep, Steps, WholePass, Valid, Run;
    var w := Steps(env, c.generation, WorkAt(c, h), inputs, COUNT);
    assert order[0] in Elems(order);
    WholePassRuns(env, c, h, facts, inputs, order, false);
    SuccessSettles(env, c.generation, WorkAt(c, h), inputs);
    var d := PassEnd(c, h, facts, w, false);
    assert Settled(env, WorkAt(d, h), inputs');
    SettledPassIsSilent(env, d, h, facts, inputs');
    Joined(env, c, WholePass(h, facts, inputs, order, false), WholePass(h, facts, inputs', [], true));
    forall f | Reloads(env, c.generation, WorkAt(c, h), inputs, f)
      ensures PairOf(w.pairs, f).cfg == Some(env.final(f, c.generation, inputs[Position(f)].text.value))
    {
      WrittenByReload(env, c.generation, WorkAt(c, h), inputs, f);
    }
  }

  lemma WrittenByReload(env: Env, gen: int, w: Work, inputs: seq<Input>, f: ConfigFile)
    requires |inputs| == COUNT && w.updated == {} && !w.failed && Reloads(env, gen, w, inputs, f)
    ensures PairOf(Steps(env, gen, w, inputs, COUNT).pairs, f).cfg == Some(env.final(f, gen, inputs[Position(f)].text.value))
  {
    Isolation(env, gen, w, inputs);
  }
}
