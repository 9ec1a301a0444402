/** The life of one managed file on one load balancer host: the pair on disk,
    the hash in the shared status, the copy of that hash a running reconcile
    holds, and the content its service has loaded. */
module Lane {
  import opened Prelude
  import opened FilePair

  /** How the file's final text is made from the generation and the rendered text. */
  type Finalizer = (int, string) -> string

  datatype Compared = Compared(pair: Pair, hash: string, changed: bool, failed: bool)

  /** CompareAndWrite, given where WriteConfig would stop. The hash of the new
      text is recorded before the write is tried. */
  function CompareAndWrite(sha: Sha, p: Pair, hash: string, text: string, final: string, o: Outcome): Compared {
    if Accepted(sha, p) && hash == sha(text) then Compared(p, hash, false, false)
    else Compared(Written(sha, p, final, o), sha(text), true, !o.Completes?)
  }

  /** `mem` is the hash a running reconcile holds, `done` the text it compared
      without error, `pending` says that its service is marked for reload, and
      `loaded` is the content the service read last. */
  datatype Lane = Lane(
    pair: Pair,
    stored: string,
    mem: Option<string>,
    done: Option<string>,
    pending: bool,
    loaded: Option<string>)

  /** A reconcile begins with the saved hash, or with an older one from a stale copy
      of the status. */
  datatype Event =
    | Idle
    | Begin
    | BeginStale(hash: string)
    | Step(gen: int, text: string, o: Outcome, crash: bool)
    | Flag
    | Reload(ok: bool)
    | Finish(accepted: bool)
    | Crash
    | Tamper(pair: Pair)

  predicate Enabled(l: Lane, e: Event) {
    match e
    case Begin | BeginStale(_) => l.mem.None?
    case Step(_, _, _, _) | Flag | Reload(_) => l.mem.Some?
    case Finish(_) => l.mem.Some? && !l.pending
    case _ => true
  }

  function Forget(l: Lane): Lane {
    l.(mem := None, done := None, pending := false)
  }

  function Apply(sha: Sha, final: Finalizer, l: Lane, e: Event): Lane
    requires Enabled(l, e)
  {
    match e
    case Idle => l
    case Begin => l.(mem := Some(l.stored), done := None, pending := false)
    case BeginStale(hash) => l.(mem := Some(hash), done := None, pending := false)
    case Step(gen, text, o, crash) =>
      var c := CompareAndWrite(sha, l.pair, l.mem.value, text, final(gen, text), o);
      if crash then Forget(l.(pair := c.pair))
      else l.(pair := c.pair, mem := Some(c.hash),
              done := if c.failed then None else Some(text),
              pending := l.pending || (c.changed && !c.failed))
    case Flag => l.(pending := true)
    case Reload(ok) => l.(pending := false, loaded := if ok then l.pair.cfg else l.loaded)
    case Finish(accepted) => Forget(l.(stored := if accepted then l.mem.value else l.stored))
    case Crash => Forget(l)
    case Tamper(p) => l.(pair := p)
  }

  predicate Valid(sha: Sha, final: Finalizer, l: Lane, es: seq<Event>)
    decreases |es|, 0
  {
    es == [] ||
    (Valid(sha, final, l, DropLast(es)) && Enabled(Run(sha, final, l, DropLast(es)), Last(es)))
  }

  function Run(sha: Sha, final: Finalizer, l: Lane, es: seq<Event>): Lane
    requires Valid(sha, final, l, es)
    decreases |es|, 1
  {
    if es == [] then l
    else Apply(sha, final, Run(sha, final, l, DropLast(es)), Last(es))
  }

  /** The texts rendered for the file, in order. */
  function Texts(es: seq<Event>): seq<string> {
    if es == [] then []
    else Texts(DropLast(es)) + (if Last(es).Step? then [Last(es).text] else [])
  }

  lemma {:induction false} Append(sha: Sha, final: Finalizer, l: Lane, es: seq<Event>, fs: seq<Event>)
    requires Valid(sha, final, l, es) && Valid(sha, final, Run(sha, final, l, es), fs)
    ensures Valid(sha, final, l, es + fs)
    ensures Run(sha, final, l, es + fs) == Run(sha, final, Run(sha, final, l, es), fs)
    ensures Texts(es + fs) == Texts(es) + Texts(fs)
    decreases |fs|
  {
    if fs == [] {
      assert es + fs == es;
    } else {
      Append(sha, final, l, es, DropLast(fs));
      assert DropLast(es + fs) == es + DropLast(fs);
    }
  }

  lemma RunOne(sha: Sha, final: Finalizer, l: Lane, e: Event)
    requires Enabled(l, e)
    ensures Valid(sha, final, l, [e]) && Run(sha, final, l, [e]) == Apply(sha, final, l, e)
    ensures Texts([e]) == if e.Step? then [e.text] else []
  {
    assert DropLast([e]) == [];
  }

  lemma RunTwo(sha: Sha, final: Finalizer, l: Lane, e: Event, f: Event)
    requires Enabled(l, e) && Enabled(Apply(sha, final, l, e), f)
    ensures Valid(sha, final, l, [e, f])
    ensures Run(sha, final, l, [e, f]) == Apply(sha, final, Apply(sha, final, l, e), f)
    ensures Texts([e, f]) == (if e.Step? then [e.text] else []) + (if f.Step? then [f.text] else [])
  {
    RunOne(sha, final, l, e);
    RunOne(sha, final, Apply(sha, final, l, e), f);
    Append(sha, final, l, [e], [f]);
    assert [e] + [f] == [e, f];
  }

  /** The config file holds a final text made from `text`, of some generation. */
  ghost predicate Holds(final: Finalizer, p: Pair, text: string) {
    exists gen :: p.cfg == Some(final(gen, text))
  }

  /** A text, once replaced by another one, is not rendered again. */
  ghost predicate NeverReturns(texts: seq<string>) {
    forall i, j, k :: 0 <= i < j < k < |texts| && texts[i] == texts[k] ==> texts[j] == texts[i]
  }

  lemma NeverReturnsStep(texts: seq<string>, t: string)
    requires NeverReturns(texts + [t])
    ensures NeverReturns(texts)
    ensures t in texts ==> t == Last(texts)
  {
    var all := texts + [t];
    forall i, j, k | 0 <= i < j < k < |texts| && texts[i] == texts[k]
      ensures texts[j] == texts[i]
    {
      assert all[i] == all[k] && all[j] == texts[j];
    }
    if t in texts {
      var i :| 0 <= i < |texts| && texts[i] == t;
      assert all[i] == all[|texts|] && all[|texts| - 1] == Last(texts);
    }
  }

  ghost predicate KnownHash(sha: Sha, texts: seq<string>, hash: string) {
    hash == "" || exists t :: t in texts && hash == sha(t)
  }

  /** Without returns and collisions only the newest text can have a known hash again. */
  lemma KnownAgain(sha: Sha, texts: seq<string>, t: string)
    requires IsSha(sha) && NeverReturns(texts + [t]) && NoCollision(sha, Elems(texts + [t]))
    ensures forall h :: KnownHash(sha, texts, h) ==> KnownHash(sha, texts + [t], h)
    ensures forall h :: KnownHash(sha, texts, h) && h == sha(t) ==> texts != [] && t == Last(texts)
    ensures KnownHash(sha, texts + [t], sha(t))
  {
    var after := texts + [t];
    NeverReturnsStep(texts, t);
    assert t in after && forall x :: x in texts ==> x in after;
    assert forall x :: x in after ==> x in Elems(after);
  }

  // ---------------------------------------------------------------------
  // One comparison
  // ---------------------------------------------------------------------

  /** CompareAndWrite that reports success leaves the rendered text on disk
      unless it skips over an accepted file made from another text although
      the hash it compares is that of the rendered one. */
  lemma ConvergesExactly(sha: Sha, final: Finalizer, p: Pair, hash: string, gen: int, text: string)
    ensures Holds(final, CompareAndWrite(sha, p, hash, text, final(gen, text), Completes).pair, text)
       <==> !(Accepted(sha, p) && hash == sha(text) && !Holds(final, p, text))
  {
    assert Written(sha, p, final(gen, text), Completes).cfg == Some(final(gen, text));
  }

  /** A stop that hides its failure from the next comparison with the same text: it
      came before truncation over an accepted file of another text, or it cut the
      final text to one of another text that the digest file already names. */
  ghost predicate Hides(sha: Sha, final: Finalizer, p: Pair, gen: int, text: string, o: Outcome) {
    match o
    case FailsMkdir | FailsOpenConfig => Accepted(sha, p) && !Holds(final, p, text)
    case FailsWriteConfig(n) =>
      var cut := final(gen, text)[..Min(n, |final(gen, text)|)];
      p.dig == Some(sha(cut)) && forall g :: cut != final(g, text)
    case _ => false
  }

  /** Exactly these stops leave an accepted file of another text. */
  lemma HidesExactly(sha: Sha, final: Finalizer, p: Pair, gen: int, text: string, o: Outcome)
    ensures var q := Written(sha, p, final(gen, text), o);
            Hides(sha, final, p, gen, text, o) <==> Accepted(sha, q) && !Holds(final, q, text)
  {
    var q := Written(sha, p, final(gen, text), o);
    assert final(gen, text)[..|final(gen, text)|] == final(gen, text);
    match o
    case FailsMkdir | FailsOpenConfig => assert q == p;
    case FailsWriteConfig(n) => assert q.cfg == Some(final(gen, text)[..Min(n, |final(gen, text)|)]);
    case _ => assert q.cfg == Some(final(gen, text));
  }

  /** A stop that hides its failure is misleading. */
  lemma HidingMisleads(sha: Sha, final: Finalizer, p: Pair, gen: int, text: string, o: Outcome)
    requires Hides(sha, final, p, gen, text, o)
    ensures Misleading(sha, p, final(gen, text), o)
  {
    HidesExactly(sha, final, p, gen, text, o);
    MisleadingExactly(sha, p, final(gen, text), o);
  }

  /** After a comparison that failed while writing, trying the same text again
      without faults repairs the file if and only if the stop does not hide its
      failure. */
  lemma RetryRepairsExactly(sha: Sha, final: Finalizer, p: Pair, hash: string, gen: int, text: string, o: Outcome)
    requires !(Accepted(sha, p) && hash == sha(text))
    ensures var c := CompareAndWrite(sha, p, hash, text, final(gen, text), o);
            Holds(final, CompareAndWrite(sha, c.pair, c.hash, text, final(gen, text), Completes).pair, text)
            <==> !Hides(sha, final, p, gen, text, o)
  {
    var c := CompareAndWrite(sha, p, hash, text, final(gen, text), o);
    HidesExactly(sha, final, p, gen, text, o);
    ConvergesExactly(sha, final, c.pair, c.hash, gen, text);
  }

  // ---------------------------------------------------------------------
  // Crash-tolerant convergence
  // ---------------------------------------------------------------------

  /** A hash that names the newest text is not attached to an accepted file made from another one. */
  ghost predicate Truthful(sha: Sha, final: Finalizer, p: Pair, texts: seq<string>, hash: string) {
    texts != [] && Accepted(sha, p) && hash == sha(Last(texts)) ==> Holds(final, p, Last(texts))
  }

  ghost predicate ConvergenceInv(sha: Sha, final: Finalizer, l: Lane, texts: seq<string>) {
    KnownHash(sha, texts, l.stored) && Truthful(sha, final, l.pair, texts, l.stored) &&
    (l.mem.Some? ==> KnownHash(sha, texts, l.mem.value) && Truthful(sha, final, l.pair, texts, l.mem.value))
  }

  /** The events that keep the invariant, given the texts rendered before: a write
      does not hide its failure, or it is a crash and the saved hash is not yet that
      of the text; an outside change does not put an accepted file of another text
      under the hash of the newest one. Crashes, rejected status updates and failed
      reloads are free. */
  ghost predicate ConvergenceFault(sha: Sha, final: Finalizer, l: Lane, e: Event, texts: seq<string>) {
    match e
    case Step(gen, text, o, crash) =>
      if l.mem.Some? && !(Accepted(sha, l.pair) && l.mem.value == sha(text))
      then Hides(sha, final, l.pair, gen, text, o) ==> crash && l.stored != sha(text)
      else true
    case Tamper(p) =>
      if texts != [] && Accepted(sha, p) && (l.stored == sha(Last(texts)) || l.mem == Some(sha(Last(texts))))
      then Holds(final, p, Last(texts))
      else true
    case BeginStale(hash) => KnownHash(sha, texts, hash) && Truthful(sha, final, l.pair, texts, hash)
    case _ => true
  }

  ghost predicate ConvergenceRun(sha: Sha, final: Finalizer, l: Lane, es: seq<Event>)
    requires Valid(sha, final, l, es)
  {
    es == [] ||
    (ConvergenceRun(sha, final, l, DropLast(es)) &&
     ConvergenceFault(sha, final, Run(sha, final, l, DropLast(es)), Last(es), Texts(DropLast(es))))
  }

  /** The texts rendered up to and including an event. */
  function TextsAfter(texts: seq<string>, e: Event): seq<string> {
    texts + (if e.Step? then [e.text] else [])
  }

  /** Exactly the events of this class keep the invariant. */
  lemma ConvergenceInvStep(sha: Sha, final: Finalizer, l: Lane, e: Event, texts: seq<string>)
    requires IsSha(sha) && Enabled(l, e)
    requires ConvergenceInv(sha, final, l, texts)
    requires NeverReturns(TextsAfter(texts, e)) && NoCollision(sha, Elems(TextsAfter(texts, e)))
    ensures ConvergenceInv(sha, final, Apply(sha, final, l, e), TextsAfter(texts, e))
       <==> ConvergenceFault(sha, final, l, e, texts)
    ensures e.Step? && ConvergenceFault(sha, final, l, e, texts) &&
            !CompareAndWrite(sha, l.pair, l.mem.value, e.text, final(e.gen, e.text), e.o).failed
            ==> Holds(final, Apply(sha, final, l, e).pair, e.text)
  {
    if e.Step? {
      hide KnownHash, Hides, NeverReturns, NoCollision;
      KnownAgain(sha, texts, e.text);
      HidesExactly(sha, final, l.pair, e.gen, e.text, e.o);
      assert Last(texts + [e.text]) == e.text;
      if Accepted(sha, l.pair) && l.mem.value == sha(e.text) {
        assert Holds(final, l.pair, e.text);
      } else {
        var q := Written(sha, l.pair, final(e.gen, e.text), e.o);
        assert e.o.Completes? ==> q.cfg == Some(final(e.gen, e.text));
      }
    } else {
      assert texts + [] == texts;
    }
  }

  lemma {:induction false} ConvergenceInvRun(sha: Sha, final: Finalizer, l: Lane, es: seq<Event>)
    requires IsSha(sha) && Valid(sha, final, l, es)
    requires l.stored == "" && l.mem.None?
    requires ConvergenceRun(sha, final, l, es)
    requires NeverReturns(Texts(es)) && NoCollision(sha, Elems(Texts(es)))
    ensures ConvergenceInv(sha, final, Run(sha, final, l, es), Texts(es))
  {
    if es != [] {
      var before := DropLast(es);
      Shorter(sha, es);
      ConvergenceInvRun(sha, final, l, before);
      ConvergenceInvStep(sha, final, Run(sha, final, l, before), Last(es), Texts(before));
    }
  }

  /** The hypotheses on the history of a run hold of the run without its last event. */
  lemma {:induction false} Shorter(sha: Sha, es: seq<Event>)
    requires es != []
    requires NoCollision(sha, Elems(Texts(es)))
    ensures NoCollision(sha, Elems(Texts(DropLast(es))))
    ensures NeverReturns(Texts(es)) ==> NeverReturns(Texts(DropLast(es)))
  {
    assert forall t :: t in Texts(DropLast(es)) ==> t in Texts(es);
    assert Elems(Texts(DropLast(es))) <= Elems(Texts(es));
    if !Last(es).Step? {
      assert Texts(es) == Texts(DropLast(es));
    } else if NeverReturns(Texts(es)) {
      NeverReturnsStep(Texts(DropLast(es)), Last(es).text);
    }
  }

  /** Crash-tolerant convergence. In every run from a host without a stored hash,
      whatever is on its disk, mixing reconciles, crashes, rejected status updates
      and outside changes that leave a rejected pair, in which no fault is
      misleading and no text returns after being replaced: a comparison that
      reports success, by writing or by skipping, leaves the rendered text. */
  lemma Convergence(sha: Sha, final: Finalizer, l: Lane, es: seq<Event>)
    requires IsSha(sha) && Valid(sha, final, l, es)
    requires l.stored == "" && l.mem.None?
    requires ConvergenceRun(sha, final, l, es)
    requires NeverReturns(Texts(es)) && NoCollision(sha, Elems(Texts(es)))
    requires es != [] && Last(es).Step?
    requires var b := Run(sha, final, l, DropLast(es));
             var e := Last(es);
             !CompareAndWrite(sha, b.pair, b.mem.value, e.text, final(e.gen, e.text), e.o).failed
    ensures Holds(final, Run(sha, final, l, es).pair, Last(es).text)
  {
    var before := DropLast(es);
    Shorter(sha, es);
    ConvergenceInvRun(sha, final, l, before);
    ConvergenceInvStep(sha, final, Run(sha, final, l, before), Last(es), Texts(before));
  }

  // ---------------------------------------------------------------------
  // At-least-once reload
  // ---------------------------------------------------------------------

  ghost predicate Served(sha: Sha, final: Finalizer, l: Lane, text: string) {
    Accepted(sha, l.pair) && Holds(final, l.pair, text) && l.loaded == l.pair.cfg
  }

  ghost predicate ReloadInv(sha: Sha, final: Finalizer, l: Lane, texts: seq<string>) {
    KnownHash(sha, texts, l.stored) &&
    (texts != [] && l.stored == sha(Last(texts)) ==> Served(sha, final, l, Last(texts))) &&
    (l.mem.Some? ==>
      (l.mem.value == l.stored || (texts != [] && l.mem.value == sha(Last(texts)))) &&
      (texts != [] && l.mem.value == sha(Last(texts)) ==>
        Accepted(sha, l.pair) && Holds(final, l.pair, Last(texts)) && (l.pending || l.loaded == l.pair.cfg))) &&
    (l.done.Some? ==> l.mem.Some? && texts != [] && l.done.value == Last(texts) && l.mem.value == sha(Last(texts)))
  }

  /** Crashes at any point and rejected status updates are the only faults. */
  ghost predicate CrashesOnly(e: Event) {
    match e
    case Step(_, _, o, crash) => o.Completes? || crash
    case Reload(ok) => ok
    case Tamper(_) | BeginStale(_) => false
    case _ => true
  }

  lemma ReloadInvStep(sha: Sha, final: Finalizer, l: Lane, e: Event, texts: seq<string>)
    requires IsSha(sha) && Enabled(l, e) && CrashesOnly(e)
    requires ReloadInv(sha, final, l, texts)
    requires var after := texts + (if e.Step? then [e.text] else []);
             NeverReturns(after) && NoCollision(sha, Elems(after))
    ensures ReloadInv(sha, final, Apply(sha, final, l, e), texts + (if e.Step? then [e.text] else []))
  {
    if e.Step? {
      var after := texts + [e.text];
      NeverReturnsStep(texts, e.text);
      assert e.text in Elems(after) && Last(after) == e.text;
      assert forall t :: t in texts ==> t in Elems(after);
      assert KnownHash(sha, after, l.stored);
      assert forall h :: KnownHash(sha, texts, h) && h == sha(e.text) ==> e.text in texts;
      if !(Accepted(sha, l.pair) && l.mem.value == sha(e.text)) {
        assert l.stored != sha(e.text);
        var q := Written(sha, l.pair, final(e.gen, e.text), e.o);
        assert e.o.Completes? ==> q.cfg == Some(final(e.gen, e.text));
      }
    } else {
      assert texts + [] == texts;
    }
  }

  lemma {:induction false} ReloadInvRun(sha: Sha, final: Finalizer, l: Lane, es: seq<Event>)
    requires IsSha(sha) && Valid(sha, final, l, es)
    requires l.stored == "" && l.mem.None? && l.done.None?
    requires forall e :: e in es ==> CrashesOnly(e)
    requires NeverReturns(Texts(es)) && NoCollision(sha, Elems(Texts(es)))
    ensures ReloadInv(sha, final, Run(sha, final, l, es), Texts(es))
  {
    if es != [] {
      var before := DropLast(es);
      Shorter(sha, es);
      ReloadInvRun(sha, final, l, before);
      ReloadInvStep(sha, final, Run(sha, final, l, before), Last(es), Texts(before));
    }
  }

  /** At-least-once reload. In every run whose only faults are crashes and rejected
      status updates, with texts that never return: when a reconcile is about to
      finish, a file it compared holds the rendered text and its service has
      loaded exactly what the file holds. */
  lemma ReloadedWhenDone(sha: Sha, final: Finalizer, l: Lane, es: seq<Event>)
    requires IsSha(sha) && Valid(sha, final, l, es)
    requires l.stored == "" && l.mem.None? && l.done.None?
    requires forall e :: e in es ==> CrashesOnly(e)
    requires NeverReturns(Texts(es)) && NoCollision(sha, Elems(Texts(es)))
    requires Run(sha, final, l, es).done.Some? && !Run(sha, final, l, es).pending
    ensures Served(sha, final, Run(sha, final, l, es), Run(sha, final, l, es).done.value)
  {
    ReloadInvRun(sha, final, l, es);
  }

  // ---------------------------------------------------------------------
  // Without faults, skipping refines always writing
  // ---------------------------------------------------------------------

  /** The hash that the next comparison would use. */
  function Current(l: Lane): string {
    if l.mem.Some? then l.mem.value else l.stored
  }

  /** An accepted pair on disk is made from a rendered text whose hash is the recorded
      one, or it is older than the controller and no hash is recorded. */
  ghost predicate CacheInv(sha: Sha, final: Finalizer, l: Lane, texts: seq<string>) {
    Accepted(sha, l.pair) ==>
      (texts == [] && Current(l) == "") ||
      exists t :: t in texts && Holds(final, l.pair, t) && Current(l) == sha(t)
  }

  /** Writes complete and status updates are accepted; files may be changed from
      outside and texts may return. */
  predicate FaultFree(sha: Sha, l: Lane, e: Event) {
    match e
    case Step(_, _, o, crash) => o.Completes? && !crash
    case Finish(accepted) => accepted
    case Crash => l.mem.None?
    case Tamper(p) => !Accepted(sha, p)
    case BeginStale(_) => false
    case _ => true
  }

  ghost predicate FaultFreeRun(sha: Sha, final: Finalizer, l: Lane, es: seq<Event>)
    requires Valid(sha, final, l, es)
  {
    es == [] ||
    (FaultFreeRun(sha, final, l, DropLast(es)) && FaultFree(sha, Run(sha, final, l, DropLast(es)), Last(es)))
  }

  /** The same file under a controller that writes every time. */
  function EagerApply(sha: Sha, final: Finalizer, p: Pair, e: Event): Pair {
    match e
    case Step(gen, text, o, _) => Written(sha, p, final(gen, text), o)
    case Tamper(q) => q
    case _ => p
  }

  function EagerRun(sha: Sha, final: Finalizer, p: Pair, es: seq<Event>): Pair {
    if es == [] then p else EagerApply(sha, final, EagerRun(sha, final, p, DropLast(es)), Last(es))
  }

  /** Equal, or accepted final texts of the same rendered text, differing at most in their stamps. */
  ghost predicate SameUpToStamp(sha: Sha, final: Finalizer, p: Pair, q: Pair) {
    p == q ||
    (Accepted(sha, p) && Accepted(sha, q) && exists t :: Holds(final, p, t) && Holds(final, q, t))
  }

  lemma CacheInvStep(sha: Sha, final: Finalizer, l: Lane, q: Pair, e: Event, texts: seq<string>)
    requires IsSha(sha) && Enabled(l, e) && FaultFree(sha, l, e)
    requires CacheInv(sha, final, l, texts) && SameUpToStamp(sha, final, l.pair, q)
    requires NoCollision(sha, Elems(texts + (if e.Step? then [e.text] else [])))
    ensures CacheInv(sha, final, Apply(sha, final, l, e), texts + (if e.Step? then [e.text] else []))
    ensures SameUpToStamp(sha, final, Apply(sha, final, l, e).pair, EagerApply(sha, final, q, e))
  {
    var after := texts + (if e.Step? then [e.text] else []);
    assert forall t :: t in texts ==> t in after;
    if e.Step? {
      assert e.text in Elems(after);
      var r := Written(sha, q, final(e.gen, e.text), e.o);
      assert r.cfg == Some(final(e.gen, e.text));
      assert Holds(final, r, e.text);
      if Accepted(sha, l.pair) && l.mem.value == sha(e.text) {
        var t :| t in texts && Holds(final, l.pair, t) && Current(l) == sha(t);
        assert t in Elems(after);
        assert t == e.text;
      }
    }
  }

  /** Without lost work, the cache of hashes is invisible: from a host without a
      recorded hash, whatever is on its disk, or whose file is not accepted, after
      any run of completed writes, accepted status updates and outside changes that
      leave a rejected pair, for any sequence of rendered texts, the disk is as if
      every reconcile had written, up to the stamp, and an accepted pair carries
      the recorded hash once a text was rendered. */
  lemma {:induction false} SkippingRefinesWriting(sha: Sha, final: Finalizer, l: Lane, es: seq<Event>)
    requires IsSha(sha) && Valid(sha, final, l, es) && FaultFreeRun(sha, final, l, es)
    requires !Accepted(sha, l.pair) || Current(l) == ""
    requires NoCollision(sha, Elems(Texts(es)))
    ensures CacheInv(sha, final, Run(sha, final, l, es), Texts(es))
    ensures SameUpToStamp(sha, final, Run(sha, final, l, es).pair, EagerRun(sha, final, l.pair, es))
  {
    if es != [] {
      var before := DropLast(es);
      Shorter(sha, es);
      SkippingRefinesWriting(sha, final, l, before);
      CacheInvStep(sha, final, Run(sha, final, l, before), EagerRun(sha, final, l.pair, before), Last(es), Texts(before));
    }
  }

  // ---------------------------------------------------------------------
  // Torn writes are never accepted
  // ---------------------------------------------------------------------

  /** The final texts that some call of WriteConfig wrote completely before it
      went on to the digest file. */
  function WholeTexts(sha: Sha, final: Finalizer, l: Lane, es: seq<Event>): set<string>
    requires Valid(sha, final, l, es)
  {
    if es == [] then {}
    else
      var b := Run(sha, final, l, DropLast(es));
      var e := Last(es);
      WholeTexts(sha, final, l, DropLast(es)) +
      if e.Step? && !(Accepted(sha, b.pair) && b.mem.value == sha(e.text)) && ReachesDigest(e.o)
      then {final(e.gen, e.text)} else {}
  }

  /** The digest file is absent, cut short, or names a text that was written whole. */
  ghost predicate DigestInv(sha: Sha, p: Pair, whole: set<string>) {
    p.dig.Some? ==> |p.dig.value| < 64 || exists w :: w in whole && p.dig.value == sha(w)
  }

  /** Nobody else changes the digest file; the config file may be changed at will. */
  ghost predicate DigestUntouched(l: Lane, e: Event) {
    e.Tamper? ==> e.pair.dig == l.pair.dig
  }

  ghost predicate DigestUntouchedRun(sha: Sha, final: Finalizer, l: Lane, es: seq<Event>)
    requires Valid(sha, final, l, es)
  {
    es == [] ||
    (DigestUntouchedRun(sha, final, l, DropLast(es)) &&
     DigestUntouched(Run(sha, final, l, DropLast(es)), Last(es)))
  }

  lemma {:induction false} DigestInvRun(sha: Sha, final: Finalizer, l: Lane, es: seq<Event>)
    requires IsSha(sha) && Valid(sha, final, l, es)
    requires l.pair.dig.None? && DigestUntouchedRun(sha, final, l, es)
    ensures DigestInv(sha, Run(sha, final, l, es).pair, WholeTexts(sha, final, l, es))
  {
    if es != [] {
      var before := DropLast(es);
      DigestInvRun(sha, final, l, before);
      var b := Run(sha, final, l, before);
      var e := Last(es);
      if e.Step? && !(Accepted(sha, b.pair) && b.mem.value == sha(e.text)) && ReachesDigest(e.o) {
        var final' := final(e.gen, e.text);
        assert final' in WholeTexts(sha, final, l, es);
        assert sha(final')[..|sha(final')|] == sha(final');
      }
    }
  }

  /** Torn writes are never accepted: in every run, with crashes and failures at
      any point and any outside change to the config file but none to the digest
      file, an accepted config file is a text some WriteConfig wrote completely. */
  lemma TornNeverAccepted(sha: Sha, final: Finalizer, l: Lane, es: seq<Event>)
    requires IsSha(sha) && Valid(sha, final, l, es)
    requires l.pair.dig.None? && DigestUntouchedRun(sha, final, l, es)
    requires var p := Run(sha, final, l, es).pair;
             NoCollision(sha, WholeTexts(sha, final, l, es) + if p.cfg.Some? then {p.cfg.value} else {})
    requires Accepted(sha, Run(sha, final, l, es).pair)
    ensures Run(sha, final, l, es).pair.cfg.value in WholeTexts(sha, final, l, es)
  {
    DigestInvRun(sha, final, l, es);
    var p := Run(sha, final, l, es).pair;
    var w :| w in WholeTexts(sha, final, l, es) && p.dig.value == sha(w);
    assert w == p.cfg.value;
  }
}
