/** Which faults lose a file or a reload, exactly: one reconcile of one file with
    any fault in it, and what the next one can still repair. */
module Faults {
  import opened Prelude
  import opened FilePair
  import opened Lane

  // ---------------------------------------------------------------------
  // One reconcile, however it ends
  // ---------------------------------------------------------------------

  /** No reconcile is in progress. */
  predicate AtRest(l: Lane) {
    l.mem.None? && l.done.None? && !l.pending
  }

  /** How a reconcile ends for a file: the process dies at the stop of the write,
      after the comparison, or after the reloads, or it sends its status. */
  datatype Ending =
    | DiesWriting
    | DiesBeforeReload
    | DiesBeforeUpdate(reload: bool)
    | Sends(reload: bool, accepted: bool)

  /** Whether another file of the same service was written in the same reconcile,
      before or after this one was compared: its service is then reloaded anyway. */
  datatype Sibling = Unmarked | MarkedBefore | MarkedAfter

  /** The next comparison with `text` would skip. */
  predicate Skips(sha: Sha, l: Lane, text: string) {
    Accepted(sha, l.pair) && l.stored == sha(text)
  }

  /** The reconcile comes to the reloads, and that of the file's service succeeds. */
  predicate ReloadOk(e: Ending) {
    (e.DiesBeforeUpdate? || e.Sends?) && e.reload
  }

  /** The status with the new hash was saved. */
  predicate Saved(e: Ending) {
    e.Sends? && e.accepted
  }

  /** An event that takes place only under a condition. */
  function Maybe(b: bool, e: Event): seq<Event> {
    if b then [e] else []
  }

  /** The events up to the comparison. */
  function Start(gen: int, text: string, o: Outcome, e: Ending, m: Sibling): seq<Event> {
    ([Begin] + Maybe(m.MarkedBefore?, Flag)) + [Step(gen, text, o, e.DiesWriting?)]
  }

  /** The events after the comparison. */
  function Rest(sha: Sha, l: Lane, text: string, o: Outcome, e: Ending, m: Sibling): seq<Event> {
    var marked := !m.Unmarked? || (!Skips(sha, l, text) && o.Completes?);
    match e
    case DiesWriting => []
    case DiesBeforeReload => Maybe(m.MarkedAfter?, Flag) + [Crash]
    case DiesBeforeUpdate(ok) => Maybe(m.MarkedAfter?, Flag) + Maybe(marked, Reload(ok)) + [Crash]
    case Sends(ok, accepted) => Maybe(m.MarkedAfter?, Flag) + Maybe(marked, Reload(ok)) + [Finish(accepted)]
  }

  /** The events of one reconcile of the file. */
  function Events(sha: Sha, l: Lane, gen: int, text: string, o: Outcome, e: Ending, m: Sibling): seq<Event> {
    Start(gen, text, o, e, m) + Rest(sha, l, text, o, e, m)
  }

  /** What one reconcile leaves. */
  function Left(sha: Sha, final: Finalizer, l: Lane, gen: int, text: string, o: Outcome, e: Ending, m: Sibling): Lane {
    var skip := Skips(sha, l, text);
    var pair := if skip then l.pair else Written(sha, l.pair, final(gen, text), o);
    Lane(pair, if Saved(e) then sha(text) else l.stored, None, None, false,
         if ReloadOk(e) && (!m.Unmarked? || (!skip && o.Completes?)) then pair.cfg else l.loaded)
  }

  /** The file after the comparison, in the middle of the reconcile. */
  function Compared(sha: Sha, final: Finalizer, l: Lane, gen: int, text: string, o: Outcome, m: Sibling): Lane {
    var skip := Skips(sha, l, text);
    Lane(if skip then l.pair else Written(sha, l.pair, final(gen, text), o), l.stored, Some(sha(text)),
         if skip || o.Completes? then Some(text) else None, m.MarkedBefore? || (!skip && o.Completes?), l.loaded)
  }

  lemma MaybeRuns(sha: Sha, final: Finalizer, l: Lane, b: bool, e: Event)
    requires b ==> Enabled(l, e) && !e.Step?
    ensures Valid(sha, final, l, Maybe(b, e)) && Texts(Maybe(b, e)) == []
    ensures Run(sha, final, l, Maybe(b, e)) == if b then Apply(sha, final, l, e) else l
  {
    if b { RunOne(sha, final, l, e); }
  }

  lemma StartRuns(sha: Sha, final: Finalizer, l: Lane, gen: int, text: string, o: Outcome, e: Ending, m: Sibling)
    requires AtRest(l)
    ensures var es := Start(gen, text, o, e, m);
            Valid(sha, final, l, es) && Texts(es) == [text] &&
            Run(sha, final, l, es) ==
              if e.DiesWriting? then Left(sha, final, l, gen, text, o, e, m) else Compared(sha, final, l, gen, text, o, m)
  {
    hide Written, Accepted;
    var b := l.(mem := Some(l.stored));
    var c := b.(pending := m.MarkedBefore?);
    RunOne(sha, final, l, Begin);
    MaybeRuns(sha, final, b, m.MarkedBefore?, Flag);
    Append(sha, final, l, [Begin], Maybe(m.MarkedBefore?, Flag));
    RunOne(sha, final, c, Step(gen, text, o, e.DiesWriting?));
    Append(sha, final, l, [Begin] + Maybe(m.MarkedBefore?, Flag), [Step(gen, text, o, e.DiesWriting?)]);
  }

  function End(e: Ending): Event {
    if e.Sends? then Finish(e.accepted) else Crash
  }

  /** After the comparison and the marks of other files. */
  lemma EndRuns(sha: Sha, final: Finalizer, c: Lane, ok: bool, e: Ending)
    requires c.mem.Some? && !e.DiesWriting?
    ensures var es := if e.DiesBeforeReload? then [Crash] else Maybe(c.pending, Reload(ok)) + [End(e)];
            Valid(sha, final, c, es) && Texts(es) == [] &&
            Run(sha, final, c, es) == Lane(c.pair, if Saved(e) then c.mem.value else c.stored, None, None, false,
              if !e.DiesBeforeReload? && c.pending && ok then c.pair.cfg else c.loaded)
  {
    if e.DiesBeforeReload? {
      RunOne(sha, final, c, Crash);
    } else {
      MaybeRuns(sha, final, c, c.pending, Reload(ok));
      var d := Run(sha, final, c, Maybe(c.pending, Reload(ok)));
      RunOne(sha, final, d, End(e));
      Append(sha, final, c, Maybe(c.pending, Reload(ok)), [End(e)]);
    }
  }

  lemma RestRuns(sha: Sha, final: Finalizer, l: Lane, gen: int, text: string, o: Outcome, e: Ending, m: Sibling)
    requires AtRest(l) && !e.DiesWriting?
    ensures var c := Compared(sha, final, l, gen, text, o, m);
            Valid(sha, final, c, Rest(sha, l, text, o, e, m)) && Texts(Rest(sha, l, text, o, e, m)) == [] &&
            Run(sha, final, c, Rest(sha, l, text, o, e, m)) == Left(sha, final, l, gen, text, o, e, m)
  {
    hide Written, Accepted, Valid, Run, Texts, Apply;
    var c := Compared(sha, final, l, gen, text, o, m);
    var d := c.(pending := c.pending || m.MarkedAfter?);
    var ok := (e.DiesBeforeUpdate? || e.Sends?) && e.reload;
    var end := if e.DiesBeforeReload? then [Crash] else Maybe(d.pending, Reload(ok)) + [End(e)];
    FlagRuns(sha, final, c, m.MarkedAfter?);
    EndRuns(sha, final, d, ok, e);
    Append(sha, final, c, Maybe(m.MarkedAfter?, Flag), end);
    assert Rest(sha, l, text, o, e, m) == Maybe(m.MarkedAfter?, Flag) + end;
    var none: seq<string> := [];
    assert none + none == none;
  }

  lemma FlagRuns(sha: Sha, final: Finalizer, c: Lane, b: bool)
    requires c.mem.Some?
    ensures Valid(sha, final, c, Maybe(b, Flag)) && Texts(Maybe(b, Flag)) == []
    ensures Run(sha, final, c, Maybe(b, Flag)) == c.(pending := c.pending || b)
  {
    MaybeRuns(sha, final, c, b, Flag);
  }

  /** One reconcile, event by event, leaves what Left says. */
  lemma ReconcileRuns(sha: Sha, final: Finalizer, l: Lane, gen: int, text: string, o: Outcome, e: Ending, m: Sibling)
    requires AtRest(l)
    ensures var es := Events(sha, l, gen, text, o, e, m);
            Valid(sha, final, l, es) && Texts(es) == [text] &&
            Run(sha, final, l, es) == Left(sha, final, l, gen, text, o, e, m)
    ensures AtRest(Left(sha, final, l, gen, text, o, e, m))
  {
    hide Start, Rest, Left, Compared, Valid, Run, Texts;
    StartRuns(sha, final, l, gen, text, o, e, m);
    LeftAtRest(sha, final, l, gen, text, o, e, m);
    if e.DiesWriting? {
      NoRest(sha, l, text, o, e, m);
      assert Events(sha, l, gen, text, o, e, m) == Start(gen, text, o, e, m);
    } else {
      RestRuns(sha, final, l, gen, text, o, e, m);
      Append(sha, final, l, Start(gen, text, o, e, m), Rest(sha, l, text, o, e, m));
      assert [text] + [] == [text];
    }
  }

  lemma LeftAtRest(sha: Sha, final: Finalizer, l: Lane, gen: int, text: string, o: Outcome, e: Ending, m: Sibling)
    ensures AtRest(Left(sha, final, l, gen, text, o, e, m))
  {
  }

  lemma NoRest(sha: Sha, l: Lane, text: string, o: Outcome, e: Ending, m: Sibling)
    requires e.DiesWriting?
    ensures Rest(sha, l, text, o, e, m) == []
  {
  }

  /** A reconcile without faults. */
  function Undisturbed(sha: Sha, final: Finalizer, l: Lane, gen: int, text: string, m: Sibling): Lane {
    Left(sha, final, l, gen, text, Completes, Sends(true, true), m)
  }

  function UndisturbedEvents(sha: Sha, l: Lane, gen: int, text: string, m: Sibling): seq<Event> {
    Events(sha, l, gen, text, Completes, Sends(true, true), m)
  }

  /** One reconcile with any faults in it, then one without. */
  function TwoReconciles(sha: Sha, final: Finalizer, l: Lane, gen: int, text: string, o: Outcome, e: Ending, m: Sibling,
                         gen': int, next: string, m': Sibling): seq<Event>
  {
    Events(sha, l, gen, text, o, e, m) + UndisturbedEvents(sha, Left(sha, final, l, gen, text, o, e, m), gen', next, m')
  }

  lemma TwoReconcilesRun(sha: Sha, final: Finalizer, l: Lane, gen: int, text: string, o: Outcome, e: Ending, m: Sibling,
                         gen': int, next: string, m': Sibling)
    requires AtRest(l)
    ensures var es := TwoReconciles(sha, final, l, gen, text, o, e, m, gen', next, m');
            Valid(sha, final, l, es) && Texts(es) == [text, next] &&
            Run(sha, final, l, es) == Undisturbed(sha, final, Left(sha, final, l, gen, text, o, e, m), gen', next, m')
  {
    hide Events, Left, Valid, Run, Texts;
    var c := Left(sha, final, l, gen, text, o, e, m);
    ReconcileRuns(sha, final, l, gen, text, o, e, m);
    ReconcileRuns(sha, final, c, gen', next, Completes, Sends(true, true), m');
    Append(sha, final, l, Events(sha, l, gen, text, o, e, m), UndisturbedEvents(sha, c, gen', next, m'));
    assert [text] + [next] == [text, next];
  }

  // ---------------------------------------------------------------------
  // What a reconcile without faults repairs
  // ---------------------------------------------------------------------

  /** It leaves the service with the content of the file unless it skips over a file
      that the service has not loaded, and no other file of the service is written. */
  lemma LoadedExactly(sha: Sha, final: Finalizer, l: Lane, gen: int, text: string, m: Sibling)
    requires AtRest(l)
    ensures Valid(sha, final, l, UndisturbedEvents(sha, l, gen, text, m))
    ensures var r := Run(sha, final, l, UndisturbedEvents(sha, l, gen, text, m));
            r.loaded == r.pair.cfg
            <==> !(Accepted(sha, l.pair) && l.stored == sha(text) && l.loaded != l.pair.cfg && m.Unmarked?)
  {
    hide Events, Valid, Run;
    ReconcileRuns(sha, final, l, gen, text, Completes, Sends(true, true), m);
  }

  /** The text is on disk and loaded unless it skips over a file of another text, or
      over one that the service has not loaded while no other file of the service
      is written. */
  lemma ServedExactly(sha: Sha, final: Finalizer, l: Lane, gen: int, text: string, m: Sibling)
    requires AtRest(l)
    ensures Valid(sha, final, l, UndisturbedEvents(sha, l, gen, text, m))
    ensures Served(sha, final, Run(sha, final, l, UndisturbedEvents(sha, l, gen, text, m)), text)
       <==> (Skips(sha, l, text) ==> Holds(final, l.pair, text) && (l.loaded == l.pair.cfg || !m.Unmarked?))
  {
    hide Events, Valid, Run;
    ReconcileRuns(sha, final, l, gen, text, Completes, Sends(true, true), m);
    assert Written(sha, l.pair, final(gen, text), Completes).cfg == Some(final(gen, text));
  }

  /** After a comparison that failed while writing, the retry writes again, and so
      marks the service for reload, exactly if the stop left a rejected pair. */
  lemma RetryReloadsExactly(sha: Sha, final: Finalizer, p: Pair, hash: string, gen: int, gen': int, text: string, o: Outcome)
    requires !(Accepted(sha, p) && hash == sha(text)) && !o.Completes?
    ensures var c := CompareAndWrite(sha, p, hash, text, final(gen, text), o);
            CompareAndWrite(sha, c.pair, c.hash, text, final(gen', text), Completes).changed
            <==> !LeavesAccepted(sha, p, final(gen, text), o)
  {
    AcceptedAfterExactly(sha, p, final(gen, text), o);
  }

  /** After a failed reload, whose status is saved or rejected, the next reconcile
      without faults leaves the service with the content of the file exactly if it
      renders a text that the saved hash does not name, another file of the service
      is written in it, or the service happened to have that content. */
  lemma FailedReloadExactly(sha: Sha, final: Finalizer, l: Lane, gen: int, text: string, accepted: bool, m: Sibling,
                            gen': int, next: string, m': Sibling)
    requires AtRest(l) && !Skips(sha, l, text) && NoCollision(sha, {text, next})
    ensures var es := TwoReconciles(sha, final, l, gen, text, Completes, Sends(false, accepted), m, gen', next, m');
            Valid(sha, final, l, es) && var r := Run(sha, final, l, es);
            r.loaded == r.pair.cfg
            <==> (if accepted then next != text else l.stored != sha(next)) || !m'.Unmarked? ||
                 l.loaded == Some(final(gen, text))
  {
    hide TwoReconciles, Valid, Run;
    TwoReconcilesRun(sha, final, l, gen, text, Completes, Sends(false, accepted), m, gen', next, m');
  }

  // ---------------------------------------------------------------------
  // One faulty reconcile
  // ---------------------------------------------------------------------

  /** Final texts made from different texts differ. */
  ghost predicate Readable(final: Finalizer) {
    forall g, x, h, y :: final(g, x) == final(h, y) ==> x == y
  }

  /** The stop came after the whole digest was written. */
  predicate WholeDigest(sha: Sha, final: string, o: Outcome) {
    o.Completes? || o.FailsCloseDigest? || (o.FailsWriteDigest? && o.n >= |sha(final)|)
  }

  /** The stop leaves the pair as it was: it came before truncation, or cut the new
      text to the old one. */
  predicate KeepsOld(p: Pair, final: string, o: Outcome) {
    o.FailsMkdir? || o.FailsOpenConfig? ||
    (o.FailsWriteConfig? && p.cfg == Some(final[..Min(o.n, |final|)]))
  }

  /** All texts that can be on disk do not collide. */
  ghost predicate NoCollisionOnDisk(sha: Sha, p: Pair, final: string, o: Outcome) {
    p.cfg.Some? &&
    NoCollision(sha, {p.cfg.value, final, if o.FailsWriteConfig? then final[..Min(o.n, |final|)] else final})
  }

  lemma AcceptedOverOld(sha: Sha, p: Pair, final: string, o: Outcome)
    requires Accepted(sha, p) && p.cfg != Some(final) && NoCollisionOnDisk(sha, p, final, o)
    ensures LeavesAccepted(sha, p, final, o) <==> KeepsOld(p, final, o) || WholeDigest(sha, final, o)
    ensures KeepsOld(p, final, o) ==> Written(sha, p, final, o) == p
    ensures WholeDigest(sha, final, o) ==> Written(sha, p, final, o) == Pair(Some(final), Some(sha(final)))
  {
    assert sha(final)[..|sha(final)|] == sha(final);
  }

  /** Lost updates, exactly. The saved hash names `a` over an accepted file of `a`. A
      reconcile writes another text `b`, stopping anywhere, and its status is lost,
      because the process dies or because the update is rejected. The next
      reconcile without faults leaves the text it renders, unless this is `a`
      again and the lost write had come as far as the whole digest. */
  lemma LostUpdateMisleadsExactly(sha: Sha, final: Finalizer, l: Lane, a: string, b: string, t: string,
                                  gen: int, gen': int, o: Outcome, e: Ending, m: Sibling, m': Sibling)
    requires AtRest(l) && Accepted(sha, l.pair) && l.stored == sha(a) && Holds(final, l.pair, a)
    requires a != b && !Saved(e) && Readable(final)
    requires NoCollision(sha, {a, b, t}) && NoCollisionOnDisk(sha, l.pair, final(gen, b), o)
    ensures Valid(sha, final, l, TwoReconciles(sha, final, l, gen, b, o, e, m, gen', t, m'))
    ensures Holds(final, Run(sha, final, l, TwoReconciles(sha, final, l, gen, b, o, e, m, gen', t, m')).pair, t)
       <==> !(t == a && WholeDigest(sha, final(gen, b), o))
  {
    hide Valid, Run, TwoReconciles;
    var c := Left(sha, final, l, gen, b, o, e, m);
    TwoReconcilesRun(sha, final, l, gen, b, o, e, m, gen', t, m');
    AcceptedOverOld(sha, l.pair, final(gen, b), o);
    AcceptedAfterExactly(sha, l.pair, final(gen, b), o);
    assert Written(sha, c.pair, final(gen', t), Completes).cfg == Some(final(gen', t));
  }

  /** What one faulty reconcile loses for the next one. With the status saved: a retry
      of `b` over the old file, or over a new one that was not loaded, while no
      other file of the service brings a reload. With the status lost: a return to
      `a` over the new file. */
  predicate Loses(sha: Sha, p: Pair, final: string, o: Outcome, e: Ending, m: Sibling,
                  a: string, b: string, t: string, m': Sibling)
  {
    if Saved(e) then
      t == b &&
      (KeepsOld(p, final, o) ||
       (WholeDigest(sha, final, o) && !(ReloadOk(e) && (o.Completes? || !m.Unmarked?)) && m'.Unmarked?))
    else t == a && WholeDigest(sha, final, o)
  }

  /** One faulty reconcile, exactly. A host serves `a`. A reconcile of another text
      `b` stops anywhere in its write and ends in any way. The next one, without
      faults, leaves its text on disk and loaded if and only if nothing was lost. */
  lemma OneFaultExactly(sha: Sha, final: Finalizer, l: Lane, a: string, b: string, t: string,
                        gen: int, gen': int, o: Outcome, e: Ending, m: Sibling, m': Sibling)
    requires AtRest(l) && l.stored == sha(a) && Served(sha, final, l, a) && a != b && Readable(final)
    requires NoCollision(sha, {a, b, t}) && NoCollisionOnDisk(sha, l.pair, final(gen, b), o)
    ensures Valid(sha, final, l, TwoReconciles(sha, final, l, gen, b, o, e, m, gen', t, m'))
    ensures Served(sha, final, Run(sha, final, l, TwoReconciles(sha, final, l, gen, b, o, e, m, gen', t, m')), t)
       <==> !Loses(sha, l.pair, final(gen, b), o, e, m, a, b, t, m')
  {
    hide Valid, Run, TwoReconciles;
    var c := Left(sha, final, l, gen, b, o, e, m);
    TwoReconcilesRun(sha, final, l, gen, b, o, e, m, gen', t, m');
    AcceptedOverOld(sha, l.pair, final(gen, b), o);
    AcceptedAfterExactly(sha, l.pair, final(gen, b), o);
    assert Written(sha, c.pair, final(gen', t), Completes).cfg == Some(final(gen', t));
  }

  // ---------------------------------------------------------------------
  // For good
  // ---------------------------------------------------------------------

  /** The text stays, and nobody changes the file or reloads its service. */
  predicate SameText(e: Event, text: string) {
    !e.Reload? && !e.Tamper? && !e.BeginStale? && (e.Step? ==> e.text == text)
  }

  /** What the next reconcile skips, all following ones skip: as long as the text
      stays and no other file of the service brings a reload, crashes, rejected
      updates and further reconciles change neither the file nor what the service
      has loaded. */
  lemma {:induction false} ForGood(sha: Sha, final: Finalizer, l: Lane, text: string, es: seq<Event>)
    requires l.mem.None? && Skips(sha, l, text) && Valid(sha, final, l, es)
    requires forall e :: e in es ==> SameText(e, text)
    ensures var r := Run(sha, final, l, es);
            r.pair == l.pair && r.loaded == l.loaded && r.stored == l.stored && (r.mem.Some? ==> r.mem.value == l.stored)
  {
    if es != [] {
      ForGood(sha, final, l, text, DropLast(es));
      assert SameText(Last(es), text);
    }
  }

  // ---------------------------------------------------------------------
  // Convergence needs its conditions
  // ---------------------------------------------------------------------

  /** Nothing goes wrong in this event but, perhaps, a crash. */
  predicate Regular(e: Event) {
    match e
    case Step(_, _, o, crash) => o.Completes? && !crash
    case Reload(ok) => ok
    case Finish(accepted) => accepted
    case Tamper(_) | BeginStale(_) => false
    case _ => true
  }

  /** A comparison that skips. */
  lemma SkipRuns(sha: Sha, final: Finalizer, l: Lane, text: string) returns (es: seq<Event>)
    requires l.mem.None? && Skips(sha, l, text)
    ensures es == [Begin, Step(0, text, Completes, false)]
    ensures Valid(sha, final, l, es) && Texts(es) == [text]
    ensures Run(sha, final, l, es) == l.(mem := Some(l.stored), done := Some(text), pending := false)
  {
    es := [Begin, Step(0, text, Completes, false)];
    RunTwo(sha, final, l, Begin, Step(0, text, Completes, false));
  }

  /** After `es` from `l`, the last comparison with `text` has succeeded, by skipping. */
  ghost predicate SkipsAtEnd(sha: Sha, final: Finalizer, l: Lane, es: seq<Event>, text: string) {
    Valid(sha, final, l, es) && es != [] && Last(es) == Step(0, text, Completes, false) && Texts(es) == [text] &&
    Run(sha, final, l, es).done == Some(text) && !Run(sha, final, l, es).pending
  }

  lemma SkipAfter(sha: Sha, final: Finalizer, l: Lane, before: seq<Event>, text: string) returns (es: seq<Event>)
    requires Valid(sha, final, l, before) && Texts(before) == [] && forall e :: e in before ==> Regular(e)
    requires var r := Run(sha, final, l, before); r.mem.None? && Skips(sha, r, text)
    ensures SkipsAtEnd(sha, final, l, es, text) && forall e :: e in es ==> Regular(e)
    ensures var r := Run(sha, final, l, before);
            Run(sha, final, l, es).pair == r.pair && Run(sha, final, l, es).loaded == r.loaded
  {
    var skip := SkipRuns(sha, final, Run(sha, final, l, before), text);
    Append(sha, final, l, before, skip);
    es := before + skip;
    assert Last(es) == Last(skip);
    assert [] + [text] == [text];
  }

  lemma SkipNow(sha: Sha, final: Finalizer, l: Lane, text: string) returns (es: seq<Event>)
    requires l.mem == Some(sha(text)) && Accepted(sha, l.pair) && !l.pending
    ensures SkipsAtEnd(sha, final, l, es, text) && forall e :: e in es ==> Regular(e)
    ensures Run(sha, final, l, es).pair == l.pair && Run(sha, final, l, es).loaded == l.loaded
  {
    es := [Step(0, text, Completes, false)];
    RunOne(sha, final, l, es[0]);
  }

  /** The saved hash, when the reconcile in progress, if any, dies or runs to its end. */
  lemma Settles(sha: Sha, final: Finalizer, l: Lane, save: bool) returns (es: seq<Event>)
    ensures Valid(sha, final, l, es) && Texts(es) == [] && forall e :: e in es ==> Regular(e)
    ensures var r := Run(sha, final, l, es);
            r.mem.None? && r.pair == l.pair && r.stored == (if save then Current(l) else l.stored) &&
            r.loaded == if save && l.mem.Some? && l.pending then l.pair.cfg else l.loaded
  {
    if l.mem.None? {
      es := [];
    } else if !save {
      es := [Crash];
      RunOne(sha, final, l, Crash);
    } else if l.pending {
      es := [Reload(true), Finish(true)];
      RunTwo(sha, final, l, Reload(true), Finish(true));
    } else {
      es := [Finish(true)];
      RunOne(sha, final, l, Finish(true));
    }
  }

  /** Convergence needs its conditions: every event outside the class, after whatever
      kept the invariant, has a continuation without further faults, other than a
      crash, that ends with a successful comparison over a file of another text. */
  lemma FaultMisleads(sha: Sha, final: Finalizer, l: Lane, e: Event, texts: seq<string>) returns (es: seq<Event>)
    requires IsSha(sha) && Enabled(l, e) && ConvergenceInv(sha, final, l, texts)
    requires NeverReturns(TextsAfter(texts, e)) && NoCollision(sha, Elems(TextsAfter(texts, e)))
    requires e.BeginStale? ==> KnownHash(sha, texts, e.hash)
    requires !ConvergenceFault(sha, final, l, e, texts)
    ensures TextsAfter(texts, e) != [] && forall x :: x in es ==> Regular(x)
    ensures var c := Apply(sha, final, l, e);
            var text := Last(TextsAfter(texts, e));
            SkipsAtEnd(sha, final, c, es, text) && !Holds(final, Run(sha, final, c, es).pair, text)
  {
    ConvergenceInvStep(sha, final, l, e, texts);
    var c, after := Apply(sha, final, l, e), TextsAfter(texts, e);
    KnownAfter(sha, final, l, e, texts);
    if e.BeginStale? {
      es := SkipNow(sha, final, c, Last(after));
    } else {
      var save := Truthful(sha, final, c.pair, after, c.stored);
      var before := Settles(sha, final, c, save);
      es := SkipAfter(sha, final, c, before, Last(after));
    }
  }

  lemma KnownAfter(sha: Sha, final: Finalizer, l: Lane, e: Event, texts: seq<string>)
    requires Enabled(l, e)
    requires KnownHash(sha, texts, l.stored) && (l.mem.Some? ==> KnownHash(sha, texts, l.mem.value))
    requires e.BeginStale? ==> KnownHash(sha, texts, e.hash)
    ensures var c := Apply(sha, final, l, e);
            KnownHash(sha, TextsAfter(texts, e), c.stored) && (c.mem.Some? ==> KnownHash(sha, TextsAfter(texts, e), c.mem.value))
  {
    assert forall t :: t in texts ==> t in TextsAfter(texts, e);
    if e.Step? { assert e.text in TextsAfter(texts, e); }
  }

  // ---------------------------------------------------------------------
  // At-least-once reload under all faults that lose none
  // ---------------------------------------------------------------------

  /** The pair is accepted and the hash is that of the newest text. */
  ghost predicate Named(sha: Sha, p: Pair, texts: seq<string>, hash: string) {
    texts != [] && Accepted(sha, p) && hash == sha(Last(texts))
  }

  /** The pair would be under the hash of the newest text, saved or held. */
  ghost predicate Recorded(sha: Sha, l: Lane, p: Pair, texts: seq<string>) {
    Named(sha, p, texts, l.stored) || (l.mem.Some? && Named(sha, p, texts, l.mem.value))
  }

  /** The events that lose no reload, given the texts rendered before: a write that
      stops, or a crash, does not leave an accepted file under the hash of its text
      unless this is the text, and the service has loaded it or is about to; a
      reload fails, or the process dies before it, only when the service has the
      content of the file or the hash is not that of the newest text; an outside
      change likewise. */
  ghost predicate KeepsReload(sha: Sha, final: Finalizer, l: Lane, e: Event, texts: seq<string>) {
    match e
    case Step(gen, text, o, crash) =>
      if l.mem.Some? && Accepted(sha, l.pair) && l.mem.value == sha(text) then
        crash && l.stored == sha(text) ==> l.loaded == l.pair.cfg
      else
        var q := Written(sha, l.pair, final(gen, text), o);
        if (if crash then l.stored == sha(text) else !o.Completes?) && LeavesAccepted(sha, l.pair, final(gen, text), o)
        then Holds(final, q, text) && (l.loaded == q.cfg || (!crash && l.pending))
        else true
    case Reload(ok) => !ok && Recorded(sha, l, l.pair, texts) ==> l.loaded == l.pair.cfg
    case Crash => Named(sha, l.pair, texts, l.stored) ==> l.loaded == l.pair.cfg
    case Tamper(p) =>
      if Recorded(sha, l, p, texts)
      then Holds(final, p, Last(texts)) && (l.loaded == p.cfg || (l.mem.Some? && l.pending))
      else true
    case BeginStale(hash) =>
      KnownHash(sha, texts, hash) &&
      (Named(sha, l.pair, texts, hash) ==> Holds(final, l.pair, Last(texts)) && l.loaded == l.pair.cfg)
    case _ => true
  }

  ghost predicate KeepsReloads(sha: Sha, final: Finalizer, l: Lane, es: seq<Event>)
    requires Valid(sha, final, l, es)
  {
    es == [] ||
    (KeepsReloads(sha, final, l, DropLast(es)) &&
     KeepsReload(sha, final, Run(sha, final, l, DropLast(es)), Last(es), Texts(DropLast(es))))
  }

  /** The hashes are those of rendered texts, and that of the newest one stands over a
      file of this text that is loaded or about to be. */
  ghost predicate LoadInv(sha: Sha, final: Finalizer, l: Lane, texts: seq<string>) {
    HashInv(sha, l, texts) &&
    (Recorded(sha, l, l.pair, texts) ==>
      Holds(final, l.pair, Last(texts)) && (l.loaded == l.pair.cfg || (l.mem.Some? && l.pending)))
  }

  ghost predicate HashInv(sha: Sha, l: Lane, texts: seq<string>) {
    KnownHash(sha, texts, l.stored) &&
    (l.mem.Some? ==> KnownHash(sha, texts, l.mem.value)) &&
    (l.done.Some? ==> l.mem.Some? && texts != [] && l.done.value == Last(texts) && l.mem.value == sha(Last(texts)))
  }

  lemma HashInvStep(sha: Sha, final: Finalizer, l: Lane, e: Event, texts: seq<string>)
    requires IsSha(sha) && Enabled(l, e) && HashInv(sha, l, texts)
    requires e.BeginStale? ==> KnownHash(sha, texts, e.hash)
    requires NeverReturns(TextsAfter(texts, e)) && NoCollision(sha, Elems(TextsAfter(texts, e)))
    ensures HashInv(sha, Apply(sha, final, l, e), TextsAfter(texts, e))
    ensures e.Step? ==> forall h :: KnownHash(sha, texts, h) && h == sha(e.text) ==> texts != [] && e.text == Last(texts)
  {
    if e.Step? {
      hide KnownHash, NeverReturns, NoCollision;
      KnownAgain(sha, texts, e.text);
      assert Last(texts + [e.text]) == e.text;
    } else {
      assert TextsAfter(texts, e) == texts;
    }
  }

  /** Exactly the events of this class keep the invariant. */
  lemma LoadInvStep(sha: Sha, final: Finalizer, l: Lane, e: Event, texts: seq<string>)
    requires IsSha(sha) && Enabled(l, e) && LoadInv(sha, final, l, texts)
    requires NeverReturns(TextsAfter(texts, e)) && NoCollision(sha, Elems(TextsAfter(texts, e)))
    ensures LoadInv(sha, final, Apply(sha, final, l, e), TextsAfter(texts, e)) <==> KeepsReload(sha, final, l, e, texts)
  {
    if !e.BeginStale? || KnownHash(sha, texts, e.hash) { HashInvStep(sha, final, l, e, texts); }
    if e.Step? {
      AcceptedAfterExactly(sha, l.pair, final(e.gen, e.text), e.o);
      assert Last(TextsAfter(texts, e)) == e.text;
      assert e.o.Completes? ==> Written(sha, l.pair, final(e.gen, e.text), e.o).cfg == Some(final(e.gen, e.text));
    } else {
      assert TextsAfter(texts, e) == texts;
    }
  }

  lemma {:induction false} LoadInvRun(sha: Sha, final: Finalizer, l: Lane, es: seq<Event>)
    requires IsSha(sha) && Valid(sha, final, l, es)
    requires l.stored == "" && l.mem.None? && l.done.None?
    requires KeepsReloads(sha, final, l, es)
    requires NeverReturns(Texts(es)) && NoCollision(sha, Elems(Texts(es)))
    ensures LoadInv(sha, final, Run(sha, final, l, es), Texts(es))
  {
    if es != [] {
      var before := DropLast(es);
      Shorter(sha, es);
      LoadInvRun(sha, final, l, before);
      LoadInvStep(sha, final, Run(sha, final, l, before), Last(es), Texts(before));
    }
  }

  /** At-least-once reload with failed writes, crashes, rejected updates and outside
      changes: in every run in which no fault loses a reload and no text returns,
      when the reloads of a reconcile are over, a file that it compared and that
      is accepted holds the rendered text and is loaded. */
  lemma LoadedUnlessLost(sha: Sha, final: Finalizer, l: Lane, es: seq<Event>)
    requires IsSha(sha) && Valid(sha, final, l, es)
    requires l.stored == "" && l.mem.None? && l.done.None?
    requires KeepsReloads(sha, final, l, es)
    requires NeverReturns(Texts(es)) && NoCollision(sha, Elems(Texts(es)))
    requires Run(sha, final, l, es).done.Some? && !Run(sha, final, l, es).pending
    requires Accepted(sha, Run(sha, final, l, es).pair)
    ensures Served(sha, final, Run(sha, final, l, es), Run(sha, final, l, es).done.value)
  {
    LoadInvRun(sha, final, l, es);
  }

  /** The theorem needs its conditions: every event outside the class, after whatever
      kept the invariant, has a continuation without further faults that ends with
      a successful comparison, no reload outstanding, and the newest text not
      served. */
  lemma FaultLosesReload(sha: Sha, final: Finalizer, l: Lane, e: Event, texts: seq<string>) returns (es: seq<Event>)
    requires IsSha(sha) && Enabled(l, e) && LoadInv(sha, final, l, texts)
    requires NeverReturns(TextsAfter(texts, e)) && NoCollision(sha, Elems(TextsAfter(texts, e)))
    requires e.BeginStale? ==> KnownHash(sha, texts, e.hash)
    requires !KeepsReload(sha, final, l, e, texts)
    ensures TextsAfter(texts, e) != [] && forall x :: x in es ==> Regular(x)
    ensures var c := Apply(sha, final, l, e);
            var text := Last(TextsAfter(texts, e));
            SkipsAtEnd(sha, final, c, es, text) && !Served(sha, final, Run(sha, final, c, es), text)
  {
    LoadInvStep(sha, final, l, e, texts);
    HashInvStep(sha, final, l, e, texts);
    var c := Apply(sha, final, l, e);
    if e.BeginStale? {
      es := SkipNow(sha, final, c, Last(TextsAfter(texts, e)));
    } else {
      var save := c.mem.Some? && Named(sha, c.pair, TextsAfter(texts, e), c.mem.value);
      var before := Settles(sha, final, c, save);
      es := SkipAfter(sha, final, c, before, Last(TextsAfter(texts, e)));
    }
  }
}
