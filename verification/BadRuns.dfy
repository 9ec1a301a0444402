/** Runs that show that the hypotheses of the convergence and reload theorems
    are needed: each breaks one of them and ends with a comparison that reports
    success over the wrong file, or with a service that never reads the new one. */
module BadRuns {
  import opened Prelude
  import opened FilePair
  import opened Lane
  import opened Faults

  /** A host on which nothing has been written yet. */
  function Fresh(): Lane {
    Lane(Pair(None, None), "", None, None, false, None)
  }

  /** A host on which `text` was written, loaded and recorded. */
  function Deployed(sha: Sha, final: Finalizer, text: string): Lane {
    var whole := final(1, text);
    Lane(Pair(Some(whole), Some(sha(whole))), sha(text), None, None, false, Some(whole))
  }

  // The parts that the runs are made of.

  /** Render, write, reload, save the status. */
  function Deploy(text: string): seq<Event> {
    [Begin, Step(1, text, Completes, false)] + [Reload(true), Finish(true)]
  }

  /** Render and compare; the write, if there is one, fails; save the status. */
  function Attempt(text: string, o: Outcome): seq<Event> {
    [Begin, Step(1, text, o, false)] + [Finish(true)]
  }

  /** Render and compare; the process dies where the write stops. */
  function Die(text: string, o: Outcome): seq<Event> {
    [Begin, Step(1, text, o, true)]
  }

  /** Render, write and reload; the status update is rejected. */
  function Reject(text: string): seq<Event> {
    [Begin, Step(1, text, Completes, false)] + [Reload(true), Finish(false)]
  }

  /** Render and compare without faults. */
  function Compare(text: string): seq<Event> {
    [Begin, Step(1, text, Completes, false)]
  }

  lemma RunDeploy(sha: Sha, final: Finalizer, l: Lane, text: string)
    requires l.mem.None? && !(Accepted(sha, l.pair) && l.stored == sha(text))
    ensures Valid(sha, final, l, Deploy(text)) && Texts(Deploy(text)) == [text]
    ensures Run(sha, final, l, Deploy(text)) == Deployed(sha, final, text)
  {
    var es: seq<Event> := [Begin, Step(1, text, Completes, false)];
    RunTwo(sha, final, l, es[0], es[1]);
    RunTwo(sha, final, Run(sha, final, l, es), Reload(true), Finish(true));
    Append(sha, final, l, es, [Reload(true), Finish(true)]);
  }

  lemma RunAttempt(sha: Sha, final: Finalizer, l: Lane, text: string, o: Outcome)
    requires l.mem.None? && !(Accepted(sha, l.pair) && l.stored == sha(text)) && !o.Completes?
    ensures Valid(sha, final, l, Attempt(text, o)) && Texts(Attempt(text, o)) == [text]
    ensures Run(sha, final, l, Attempt(text, o)) ==
            Lane(Written(sha, l.pair, final(1, text), o), sha(text), None, None, false, l.loaded)
  {
    var es: seq<Event> := [Begin, Step(1, text, o, false)];
    RunTwo(sha, final, l, es[0], es[1]);
    RunOne(sha, final, Run(sha, final, l, es), Finish(true));
    Append(sha, final, l, es, [Finish(true)]);
  }

  lemma RunDie(sha: Sha, final: Finalizer, l: Lane, text: string, o: Outcome)
    requires l.mem.None? && !(Accepted(sha, l.pair) && l.stored == sha(text))
    ensures Valid(sha, final, l, Die(text, o)) && Texts(Die(text, o)) == [text]
    ensures Run(sha, final, l, Die(text, o)) ==
            Lane(Written(sha, l.pair, final(1, text), o), l.stored, None, None, false, l.loaded)
  {
    RunTwo(sha, final, l, Begin, Step(1, text, o, true));
  }

  lemma RunReject(sha: Sha, final: Finalizer, l: Lane, text: string)
    requires l.mem.None? && !(Accepted(sha, l.pair) && l.stored == sha(text))
    ensures Valid(sha, final, l, Reject(text)) && Texts(Reject(text)) == [text]
    ensures Run(sha, final, l, Reject(text)) == Deployed(sha, final, text).(stored := l.stored)
  {
    var es: seq<Event> := [Begin, Step(1, text, Completes, false)];
    RunTwo(sha, final, l, es[0], es[1]);
    RunTwo(sha, final, Run(sha, final, l, es), Reload(true), Finish(false));
    Append(sha, final, l, es, [Reload(true), Finish(false)]);
  }

  /** The last comparison of a run skips and reports success. */
  ghost predicate EndsSkipping(sha: Sha, final: Finalizer, l: Lane, es: seq<Event>) {
    Valid(sha, final, l, es) && es != [] && Last(es).Step? &&
    Run(sha, final, l, es).done == Some(Last(es).text) && !Run(sha, final, l, es).pending
  }

  lemma RunSkip(sha: Sha, final: Finalizer, l: Lane, text: string)
    requires l.mem.None? && Accepted(sha, l.pair) && l.stored == sha(text)
    ensures EndsSkipping(sha, final, l, Compare(text)) && Texts(Compare(text)) == [text]
    ensures Run(sha, final, l, Compare(text)).pair == l.pair
    ensures Run(sha, final, l, Compare(text)).loaded == l.loaded
  {
    RunTwo(sha, final, l, Begin, Step(1, text, Completes, false));
  }

  lemma RunDeployAttempt(sha: Sha, final: Finalizer, a: string, b: string, o: Outcome)
    requires IsSha(sha) && sha(a) != sha(b) && !o.Completes?
    ensures Valid(sha, final, Fresh(), Deploy(a) + Attempt(b, o)) && Texts(Deploy(a) + Attempt(b, o)) == [a, b]
    ensures Run(sha, final, Fresh(), Deploy(a) + Attempt(b, o)) ==
            Lane(Written(sha, Deployed(sha, final, a).pair, final(1, b), o), sha(b), None, None, false, Some(final(1, a)))
  {
    RunDeploy(sha, final, Fresh(), a);
    RunAttempt(sha, final, Deployed(sha, final, a), b, o);
    Append(sha, final, Fresh(), Deploy(a), Attempt(b, o));
  }

  /** A failure before truncation: the hash of the new text is saved although the
      file was not touched, and the retry skips over the old file. */
  function EarlyFailureRun(a: string, b: string): seq<Event> {
    Deploy(a) + Attempt(b, FailsOpenConfig) + Compare(b)
  }

  lemma EarlyFailureMisleads(sha: Sha, final: Finalizer, a: string, b: string)
    requires IsSha(sha) && sha(a) != sha(b)
    ensures EndsSkipping(sha, final, Fresh(), EarlyFailureRun(a, b))
    ensures Texts(EarlyFailureRun(a, b)) == [a, b, b] && NeverReturns([a, b, b])
    ensures Run(sha, final, Fresh(), EarlyFailureRun(a, b)).pair.cfg == Some(final(1, a))
  {
    RunDeployAttempt(sha, final, a, b, FailsOpenConfig);
    RunSkip(sha, final, Run(sha, final, Fresh(), Deploy(a) + Attempt(b, FailsOpenConfig)), b);
    Append(sha, final, Fresh(), Deploy(a) + Attempt(b, FailsOpenConfig), Compare(b));
  }

  /** A crash after the write, then a return to the earlier text: its hash is
      still the saved one, and the newer file is accepted. */
  function ReturnRun(a: string, b: string): seq<Event> {
    Deploy(a) + Die(b, Completes) + Compare(a)
  }

  lemma ReturnMisleads(sha: Sha, final: Finalizer, a: string, b: string)
    requires IsSha(sha) && sha(a) != sha(b)
    ensures EndsSkipping(sha, final, Fresh(), ReturnRun(a, b))
    ensures ConvergenceRun(sha, final, Fresh(), ReturnRun(a, b))
    ensures Texts(ReturnRun(a, b)) == [a, b, a]
    ensures Run(sha, final, Fresh(), ReturnRun(a, b)).pair.cfg == Some(final(1, b))
  {
    RunDeploy(sha, final, Fresh(), a);
    RunDie(sha, final, Deployed(sha, final, a), b, Completes);
    Append(sha, final, Fresh(), Deploy(a), Die(b, Completes));
    RunSkip(sha, final, Run(sha, final, Fresh(), Deploy(a) + Die(b, Completes)), a);
    Append(sha, final, Fresh(), Deploy(a) + Die(b, Completes), Compare(a));
    CompletedWritesAreTolerable(sha, final, Fresh(), ReturnRun(a, b));
  }

  lemma {:induction false} CompletedWritesAreTolerable(sha: Sha, final: Finalizer, l: Lane, es: seq<Event>)
    requires Valid(sha, final, l, es)
    requires forall e :: e in es ==> !e.Tamper? && !e.BeginStale? && (e.Step? ==> e.o.Completes?)
    ensures ConvergenceRun(sha, final, l, es)
  {
    if es != [] {
      CompletedWritesAreTolerable(sha, final, l, DropLast(es));
    }
  }

  /** A digest file that could not be opened, then a crash that cuts the same text
      exactly where the older text ends: the older pair is restored under the new
      hash, with no failure before truncation and no text that returns. */
  function TornRun(final: Finalizer, a: string, b: string): seq<Event> {
    Deploy(a) + Attempt(b, FailsOpenDigest) + Die(b, FailsWriteConfig(|final(1, a)|)) + Compare(b)
  }

  lemma TornMisleads(sha: Sha, final: Finalizer, a: string, b: string)
    requires IsSha(sha) && sha(a) != sha(b)
    requires final(1, a) < final(1, b) && sha(final(1, a)) != sha(final(1, b))
    ensures EndsSkipping(sha, final, Fresh(), TornRun(final, a, b))
    ensures Texts(TornRun(final, a, b)) == [a, b, b, b] && NeverReturns([a, b, b, b])
    ensures Run(sha, final, Fresh(), TornRun(final, a, b)).pair.cfg == Some(final(1, a))
  {
    var cut := FailsWriteConfig(|final(1, a)|);
    var es := Deploy(a) + Attempt(b, FailsOpenDigest);
    RunDeployAttempt(sha, final, a, b, FailsOpenDigest);
    RunDie(sha, final, Run(sha, final, Fresh(), es), b, cut);
    Append(sha, final, Fresh(), es, Die(b, cut));
    assert final(1, b)[..|final(1, a)|] == final(1, a);
    RunSkip(sha, final, Run(sha, final, Fresh(), es + Die(b, cut)), b);
    Append(sha, final, Fresh(), es + Die(b, cut), Compare(b));
  }

  /** A rejected status update does the same without any crash: the reconcile of `b`
      runs to its end and reloads, but its hash is not saved. */
  function RejectedReturnRun(a: string, b: string): seq<Event> {
    Deploy(a) + Reject(b) + Compare(a)
  }

  lemma RejectedReturnMisleads(sha: Sha, final: Finalizer, a: string, b: string)
    requires IsSha(sha) && sha(a) != sha(b)
    ensures EndsSkipping(sha, final, Fresh(), RejectedReturnRun(a, b))
    ensures ConvergenceRun(sha, final, Fresh(), RejectedReturnRun(a, b))
    ensures Texts(RejectedReturnRun(a, b)) == [a, b, a]
    ensures var r := Run(sha, final, Fresh(), RejectedReturnRun(a, b));
            r.pair.cfg == Some(final(1, b)) && r.loaded == r.pair.cfg
  {
    hide Apply, Enabled, Written;
    RunDeploy(sha, final, Fresh(), a);
    RunReject(sha, final, Deployed(sha, final, a), b);
    Append(sha, final, Fresh(), Deploy(a), Reject(b));
    RunSkip(sha, final, Run(sha, final, Fresh(), Deploy(a) + Reject(b)), a);
    Append(sha, final, Fresh(), Deploy(a) + Reject(b), Compare(a));
    CompletedWritesAreTolerable(sha, final, Fresh(), RejectedReturnRun(a, b));
  }

  /** A stale copy of the status does it with no fault at all: every write completes
      and every update is accepted, but the last reconcile reads the hash of `a`. */
  function StaleReturnRun(sha: Sha, a: string, b: string): seq<Event> {
    Deploy(a) + Deploy(b) + [BeginStale(sha(a)), Step(1, a, Completes, false)]
  }

  lemma StaleReturnMisleads(sha: Sha, final: Finalizer, a: string, b: string)
    requires IsSha(sha) && sha(a) != sha(b)
    ensures EndsSkipping(sha, final, Fresh(), StaleReturnRun(sha, a, b))
    ensures Texts(StaleReturnRun(sha, a, b)) == [a, b, a]
    ensures Run(sha, final, Fresh(), StaleReturnRun(sha, a, b)).pair.cfg == Some(final(1, b))
  {
    var last: seq<Event> := [BeginStale(sha(a)), Step(1, a, Completes, false)];
    RunDeploy(sha, final, Fresh(), a);
    RunDeploy(sha, final, Deployed(sha, final, a), b);
    Append(sha, final, Fresh(), Deploy(a), Deploy(b));
    RunTwo(sha, final, Deployed(sha, final, b), last[0], last[1]);
    Append(sha, final, Fresh(), Deploy(a) + Deploy(b), last);
  }

  // ---------------------------------------------------------------------
  // Lost reloads
  // ---------------------------------------------------------------------

  /** A host on which `text` was written and recorded, but the service has `loaded`. */
  function Unloaded(sha: Sha, final: Finalizer, text: string, loaded: Option<string>): Lane {
    Lane(Pair(Some(final(1, text)), Some(sha(final(1, text)))), sha(text), None, None, false, loaded)
  }

  /** The service keeps what it has loaded, in spite of the new file, in every
      continuation in which the text stays and nobody reloads or changes the file. */
  ghost predicate StaysUnloaded(sha: Sha, final: Finalizer, es: seq<Event>, more: seq<Event>,
                                text: string, loaded: Option<string>)
  {
    Valid(sha, final, Fresh(), es + more) &&
    Run(sha, final, Fresh(), es + more).pair.cfg == Some(final(1, text)) &&
    Run(sha, final, Fresh(), es + more).loaded == loaded
  }

  ghost predicate Continues(sha: Sha, final: Finalizer, text: string, loaded: Option<string>, more: seq<Event>) {
    Valid(sha, final, Unloaded(sha, final, text, loaded), more) && forall e :: e in more ==> SameText(e, text)
  }

  lemma Stuck(sha: Sha, final: Finalizer, es: seq<Event>, more: seq<Event>, text: string, loaded: Option<string>)
    requires Valid(sha, final, Fresh(), es) && Run(sha, final, Fresh(), es) == Unloaded(sha, final, text, loaded)
    requires Continues(sha, final, text, loaded, more)
    ensures EndsSkipping(sha, final, Fresh(), es + Compare(text)) && Texts(es + Compare(text)) == Texts(es) + [text]
    ensures StaysUnloaded(sha, final, es, more, text, loaded)
  {
    var l := Unloaded(sha, final, text, loaded);
    RunSkip(sha, final, l, text);
    Append(sha, final, Fresh(), es, Compare(text));
    ForGood(sha, final, l, text, more);
    Append(sha, final, Fresh(), es, more);
  }

  /** A write that fails after the whole digest is on disk: the file is complete and
      accepted under the new hash, so the service is never reloaded. */
  function LostReloadRun(a: string, b: string, o: Outcome): seq<Event> {
    Deploy(a) + Attempt(b, o)
  }

  lemma WriteFailureLosesReload(sha: Sha, final: Finalizer, a: string, b: string, o: Outcome, more: seq<Event>)
    requires IsSha(sha) && sha(a) != sha(b)
    requires WholeDigest(sha, final(1, b), o) && !o.Completes?
    requires Continues(sha, final, b, Some(final(1, a)), more)
    ensures EndsSkipping(sha, final, Fresh(), LostReloadRun(a, b, o) + Compare(b))
    ensures Texts(LostReloadRun(a, b, o) + Compare(b)) == [a, b, b] && NeverReturns([a, b, b])
    ensures StaysUnloaded(sha, final, LostReloadRun(a, b, o), more, b, Some(final(1, a)))
  {
    RunDeployAttempt(sha, final, a, b, o);
    assert sha(final(1, b))[..|sha(final(1, b))|] == sha(final(1, b));
    Stuck(sha, final, LostReloadRun(a, b, o), more, b, Some(final(1, a)));
  }

  /** No write fails after its digest, and no reload fails: a digest file that could
      not be opened leaves a rejected pair under the new hash, and the retry, which
      completes the pair, dies before the reload. */
  function LostRetryRun(a: string, b: string): seq<Event> {
    Deploy(a) + Attempt(b, FailsOpenDigest) + Die(b, Completes)
  }

  lemma CrashedRetryLosesReload(sha: Sha, final: Finalizer, a: string, b: string, more: seq<Event>)
    requires IsSha(sha) && sha(a) != sha(b) && sha(final(1, a)) != sha(final(1, b))
    requires Continues(sha, final, b, Some(final(1, a)), more)
    ensures EndsSkipping(sha, final, Fresh(), LostRetryRun(a, b) + Compare(b))
    ensures Texts(LostRetryRun(a, b) + Compare(b)) == [a, b, b, b] && NeverReturns([a, b, b, b])
    ensures StaysUnloaded(sha, final, LostRetryRun(a, b), more, b, Some(final(1, a)))
  {
    var es := Deploy(a) + Attempt(b, FailsOpenDigest);
    RunDeployAttempt(sha, final, a, b, FailsOpenDigest);
    RunDie(sha, final, Run(sha, final, Fresh(), es), b, Completes);
    Append(sha, final, Fresh(), es, Die(b, Completes));
    Stuck(sha, final, LostRetryRun(a, b), more, b, Some(final(1, a)));
  }

  /** A reload that fails is not tried again: the status is saved all the same. */
  function FailedReloadRun(a: string): seq<Event> {
    Compare(a) + [Reload(false), Finish(true)]
  }

  lemma FailedReloadIsNotRetried(sha: Sha, final: Finalizer, a: string, more: seq<Event>)
    requires IsSha(sha) && Continues(sha, final, a, None, more)
    ensures EndsSkipping(sha, final, Fresh(), FailedReloadRun(a) + Compare(a))
    ensures Texts(FailedReloadRun(a) + Compare(a)) == [a, a]
    ensures StaysUnloaded(sha, final, FailedReloadRun(a), more, a, None)
  {
    RunTwo(sha, final, Fresh(), Begin, Step(1, a, Completes, false));
    RunTwo(sha, final, Run(sha, final, Fresh(), Compare(a)), Reload(false), Finish(true));
    Append(sha, final, Fresh(), Compare(a), [Reload(false), Finish(true)]);
    Stuck(sha, final, FailedReloadRun(a), more, a, None);
  }
}
