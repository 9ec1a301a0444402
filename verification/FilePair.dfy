/** One managed file together with its digest sibling: what one call of
    WriteConfig does to the two, wherever it stops, and when the pair is
    accepted as unmodified.

    SHA-256 (section 6.2 of FIPS 180-4) printed in hexadecimal is the parameter
    `sha`: any function to strings of 64 characters. */
module FilePair {
  import opened Prelude

  type Sha = string -> string

  /** The digest text has the length of a hexadecimal SHA-256. */
  ghost predicate IsSha(sha: Sha) {
    forall s :: |sha(s)| == 64
  }

  /** No two of these strings collide. */
  ghost predicate NoCollision(sha: Sha, texts: set<string>) {
    forall s, t :: s in texts && t in texts && sha(s) == sha(t) ==> s == t
  }

  /** The contents of the config file and of its digest file; None is absent or unreadable. */
  datatype Pair = Pair(cfg: Option<string>, dig: Option<string>)

  /** Negation of IsFileModified: both files are readable and the digest file
      holds the digest of the config file. */
  predicate Accepted(sha: Sha, p: Pair) {
    p.cfg.Some? && p.dig.Some? && p.dig.value == sha(p.cfg.value)
  }

  /** Where a call of WriteConfig stops. `n` counts the characters that reached
      the file before a failing write. */
  datatype Outcome =
    | Completes
    | FailsMkdir
    | FailsOpenConfig
    | FailsWriteConfig(n: nat)
    | FailsCloseConfig
    | FailsOpenDigest
    | FailsWriteDigest(n: nat)
    | FailsCloseDigest

  /** The pair after WriteConfig stopped at `o` while writing `final`. */
  function Written(sha: Sha, p: Pair, final: string, o: Outcome): Pair {
    match o
    case FailsMkdir | FailsOpenConfig => p
    case FailsWriteConfig(n) => p.(cfg := Some(final[..Min(n, |final|)]))
    case FailsCloseConfig | FailsOpenDigest => p.(cfg := Some(final))
    case FailsWriteDigest(n) =>
      Pair(Some(final), Some(sha(final)[..Min(n, |sha(final)|)]))
    case Completes | FailsCloseDigest => Pair(Some(final), Some(sha(final)))
  }

  // ---------------------------------------------------------------------
  // The micro-steps of WriteConfig
  // ---------------------------------------------------------------------

  /** The program points of WriteConfig; `n` characters have been written so far. */
  datatype Point =
    | AtMkdir
    | AtOpenConfig
    | WritingConfig(n: nat)
    | AtOpenDigest
    | WritingDigest(n: nat)
    | AtReturn

  datatype Writer = Writer(point: Point, pair: Pair)

  /** One system call, a write call moving one character. */
  function MicroStep(sha: Sha, final: string, w: Writer): Writer {
    match w.point
    case AtMkdir => w.(point := AtOpenConfig)
    case AtOpenConfig => Writer(WritingConfig(0), w.pair.(cfg := Some("")))
    case WritingConfig(n) =>
      if n < |final|
      then Writer(WritingConfig(n + 1), w.pair.(cfg := Some(final[..n + 1])))
      else w.(point := AtOpenDigest)
    case AtOpenDigest => Writer(WritingDigest(0), w.pair.(dig := Some("")))
    case WritingDigest(n) =>
      if n < |sha(final)|
      then Writer(WritingDigest(n + 1), w.pair.(dig := Some(sha(final)[..n + 1])))
      else w.(point := AtReturn)
    case AtReturn => w
  }

  function MicroRun(sha: Sha, final: string, p: Pair, steps: nat): Writer {
    if steps == 0 then Writer(AtMkdir, p)
    else MicroStep(sha, final, MicroRun(sha, final, p, steps - 1))
  }

  /** The point and pair reached after a number of system calls, in closed form. */
  function MicroState(sha: Sha, final: string, p: Pair, steps: nat): Writer {
    var a := |final|;
    var b := |sha(final)|;
    if steps == 0 then Writer(AtMkdir, p)
    else if steps == 1 then Writer(AtOpenConfig, p)
    else if steps <= 2 + a then
      Writer(WritingConfig(steps - 2), Written(sha, p, final, FailsWriteConfig(steps - 2)))
    else if steps == 3 + a then Writer(AtOpenDigest, Written(sha, p, final, FailsOpenDigest))
    else if steps <= 4 + a + b then
      Writer(WritingDigest(steps - 4 - a), Written(sha, p, final, FailsWriteDigest(steps - 4 - a)))
    else Writer(AtReturn, Written(sha, p, final, Completes))
  }

  lemma {:induction false} MicroRunState(sha: Sha, final: string, p: Pair, steps: nat)
    ensures MicroRun(sha, final, p, steps) == MicroState(sha, final, p, steps)
  {
    if steps > 0 {
      MicroRunState(sha, final, p, steps - 1);
      assert final[..|final|] == final;
      assert sha(final)[..|sha(final)|] == sha(final);
    }
  }

  /** The outcome that stops after a number of system calls. */
  function StopAfter(sha: Sha, final: string, steps: nat): Outcome {
    var a := |final|;
    if steps == 0 then FailsMkdir
    else if steps == 1 then FailsOpenConfig
    else if steps <= 2 + a then FailsWriteConfig(steps - 2)
    else if steps == 3 + a then FailsOpenDigest
    else if steps <= 4 + a + |sha(final)| then FailsWriteDigest(steps - 4 - a)
    else Completes
  }

  /** The number of system calls after which an outcome stops. */
  function StepsUntil(sha: Sha, final: string, o: Outcome): nat {
    var a := |final|;
    match o
    case FailsMkdir => 0
    case FailsOpenConfig => 1
    case FailsWriteConfig(n) => 2 + Min(n, a)
    case FailsCloseConfig | FailsOpenDigest => 3 + a
    case FailsWriteDigest(n) => 4 + a + Min(n, |sha(final)|)
    case Completes | FailsCloseDigest => 5 + a + |sha(final)|
  }

  lemma StepsReachOutcome(sha: Sha, final: string, p: Pair, steps: nat)
    ensures Written(sha, p, final, StopAfter(sha, final, steps)) == MicroRun(sha, final, p, steps).pair
  {
    MicroRunState(sha, final, p, steps);
  }

  lemma OutcomeReachedBySteps(sha: Sha, final: string, p: Pair, o: Outcome)
    ensures MicroRun(sha, final, p, StepsUntil(sha, final, o)).pair == Written(sha, p, final, o)
  {
    MicroRunState(sha, final, p, StepsUntil(sha, final, o));
    assert final[..|final|] == final;
    assert sha(final)[..|sha(final)|] == sha(final);
  }

  /** The outcomes are exactly the crash points: a pair is on disk after some
      number of system calls if and only if it is the result of some outcome. */
  lemma CrashPointsAreOutcomes(sha: Sha, final: string, p: Pair, q: Pair)
    ensures (exists steps :: MicroRun(sha, final, p, steps).pair == q)
       <==> (exists o :: Written(sha, p, final, o) == q)
  {
    if steps :| MicroRun(sha, final, p, steps).pair == q {
      StepsReachOutcome(sha, final, p, steps);
    }
    if o :| Written(sha, p, final, o) == q {
      OutcomeReachedBySteps(sha, final, p, o);
    }
  }

  // ---------------------------------------------------------------------
  // Which stopped writes are accepted afterwards
  // ---------------------------------------------------------------------

  /** The outcomes that reach the digest file have written the whole config file. */
  predicate ReachesDigest(o: Outcome) {
    o.FailsWriteDigest? || o.FailsCloseDigest? || o.Completes?
  }

  /** The stops after which the pair is accepted, told from the pair before. */
  predicate LeavesAccepted(sha: Sha, p: Pair, final: string, o: Outcome) {
    match o
    case FailsMkdir | FailsOpenConfig => Accepted(sha, p)
    case FailsWriteConfig(n) => p.dig == Some(sha(final[..Min(n, |final|)]))
    case FailsCloseConfig | FailsOpenDigest => p.dig == Some(sha(final))
    case FailsWriteDigest(n) => n >= |sha(final)|
    case FailsCloseDigest | Completes => true
  }

  lemma AcceptedAfterExactly(sha: Sha, p: Pair, final: string, o: Outcome)
    ensures Accepted(sha, Written(sha, p, final, o)) <==> LeavesAccepted(sha, p, final, o)
  {
    assert sha(final)[..|sha(final)|] == sha(final);
    if o.FailsWriteDigest? && o.n < |sha(final)| {
      assert |sha(final)[..o.n]| == o.n;
    }
  }

  /** A stopped write that leaves an accepted pair without holding the new text:
      it stopped before truncation over an accepted older pair, or it cut the
      text exactly where a text already named by the digest file ends. */
  predicate Misleading(sha: Sha, p: Pair, final: string, o: Outcome) {
    match o
    case FailsMkdir | FailsOpenConfig => Accepted(sha, p) && p.cfg.value != final
    case FailsWriteConfig(n) => n < |final| && p.dig == Some(sha(final[..n]))
    case _ => false
  }

  /** Exactly the misleading stops leave a wrong text that is accepted later. */
  lemma MisleadingExactly(sha: Sha, p: Pair, final: string, o: Outcome)
    ensures Misleading(sha, p, final, o)
       <==> (Accepted(sha, Written(sha, p, final, o)) && Written(sha, p, final, o).cfg != Some(final))
  {
    match o
    case FailsWriteConfig(n) =>
      assert final[..|final|] == final;
      if n < |final| { assert |final[..n]| == n; }
    case _ =>
  }
}
