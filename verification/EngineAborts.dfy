/**
  Which solve an abort hits (src/miner/engine.cpp): on_job posts first and aborts second, and
  solve() clears the flag as it starts.
 */
module EngineAborts {
  import opened Origins
  import opened NonceLanes
  import opened Engine
  import opened EngineRuns

  predicate IsAbort(e: Event) { e.RequestAbort? || e.StopAbort? }

  ghost predicate AbortAmong(es: seq<Event>) { exists j :: 0 <= j < |es| && IsAbort(es[j]) }

  /** The solve begun by the call after `calls` is still running. */
  predicate InSolve(t: State, calls: nat) { t.pc.Solving? && |t.starts| == calls + 1 }

  // ---- the flag -------------------------------------------------------------------------------------

  lemma SolveStep(cfg: Config, s: State, e: Event)
    requires Enabled(s, e)
    ensures var n := Next(cfg, s, e);
      && |s.starts| <= |n.starts|
      && (e.Begin? ==> |s.starts| < |n.starts|)
      && (n.pc.Solving? && !e.Begin? ==> s.pc.Solving? && n.abort == (s.abort || IsAbort(e)))
  {
    hide NonceBytes, WellFormed;
  }

  /** A solve, once left, is not come back to. */
  lemma {:induction false} StartsGrow(cfg: Config, s: State, es: seq<Event>)
    requires CanRun(cfg, s, es)
    ensures var t := Run(cfg, s, es);
      |s.starts| <= |t.starts| && (t.pc.Solving? && !s.pc.Solving? ==> |s.starts| < |t.starts|)
    decreases |es|
  {
    hide Next, Enabled;
    if es == [] {
    } else {
      SolveStep(cfg, s, es[0]);
      StartsGrow(cfg, Next(cfg, s, es[0]), es[1..]);
    }
  }

  lemma {:induction false} FlagDuringSolve(cfg: Config, s: State, es: seq<Event>)
    requires s.pc.Solving? && CanRun(cfg, s, es)
    requires Run(cfg, s, es).pc.Solving? && |Run(cfg, s, es).starts| == |s.starts|
    ensures Run(cfg, s, es).abort <==> s.abort || AbortAmong(es)
    decreases |es|
  {
    hide Next, Enabled;
    if es == [] {
    } else {
      var n := Next(cfg, s, es[0]);
      SolveStep(cfg, s, es[0]);
      StartsGrow(cfg, n, es[1..]);
      FlagDuringSolve(cfg, n, es[1..]);
      AbortAmongTail(es);
    }
  }

  lemma AbortAmongTail(es: seq<Event>)
    requires es != []
    ensures AbortAmong(es) <==> IsAbort(es[0]) || AbortAmong(es[1..])
  {
    if j :| 0 <= j < |es| && IsAbort(es[j]) {
      assert j > 0 ==> IsAbort(es[1..][j - 1]);
    }
    if j :| 0 <= j < |es[1..]| && IsAbort(es[1..][j]) {
      assert IsAbort(es[j + 1]);
    }
  }

  /** While a solve runs the flag is set exactly when some abort has come since its own Begin. */
  lemma FlagMeansAbortSinceBegin(cfg: Config, s: State, es: seq<Event>)
    requires s.pc.Top? && CanRun(cfg, Next(cfg, s, Begin), es)
    requires InSolve(Run(cfg, Next(cfg, s, Begin), es), |s.starts|)
    ensures Run(cfg, Next(cfg, s, Begin), es).abort <==> AbortAmong(es)
  {
    hide NonceBytes, Run, CanRun;
    FlagDuringSolve(cfg, Next(cfg, s, Begin), es);
  }

  // ---- whose abort -------------------------------------------------------------------------------------

  /** A post's abort is asked for in a run exactly when it was owed before and is not after. */
  lemma {:induction false} AbortIsPaidOnce(cfg: Config, s: State, es: seq<Event>, k: nat)
    requires k < |s.posts| && CanRun(cfg, s, es)
    ensures RequestAbort(k) in es <==> k in s.owed && k !in Run(cfg, s, es).owed
    ensures k !in s.owed ==> k !in Run(cfg, s, es).owed
    decreases |es|
  {
    hide Next, Enabled;
    if es == [] {
    } else {
      OwedStep(cfg, s, es[0], k);
      AbortIsPaidOnce(cfg, Next(cfg, s, es[0]), es[1..], k);
      assert es == [es[0]] + es[1..];
    }
  }

  lemma OwedStep(cfg: Config, s: State, e: Event, k: nat)
    requires k < |s.posts| && Enabled(s, e)
    ensures var n := Next(cfg, s, e);
      && k < |n.posts|
      && (e == RequestAbort(k) ==> k in s.owed && k !in n.owed)
      && (e != RequestAbort(k) ==> (k in n.owed <==> k in s.owed))
  {
    hide NonceBytes, WellFormed;
  }

  /**
    The abort a post owes hits a solve of that same post exactly when that solve began between
    the post and the abort, and the abort came before it ended: owed as the solve began, no
    longer owed while it still runs. The flag is then set.
   */
  lemma OwnAbortHitsIff(cfg: Config, s: State, es: seq<Event>)
    requires Inv(cfg, s) && s.pc.Top? && CanRun(cfg, Next(cfg, s, Begin), es)
    requires InSolve(Run(cfg, Next(cfg, s, Begin), es), |s.starts|)
    ensures var k, t := s.pc.serial, Run(cfg, Next(cfg, s, Begin), es);
      && t.pc.Solving? && t.pc.serial == k
      && (RequestAbort(k) in es <==> k in s.owed && k !in t.owed)
      && (RequestAbort(k) in es ==> t.abort)
  {
    hide NonceBytes, Run, CanRun, WalkCounter;
    var n := Next(cfg, s, Begin);
    AbortIsPaidOnce(cfg, n, es, s.pc.serial);
    FlagMeansAbortSinceBegin(cfg, s, es);
    SameSolve(cfg, n, es);
    if RequestAbort(s.pc.serial) in es {
      var j :| 0 <= j < |es| && es[j] == RequestAbort(s.pc.serial);
      assert IsAbort(es[j]);
    }
  }

  lemma {:induction false} SameSolve(cfg: Config, s: State, es: seq<Event>)
    requires s.pc.Solving? && CanRun(cfg, s, es)
    requires Run(cfg, s, es).pc.Solving? && |Run(cfg, s, es).starts| == |s.starts|
    ensures Run(cfg, s, es).pc == s.pc
    decreases |es|
  {
    hide Next, Enabled;
    if es == [] {
    } else {
      var n := Next(cfg, s, es[0]);
      SolveStep(cfg, s, es[0]);
      StaysPut(cfg, s, es[0]);
      StartsGrow(cfg, n, es[1..]);
      SameSolve(cfg, n, es[1..]);
    }
  }

  lemma StaysPut(cfg: Config, s: State, e: Event)
    requires s.pc.Solving? && Enabled(s, e)
    ensures Next(cfg, s, e).pc.Solving? ==> Next(cfg, s, e).pc == s.pc
  {
  }

  // ---- when a solve runs clean ---------------------------------------------------------------------------

  /** No post and no stop() arrives: only aborts already owed, and a stop already asked for. */
  predicate NoNews(es: seq<Event>) { forall j :: 0 <= j < |es| ==> es[j].RequestAbort? || es[j].Stop? }

  lemma {:induction false} NothingOwedNothingComes(cfg: Config, s: State, es: seq<Event>)
    requires NoNews(es) && CanRun(cfg, s, es) && AbortAmong(es)
    ensures s.owed != {}
    decreases |es|
  {
    if es == [] {
    } else if es[0].Stop? {
      AbortAmongTail(es);
      assert forall j :: 0 <= j < |es[1..]| ==> es[1..][j] == es[j + 1];
      NothingOwedNothingComes(cfg, Next(cfg, s, es[0]), es[1..]);
    } else {
      assert es[0].post in s.owed;
    }
  }

  /** The next solve can be cut short with nothing new posted and no stop. */
  ghost predicate CanBeCutShort(cfg: Config, s: State, es: seq<Event>)
    requires s.pc.Top?
  {
    && NoNews(es) && CanRun(cfg, Next(cfg, s, Begin), es)
    && InSolve(Run(cfg, Next(cfg, s, Begin), es), |s.starts|)
    && Enabled(Run(cfg, Next(cfg, s, Begin), es), CutShort)
  }

  /**
    A solve about to begin, first of its job or not, is sure to run clean until something newer
    comes exactly when no abort is still owed.
   */
  lemma RunsCleanIffNothingOwed(cfg: Config, s: State)
    requires s.pc.Top?
    ensures (exists es :: CanBeCutShort(cfg, s, es)) <==> s.owed != {}
  {
    hide NonceBytes;
    if s.owed != {} {
      var k :| k in s.owed;
      OwedAbortCuts(cfg, s, k);
    }
    if es :| CanBeCutShort(cfg, s, es) {
      FlagMeansAbortSinceBegin(cfg, s, es);
      NothingOwedNothingComes(cfg, Next(cfg, s, Begin), es);
    }
  }

  lemma OwedAbortCuts(cfg: Config, s: State, k: nat)
    requires s.pc.Top? && k in s.owed
    ensures CanBeCutShort(cfg, s, [RequestAbort(k)])
  {
    hide NonceBytes;
    Unfold(cfg, Next(cfg, s, Begin), [RequestAbort(k)]);
  }

  /**
    It happens: a job is posted and taken, its first solve begins, and only then comes the
    abort of its own post.
   */
  lemma AbortCanHitTheNewJob(cfg: Config)
    ensures var es := [Post(SampleEntry("a")), Take];
      && CanRun(cfg, Init(cfg), es)
      && var s := Run(cfg, Init(cfg), es);
         && s.pc == Top(0, SampleEntry("a")) && s.starts == [] && s.owed == {0}
         && CanBeCutShort(cfg, s, [RequestAbort(0)])
  {
    hide NonceBytes;
    var es := [Post(SampleEntry("a")), Take];
    var s0 := Init(cfg);
    var s1 := Next(cfg, s0, es[0]);
    Unfold(cfg, s1, es[1..]);
    Unfold(cfg, s0, es);
    OwedAbortCuts(cfg, Next(cfg, s1, es[1]), 0);
  }
}
