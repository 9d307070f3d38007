/**
  What the mining engine does not fail to do (src/miner/engine.cpp): submit everything a solve
  found, keep mining the job it holds, and count its failures.
 */
module EngineSubmits {
  import opened Selections
  import opened Numbers
  import opened NonceLanes
  import opened Engine
  import opened EngineRuns

  // ---- everything found is submitted ---------------------------------------------------------------

  /** The solutions submitted out of one call, in order. */
  function SolutionsOf(log: seq<Submission>, call: nat): seq<Solution>
    decreases |log|
  {
    if log == [] then []
    else SolutionsOf(log[..|log| - 1], call) + if log[|log| - 1].call == call then [log[|log| - 1].solution] else []
  }

  function Clears(cfg: Config, difficulty: nat): Solution -> bool
  {
    sol => cfg.clears(sol, difficulty)
  }

  lemma OneMoreSubmission(log: seq<Submission>, x: Submission, call: nat)
    ensures SolutionsOf(log + [x], call) == if x.call == call then SolutionsOf(log, call) + [x.solution] else SolutionsOf(log, call)
  {
    assert (log + [x])[..|log|] == log;
  }

  lemma {:induction false} NoneOfThatCall(log: seq<Submission>, call: nat)
    requires forall i :: 0 <= i < |log| ==> log[i].call != call
    ensures SolutionsOf(log, call) == []
    decreases |log|
  {
    if log == [] {
    } else {
      NoneOfThatCall(log[..|log| - 1], call);
    }
  }

  predicate InCall(s: State) { s.pc.Solving? || s.pc.Solved? || s.pc.Submitting? }

  /** Nothing was submitted yet out of a call that has not passed its check. */
  ghost predicate LogIsBehind(s: State)
  {
    forall i {:trigger s.log[i]} :: 0 <= i < |s.log| ==>
      s.log[i].call <= |s.starts| && (s.pc.Solving? || s.pc.Solved? ==> s.log[i].call < |s.starts|)
  }

  lemma BehindStep(cfg: Config, s: State, e: Event)
    requires LogIsBehind(s) && Enabled(s, e)
    ensures LogIsBehind(Next(cfg, s, e))
  {
    hide NonceBytes, WellFormed;
  }

  lemma {:induction false} RunsStayBehind(cfg: Config, s: State, es: seq<Event>)
    requires LogIsBehind(s) && CanRun(cfg, s, es)
    ensures LogIsBehind(Run(cfg, s, es))
    decreases |es|
  {
    hide Next, Enabled, LogIsBehind;
    if es == [] {
    } else {
      BehindStep(cfg, s, es[0]);
      RunsStayBehind(cfg, Next(cfg, s, es[0]), es[1..]);
    }
  }

  /** `all` is what call number `call` has submitted so far, with what it has still to submit. */
  ghost predicate Owes(cfg: Config, s: State, call: nat, difficulty: nat, all: seq<Solution>)
  {
    if s.pc.Submitting? && |s.starts| == call then
      && s.pc.entry.job.difficulty == difficulty
      && SolutionsOf(s.log, call) + Picked(s.pc.left, Clears(cfg, difficulty)) == all
    else
      && |s.starts| >= call && (InCall(s) ==> |s.starts| > call)
      && SolutionsOf(s.log, call) == all
  }

  lemma OwesStep(cfg: Config, s: State, e: Event, call: nat, difficulty: nat, all: seq<Solution>)
    requires Owes(cfg, s, call, difficulty, all) && Enabled(s, e)
    ensures Owes(cfg, Next(cfg, s, e), call, difficulty, all)
  {
    hide NonceBytes, WellFormed, SolutionsOf, Picked;
    var n := Next(cfg, s, e);
    if e.SubmitNext? {
      var sol := s.pc.left[0];
      if cfg.clears(sol, s.pc.entry.job.difficulty) {
        OneMoreSubmission(s.log, n.log[|s.log|], call);
      }
      if |s.starts| == call {
        TakeFirst(cfg, difficulty, s.pc.left, SolutionsOf(s.log, call));
      }
    } else {
      assert n.log == s.log;
      if e.Leave? && |s.starts| == call {
        NothingLeft(cfg, difficulty, SolutionsOf(s.log, call));
      }
    }
  }

  lemma TakeFirst(cfg: Config, difficulty: nat, left: seq<Solution>, before: seq<Solution>)
    requires left != []
    ensures before + Picked(left, Clears(cfg, difficulty))
         == (if cfg.clears(left[0], difficulty) then before + [left[0]] else before) + Picked(left[1..], Clears(cfg, difficulty))
  {
    var first := [left[0]];
    assert left == first + left[1..];
    PickedConcat(first, left[1..], Clears(cfg, difficulty));
    assert first[..0] == [];
  }

  lemma NothingLeft(cfg: Config, difficulty: nat, before: seq<Solution>)
    ensures before + Picked([], Clears(cfg, difficulty)) == before
  {
  }

  lemma {:induction false} RunOwes(cfg: Config, s: State, es: seq<Event>, call: nat, difficulty: nat, all: seq<Solution>)
    requires Owes(cfg, s, call, difficulty, all) && CanRun(cfg, s, es)
    ensures Owes(cfg, Run(cfg, s, es), call, difficulty, all)
    decreases |es|
  {
    hide Next, Enabled, Owes;
    if es == [] {
    } else {
      OwesStep(cfg, s, es[0], call, difficulty, all);
      RunOwes(cfg, Next(cfg, s, es[0]), es[1..], call, difficulty, all);
    }
  }

  /**
    A call whose staleness check passes submits exactly the candidates that clear the post's
    difficulty, all of them, in the order found: so far, while its loop runs, with those still
    to come; for good once the call is left, whatever else happens.
   */
  lemma FoundIsSubmitted(cfg: Config, before: seq<Event>, s: State, es: seq<Event>)
    requires Reachable(cfg, before, s) && s.pc.Solved? && Next(cfg, s, Check).pc.Submitting?
    requires CanRun(cfg, Next(cfg, s, Check), es)
    ensures var t, wanted := Run(cfg, Next(cfg, s, Check), es), Clears(cfg, s.pc.entry.job.difficulty);
      && (t.pc.Submitting? && |t.starts| == |s.starts| ==>
            SolutionsOf(t.log, |s.starts|) + Picked(t.pc.left, wanted) == Picked(s.pc.found, wanted))
      && (!(t.pc.Submitting? && |t.starts| == |s.starts|) ==>
            && SolutionsOf(t.log, |s.starts|) == Picked(s.pc.found, wanted)
            && IsSelection(s.pc.found, wanted, SolutionsOf(t.log, |s.starts|)))
  {
    hide Picked, Next, Run, CanRun, Reachable, IsSelection;
    SubmittedNothingYet(cfg, before, s);
    var call, difficulty := |s.starts|, s.pc.entry.job.difficulty;
    PickedIsSelection(s.pc.found, Clears(cfg, difficulty));
    PassingCheckOwes(cfg, s);
    RunOwes(cfg, Next(cfg, s, Check), es, call, difficulty, Picked(s.pc.found, Clears(cfg, difficulty)));
  }

  lemma PassingCheckOwes(cfg: Config, s: State)
    requires s.pc.Solved? && Next(cfg, s, Check).pc.Submitting? && SolutionsOf(s.log, |s.starts|) == []
    ensures var difficulty := s.pc.entry.job.difficulty;
      Owes(cfg, Next(cfg, s, Check), |s.starts|, difficulty, Picked(s.pc.found, Clears(cfg, difficulty)))
  {
    hide Picked, SolutionsOf;
  }

  /** And one whose check fails never submits anything. */
  lemma StaleIsNotSubmitted(cfg: Config, before: seq<Event>, s: State, es: seq<Event>)
    requires Reachable(cfg, before, s) && s.pc.Solved? && !Next(cfg, s, Check).pc.Submitting?
    requires CanRun(cfg, Next(cfg, s, Check), es)
    ensures SolutionsOf(Run(cfg, Next(cfg, s, Check), es).log, |s.starts|) == []
  {
    hide Picked, Next, Run, CanRun, Reachable;
    SubmittedNothingYet(cfg, before, s);
    FailedCheckOwes(cfg, s);
    RunOwes(cfg, Next(cfg, s, Check), es, |s.starts|, 0, []);
    if Run(cfg, Next(cfg, s, Check), es).pc.Submitting? && |Run(cfg, Next(cfg, s, Check), es).starts| == |s.starts| {
      EmptyStart(SolutionsOf(Run(cfg, Next(cfg, s, Check), es).log, |s.starts|), Picked(Run(cfg, Next(cfg, s, Check), es).pc.left, Clears(cfg, 0)));
    }
  }

  lemma EmptyStart<T>(a: seq<T>, b: seq<T>)
    requires a + b == []
    ensures a == []
  {
    assert |a + b| == 0;
  }

  lemma FailedCheckOwes(cfg: Config, s: State)
    requires s.pc.Solved? && !Next(cfg, s, Check).pc.Submitting? && SolutionsOf(s.log, |s.starts|) == []
    ensures Owes(cfg, Next(cfg, s, Check), |s.starts|, 0, [])
  {
    hide Picked, SolutionsOf;
  }

  /** The call has nothing to submit, now or later. */
  predicate EmptyHanded(s: State, call: nat)
  {
    && |s.starts| >= call && SolutionsOf(s.log, call) == []
    && (InCall(s) && |s.starts| == call ==> (s.pc.Solved? && s.pc.found == []) || (s.pc.Submitting? && s.pc.left == []))
  }

  lemma EmptyHandedStep(cfg: Config, s: State, e: Event, call: nat)
    requires EmptyHanded(s, call) && Enabled(s, e)
    ensures EmptyHanded(Next(cfg, s, e), call)
  {
    hide NonceBytes, WellFormed, SolutionsOf;
    var n := Next(cfg, s, e);
    if n.log != s.log {
      OneMoreSubmission(s.log, n.log[|s.log|], call);
    }
  }

  lemma {:induction false} StaysEmptyHanded(cfg: Config, s: State, es: seq<Event>, call: nat)
    requires EmptyHanded(s, call) && CanRun(cfg, s, es)
    ensures EmptyHanded(Run(cfg, s, es), call)
    decreases |es|
  {
    hide Next, Enabled, EmptyHanded;
    if es == [] {
    } else {
      EmptyHandedStep(cfg, s, es[0], call);
      StaysEmptyHanded(cfg, Next(cfg, s, es[0]), es[1..], call);
    }
  }

  /** Nor does one whose solve was cut short, or threw. */
  lemma NoSolveNoSubmission(cfg: Config, before: seq<Event>, s: State, e: Event, es: seq<Event>)
    requires Reachable(cfg, before, s) && Enabled(s, e) && (e.CutShort? || e.Throw?)
    requires CanRun(cfg, Next(cfg, s, e), es)
    ensures SolutionsOf(Run(cfg, Next(cfg, s, e), es).log, |s.starts|) == []
  {
    hide Run, CanRun, SolutionsOf, NonceBytes, WellFormed;
    RunsStayBehind(cfg, Init(cfg), before);
    NoneOfThatCall(s.log, |s.starts|);
    StaysEmptyHanded(cfg, Next(cfg, s, e), es, |s.starts|);
  }

  lemma SubmittedNothingYet(cfg: Config, before: seq<Event>, s: State)
    requires Reachable(cfg, before, s) && s.pc.Solved?
    ensures SolutionsOf(s.log, |s.starts|) == []
  {
    RunsStayBehind(cfg, Init(cfg), before);
    NoneOfThatCall(s.log, |s.starts|);
  }

  // ---- the held job is mined on ----------------------------------------------------------------------

  predicate NoPostOrStop(es: seq<Event>) { forall i :: 0 <= i < |es| ==> !es[i].Post? && !es[i].Stop? }

  /** The worker is on post k, with nothing newer to turn to. */
  predicate Mining(s: State, k: nat, entry: Entry)
  {
    s.pc.Holds() && s.pc.serial == k && s.pc.entry == entry && !s.hasJob && !s.stop
  }

  lemma MiningStep(cfg: Config, s: State, e: Event, k: nat, entry: Entry)
    requires Mining(s, k, entry) && Enabled(s, e) && !e.Post? && !e.Stop?
    ensures Mining(Next(cfg, s, e), k, entry)
    // A call done and its backoff over, the next thing is another call; a failure backs off first.
    ensures e.LoopCheck? ==> Next(cfg, s, e).pc == if s.pc.failed then Backoff(k, entry) else Top(k, entry)
    ensures e.Wake? || e.PauseTick? ==> Next(cfg, s, e).pc == Top(k, entry)
  {
    hide NonceBytes, WellFormed;
  }

  /** Without a post or a stop the worker never lets go of its job, and every call is for it. */
  lemma {:induction false} KeepsMining(cfg: Config, s: State, es: seq<Event>, k: nat, entry: Entry)
    requires Mining(s, k, entry) && NoPostOrStop(es) && CanRun(cfg, s, es)
    ensures var t := Run(cfg, s, es);
      && Mining(t, k, entry)
      && |t.starts| == |s.starts| + Begins(es)
      && s.starts <= t.starts && forall i :: |s.starts| <= i < |t.starts| ==> t.starts[i].serial == k
    decreases |es|
  {
    hide Next, Enabled, Mining;
    if es == [] {
    } else {
      MiningStep(cfg, s, es[0], k, entry);
      StartStep(cfg, s, es[0], k, entry);
      assert forall i :: 0 <= i < |es[1..]| ==> es[1..][i] == es[i + 1];
      KeepsMining(cfg, Next(cfg, s, es[0]), es[1..], k, entry);
    }
  }

  lemma StartStep(cfg: Config, s: State, e: Event, k: nat, entry: Entry)
    requires Mining(s, k, entry) && Enabled(s, e)
    ensures var n := Next(cfg, s, e);
      && s.starts <= n.starts && |n.starts| == |s.starts| + (if e.Begin? then 1 else 0)
      && (e.Begin? ==> n.starts[|s.starts|].serial == k)
  {
    hide NonceBytes, WellFormed;
  }

  /** A waking worker takes up the newest post, mines it if it can be mined, and waits on if not. */
  lemma TakesTheNewest(cfg: Config, s: State)
    requires Inv(cfg, s) && Enabled(s, Take)
    ensures var n, last := Next(cfg, s, Take), |s.posts| - 1;
      && !n.hasJob && last >= 0
      && n.pc == if WellFormed(s.posts[last].job) then Top(last, s.posts[last]) else Waiting
  {
    hide WellFormed, WalkCounter, NonceBytes;
  }

  /** With news or a stop, every locked test sends the worker back to the mailbox. */
  lemma NewsIsSeen(cfg: Config, s: State, e: Event)
    requires (s.hasJob || s.stop) && Enabled(s, e) && (e.LoopCheck? || e.Wake? || e.PauseTick?)
    ensures Next(cfg, s, e).pc == Waiting && Next(cfg, s, e).hasJob == s.hasJob
  {
  }

  // ---- the failure count ---------------------------------------------------------------------------------

  function Throws(es: seq<Event>): nat
    decreases |es|
  {
    if es == [] then 0 else (if es[0].Throw? then 1 else 0) + Throws(es[1..])
  }

  /** Some call of the run returned. */
  ghost predicate Returned(cfg: Config, s: State, es: seq<Event>)
    requires CanRun(cfg, s, es)
    decreases |es|
  {
    es != [] && (Returns(cfg, s, es[0]) || Returned(cfg, Next(cfg, s, es[0]), es[1..]))
  }

  /** process_job returns: superseded, or with its candidates dealt with. */
  predicate Returns(cfg: Config, s: State, e: Event)
    requires Enabled(s, e)
  {
    e.Leave? || (e.Check? && s.hasJob && s.latest.job.id != s.pc.entry.job.id)
  }

  /** solver_failures_ is the number of throws since a call last returned. */
  lemma {:induction false} FailuresCountTheStreak(cfg: Config, s: State, es: seq<Event>)
    requires CanRun(cfg, s, es) && !Returned(cfg, s, es)
    ensures Run(cfg, s, es).failures == s.failures + Throws(es)
    decreases |es|
  {
    hide Next, Enabled, Returns;
    if es == [] {
    } else {
      FailureStep(cfg, s, es[0]);
      FailuresCountTheStreak(cfg, Next(cfg, s, es[0]), es[1..]);
    }
  }

  lemma FailureStep(cfg: Config, s: State, e: Event)
    requires Enabled(s, e)
    ensures Next(cfg, s, e).failures == if Returns(cfg, s, e) then 0 else s.failures + if e.Throw? then 1 else 0
  {
    hide NonceBytes, WellFormed;
  }

  /**
    The wait before a retry doubles with each failure of the streak, up to 30 times the base.
   */
  method RetryDelay(base: nat, failures: nat) returns (d: nat)
    ensures failures <= 1 ==> d == base
    ensures 2 <= failures <= 5 ==> d == Pow2(failures - 1) * base
    ensures failures >= 6 ==> d == 30 * base
  {
    d := base;
    var i := 1;
    while i < failures && i < 6
      invariant 1 <= i <= 6 && (i <= failures || i == 1)
      invariant d == Pow2(i - 1) * base
      decreases 6 - i
    {
      Assoc(2, Pow2(i - 1), base);
      d := 2 * d;
      i := i + 1;
    }
    UpTo32();
    var cap := 30 * base;
    if d > cap {
      d := cap;
    }
  }

  lemma UpTo32()
    ensures Pow2(0) == 1 && Pow2(1) == 2 && Pow2(2) == 4 && Pow2(3) == 8 && Pow2(4) == 16 && Pow2(5) == 32
  {
    assert Pow2(2) == 4;
    assert Pow2(4) == 16;
  }
}
