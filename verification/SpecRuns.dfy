/**
  Runs of GpuSolver::solve: speculation changes no result, and when it hits.
 */
module SpecRuns {
  import opened Numbers
  import opened Pipeline
  import opened GpuSolver

  // ---- invisible -------------------------------------------------------------------------

  /** The search is the same search whether or not a spec set exists. */
  lemma {:induction false} RoundViewIgnoresSpec(k: Kernels, cfg: Config, pp: PrePow, r: nat)
    requires cfg.Valid() && r <= 4
    ensures cfg.(specOn := false).Valid()
    ensures RoundView(k, cfg, pp, r) == RoundView(k, cfg.(specOn := false), pp, r)
  {
    if r == 0 {
    } else {
      RoundViewIgnoresSpec(k, cfg, pp, r - 1);
    }
  }

  lemma ExpectedIgnoresSpec(k: Kernels, cfg: Config, c: Call)
    requires cfg.Valid() && c.Valid(cfg)
    ensures cfg.(specOn := false).Valid() && c.Valid(cfg.(specOn := false))
    ensures Expected(k, cfg, c) == Expected(k, cfg.(specOn := false), c)
  {
    hide RoundView, FateOf;
    var pp := k.prepow(c.input, c.nonce);
    RoundViewIgnoresSpec(k, cfg, pp, 0);
    RoundViewIgnoresSpec(k, cfg, pp, 1);
    RoundViewIgnoresSpec(k, cfg, pp, 2);
    RoundViewIgnoresSpec(k, cfg, pp, 3);
    RoundViewIgnoresSpec(k, cfg, pp, 4);
  }

  function RunHost(cfg: Config, h: Host, calls: seq<Call>): Host
    requires forall i :: 0 <= i < |calls| ==> |calls[i].aborts| == 4
  {
    if calls == [] then h else NextHost(cfg, RunHost(cfg, h, calls[..|calls| - 1]), calls[|calls| - 1])
  }

  /**
    Any sequence of calls -- any nonces, job changes, aborts and throws -- answered by one
    solver: every answer is the one a solver that never speculates gives to that call alone.
   */
  method SolveAll(s: Solver, calls: seq<Call>) returns (outs: seq<Outcome>)
    requires s.Inv() && forall i :: 0 <= i < |calls| ==> calls[i].Valid(s.cfg)
    modifies s
    ensures s.Inv()
    ensures |outs| == |calls|
    ensures forall i :: 0 <= i < |calls| ==> calls[i].Valid(s.cfg.(specOn := false))
    ensures forall i :: 0 <= i < |calls| ==> outs[i] == Expected(s.k, s.cfg.(specOn := false), calls[i])
    ensures forall i :: 0 <= i < |calls| ==> |calls[i].aborts| == 4
    ensures s.AsHost() == RunHost(s.cfg, old(s.AsHost()), calls)
  {
    hide Expected, NextHost;
    outs := [];
    for i := 0 to |calls|
      invariant s.Inv() && |outs| == i
      invariant forall j :: 0 <= j < i ==> calls[j].Valid(s.cfg.(specOn := false))
      invariant forall j :: 0 <= j < i ==> outs[j] == Expected(s.k, s.cfg.(specOn := false), calls[j])
      invariant s.AsHost() == RunHost(s.cfg, old(s.AsHost()), calls[..i])
    {
      var out := s.Solve(calls[i]);
      ExpectedIgnoresSpec(s.k, s.cfg, calls[i]);
      assert calls[..i + 1][..i] == calls[..i];
      outs := outs + [out];
    }
    assert calls[..|calls|] == calls;
  }

  // ---- effective --------------------------------------------------------------------------

  /** The call gets as far as round 4's launch and does not throw; aborting after round 4 is fine. */
  predicate Unhindered(c: Call)
    requires |c.aborts| == 4
  {
    Launches(c, 4) && FateOf(c) != Threw
  }

  /** Calls on one input whose nonces step by d. */
  ghost predicate Walk(calls: seq<Call>, input: seq<nat>, d: nat)
  {
    && d < TWO64
    && (forall i :: 0 <= i < |calls| ==> |calls[i].aborts| == 4 && calls[i].input == input && calls[i].nonce < TWO64)
    && (forall i :: 0 <= i < |calls| ==> Unhindered(calls[i]))
    && (forall i :: 0 <= i < |calls| - 1 ==> calls[i + 1].nonce == Add64(calls[i].nonce, d))
  }

  /** The host after call i of a run. */
  ghost function After(cfg: Config, h: Host, calls: seq<Call>, i: nat): Host
    requires i < |calls| && forall j :: 0 <= j < |calls| ==> |calls[j].aborts| == 4
  {
    RunHost(cfg, h, calls[..i + 1])
  }

  lemma AfterStep(cfg: Config, h: Host, calls: seq<Call>, i: nat)
    requires i < |calls| && forall j :: 0 <= j < |calls| ==> |calls[j].aborts| == 4
    ensures After(cfg, h, calls, i)
         == NextHost(cfg, if i == 0 then h else After(cfg, h, calls, i - 1), calls[i])
  {
    var upTo := calls[..i + 1];
    assert upTo[..|upTo| - 1] == calls[..i];
    if i == 0 {
      assert RunHost(cfg, h, calls[..0]) == h;
    } else {
      assert calls[..i - 1 + 1] == calls[..i];
    }
  }

  /** Everything a hit on (input, n + d) needs. */
  ghost predicate Ready(h: Host, input: seq<nat>, n: nat, d: nat)
  {
    && h.haveLast && h.lastInput == input && h.lastNonce == n
    && h.haveDelta && h.learnedDelta == d
    && h.specValid && h.specInput == input && h.specNonce == Add64(n, d)
  }

  lemma StrideLearned(a: nat, d: nat)
    requires a < TWO64 && d < TWO64
    ensures Sub64(Add64(a, d), a) == d
  {
  }

  lemma SameSum(n: nat, a: nat, b: nat)
    requires n < TWO64 && a < TWO64 && b < TWO64
    ensures Add64(n, a) == Add64(n, b) <==> a == b
  {
  }

  /**
    Which calls of a walk hit, from any state of the solver: the first exactly when it was
    predicted, the second exactly when the right stride is already known after the first,
    and every later one.
   */
  lemma {:induction false} HitPattern(cfg: Config, h: Host, calls: seq<Call>, input: seq<nat>, d: nat, i: nat)
    requires cfg.specOn && Walk(calls, input, d) && i < |calls| && h.learnedDelta < TWO64
    ensures var p := Predicted(cfg, h, calls[0]);
      After(cfg, h, calls, i).specHit
      <==> (if i == 0 then Hits(h, calls[0]) else i >= 2 || (p.haveDelta && p.learnedDelta == d))
    ensures i == 0 ==> After(cfg, h, calls, i) == NextHost(cfg, h, calls[0])
    ensures i >= 1 ==> Ready(After(cfg, h, calls, i), input, calls[i].nonce, d)
  {
    hide Launches, FateOf, Add64, Sub64, After;
    AfterStep(cfg, h, calls, i);
    assert Unhindered(calls[i]);
    if i == 0 {
    } else {
      HitPattern(cfg, h, calls, input, d, i - 1);
      assert Unhindered(calls[i - 1]);
      assert calls[i - 1 + 1].nonce == Add64(calls[i - 1].nonce, d);
      StrideLearned(calls[i - 1].nonce, d);
      if i == 1 {
        SecondCall(cfg, h, calls[0], calls[1], d);
      }
    }
  }

  /** The second call hits exactly when the first one already predicted with the right stride. */
  lemma SecondCall(cfg: Config, h: Host, a: Call, b: Call, d: nat)
    requires cfg.specOn && |a.aborts| == 4 && |b.aborts| == 4 && Unhindered(a)
    requires a.input == b.input && a.nonce < TWO64 && d < TWO64 && b.nonce == Add64(a.nonce, d)
    requires h.learnedDelta < TWO64
    ensures var p, h1 := Predicted(cfg, h, a), NextHost(cfg, h, a);
      Hits(h1, b) <==> p.haveDelta && p.learnedDelta == d
  {
    hide Launches, FateOf, Add64;
    var p := Predicted(cfg, h, a);
    SameSum(a.nonce, p.learnedDelta, d);
  }

  // ---- corollaries ---------------------------------------------------------------------------

  /** What every reachable host keeps: a prediction is for the last input, one stride on. */
  ghost predicate Consistent(h: Host)
  {
    && h.learnedDelta < TWO64
    && (h.specValid ==> h.haveLast && h.haveDelta && h.specInput == h.lastInput)
    && (h.specValid ==> h.specNonce == Add64(h.lastNonce, h.learnedDelta))
    && (!h.haveLast ==> !h.haveDelta)
  }

  lemma {:induction false} RunsStayConsistent(cfg: Config, h: Host, calls: seq<Call>)
    requires Consistent(h) && forall i :: 0 <= i < |calls| ==> |calls[i].aborts| == 4
    ensures Consistent(RunHost(cfg, h, calls))
    ensures calls != [] ==> RunHost(cfg, h, calls).haveLast
    ensures calls != [] ==> RunHost(cfg, h, calls).lastInput == calls[|calls| - 1].input
    decreases |calls|
  {
    hide Launches, FateOf;
    if calls == [] {
    } else {
      RunsStayConsistent(cfg, h, calls[..|calls| - 1]);
    }
  }

  /** The first job: two misses to learn the stride, then a hit on every call. */
  lemma FreshWalk(cfg: Config, calls: seq<Call>, input: seq<nat>, d: nat, i: nat)
    requires cfg.specOn && Walk(calls, input, d) && i < |calls|
    ensures After(cfg, INITIAL_HOST, calls, i).specHit <==> i >= 2
  {
    hide After;
    HitPattern(cfg, INITIAL_HOST, calls, input, d, i);
  }

  /** A new input at the known stride -- after any history whatever -- costs exactly one miss. */
  lemma NewInputCostsOneMiss(cfg: Config, h: Host, calls: seq<Call>, input: seq<nat>, d: nat, i: nat)
    requires cfg.specOn && Walk(calls, input, d) && i < |calls|
    requires Consistent(h) && h.haveDelta && h.learnedDelta == d && input != h.lastInput
    ensures After(cfg, h, calls, i).specHit <==> i >= 1
  {
    hide After;
    HitPattern(cfg, h, calls, input, d, i);
  }

  /**
    The same input under a nonce off the walk (the pool moved the prefix but not the block)
    costs two: the jump is mislearned as the stride, and learned back one call later.
   */
  lemma SameInputJumpCostsTwoMisses(cfg: Config, h: Host, calls: seq<Call>, input: seq<nat>, d: nat, i: nat)
    requires cfg.specOn && Walk(calls, input, d) && i < |calls|
    requires Consistent(h) && h.haveLast && h.learnedDelta == d && input == h.lastInput && h.lastNonce < TWO64
    requires calls[0].nonce != Add64(h.lastNonce, d)
    ensures After(cfg, h, calls, i).specHit <==> i >= 2
  {
    hide After;
    HitPattern(cfg, h, calls, input, d, i);
    if Sub64(calls[0].nonce, h.lastNonce) == d {
      SubThenAdd(calls[0].nonce, h.lastNonce);
    }
  }

  lemma SubThenAdd(a: nat, b: nat)
    requires a < TWO64 && b < TWO64
    ensures Add64(b, Sub64(a, b)) == a
  {
  }

  /** Two calls of one job teach the stride, hindered or not. */
  lemma TwoCallsTeachTheStride(cfg: Config, h: Host, a: Call, b: Call, d: nat)
    requires |a.aborts| == 4 && |b.aborts| == 4 && a.input == b.input
    requires a.nonce < TWO64 && d < TWO64 && b.nonce == Add64(a.nonce, d)
    ensures var h2 := NextHost(cfg, NextHost(cfg, h, a), b); h2.haveDelta && h2.learnedDelta == d
  {
    hide Launches, FateOf;
    StrideLearned(a.nonce, d);
  }
}

/**
  The engine's nonce walk drives the solver's prediction (engine.cpp's build_nonce with
  gpu_solver.cpp's learned stride).
 */
module SpeculationEffective {
  import opened Numbers
  import opened Pipeline
  import opened GpuSolver
  import opened SpecRuns
  import NonceLanes

  /** The counter `stride` further on each call, wrapping at 64 bits. */
  function CounterAt(counter: nat, stride: nat, i: nat): (c: nat)
  {
    if i == 0 then counter else (CounterAt(counter, stride, i - 1) + stride) % TWO64
  }

  /** Uninterrupted calls of one engine on one job: one input, one prefix, successive counters. */
  ghost predicate EngineWalk(calls: seq<Call>, input: seq<nat>, prefix: string, counter: nat, stride: nat)
  {
    forall i :: 0 <= i < |calls| ==>
      && |calls[i].aborts| == 4 && calls[i].input == input && Unhindered(calls[i])
      && calls[i].nonce == NonceLanes.NonceLE(prefix, CounterAt(counter, stride, i))
  }

  /** It is a walk with the constant stride · 256^ceil(|prefix|/2) mod 2^64. */
  lemma EngineWalkIsWalk(calls: seq<Call>, input: seq<nat>, prefix: string, counter: nat, stride: nat)
    requires EngineWalk(calls, input, prefix, counter, stride)
    ensures Walk(calls, input, NonceLanes.NonceStride(prefix, stride))
  {
    hide NonceLanes.NonceLE, NonceLanes.NonceStride, Launches, FateOf;
    forall i | 0 <= i < |calls|
      ensures calls[i].nonce < TWO64
      ensures i < |calls| - 1 ==> calls[i + 1].nonce == Add64(calls[i].nonce, NonceLanes.NonceStride(prefix, stride))
    {
      NonceLanes.NonceSteps(prefix, CounterAt(counter, stride, i), stride);
    }
    StrideFits(prefix, stride);
  }

  lemma StrideFits(prefix: string, stride: nat)
    ensures NonceLanes.NonceStride(prefix, stride) < TWO64
  {
  }

  /** The miner's first job: every solve from the third on is a hit. */
  lemma FirstJob(cfg: Config, calls: seq<Call>, input: seq<nat>, prefix: string, counter: nat, stride: nat, i: nat)
    requires cfg.specOn && EngineWalk(calls, input, prefix, counter, stride) && i < |calls|
    ensures After(cfg, INITIAL_HOST, calls, i).specHit <==> i >= 2
  {
    hide After, EngineWalk, NonceLanes.NonceStride;
    EngineWalkIsWalk(calls, input, prefix, counter, stride);
    FreshWalk(cfg, calls, input, NonceLanes.NonceStride(prefix, stride), i);
  }

  /**
    A later job on another input under a prefix of the same length: exactly one miss,
    however the job before it ended.
   */
  lemma LaterJob(cfg: Config, history: seq<Call>, calls: seq<Call>, input: seq<nat>,
                 oldPrefix: string, prefix: string, counter: nat, stride: nat, i: nat)
    requires cfg.specOn && EngineWalk(calls, input, prefix, counter, stride) && i < |calls|
    requires |oldPrefix| == |prefix| && |history| >= 2
    requires forall j :: 0 <= j < |history| ==> |history[j].aborts| == 4
    // The two last calls of the old job, hindered or not, were one step of its walk apart.
    requires var a, b := history[|history| - 2], history[|history| - 1];
      && a.input == b.input != input && a.nonce < TWO64
      && b.nonce == Add64(a.nonce, NonceLanes.NonceStride(oldPrefix, stride))
    ensures After(cfg, RunHost(cfg, INITIAL_HOST, history), calls, i).specHit <==> i >= 1
  {
    hide After, EngineWalk, NonceLanes.NonceStride, NextHost, Add64;
    var d, n := NonceLanes.NonceStride(prefix, stride), |history|;
    NonceLanes.StrideDependsOnLength(oldPrefix, prefix, stride);
    StrideFits(prefix, stride);
    EngineWalkIsWalk(calls, input, prefix, counter, stride);
    assert Consistent(INITIAL_HOST);
    RunsStayConsistent(cfg, INITIAL_HOST, history);
    assert history[..n - 1][..n - 2] == history[..n - 2];
    var h := RunHost(cfg, INITIAL_HOST, history[..n - 2]);
    TwoCallsTeachTheStride(cfg, h, history[n - 2], history[n - 1], d);
    NewInputCostsOneMiss(cfg, RunHost(cfg, INITIAL_HOST, history), calls, input, d, i);
  }
}
