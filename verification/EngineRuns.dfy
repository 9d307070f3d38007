/**
  What the mining engine keeps over whole runs (src/miner/engine.cpp), for every
  interleaving of posts, aborts, stops, throws and pauses.
 */
module EngineRuns {
  import opened Origins
  import opened Numbers
  import opened NonceLanes
  import opened Engine

  ghost predicate Reachable(cfg: Config, es: seq<Event>, s: State)
  {
    CanRun(cfg, Init(cfg), es) && Run(cfg, Init(cfg), es) == s
  }

  lemma ReachableInv(cfg: Config, es: seq<Event>, s: State)
    requires Reachable(cfg, es, s)
    ensures Inv(cfg, s)
  {
    InitInv(cfg);
    RunInv(cfg, Init(cfg), es);
  }

  // ---- one entry per submission -----------------------------------------------------------------

  /**
    Every submission of every run carries the id, the origin and the prefix nibbles of one
    single post, and its nonce is that of the call's own place on this engine's lane.
   */
  lemma SubmissionsComeFromOnePost(cfg: Config, es: seq<Event>, s: State, i: nat)
    requires Reachable(cfg, es, s) && i < |s.log|
    ensures exists k :: 0 <= k < |s.posts| && SubmittedFor(cfg, s.posts[k], s.log[i])
  {
    hide WalkCounter, NonceBytes;
    ReachableInv(cfg, es, s);
    var x := s.log[i];
    assert FromOnePost(cfg, s.posts, s.starts, x);
    assert StartOk(cfg, s.posts, s.starts[x.call - 1], x.call - 1);
    var entry := s.posts[x.serial];
    forall n | 0 <= n < |entry.prefix| && n < 16 ensures CarriesNibble(entry.prefix, x.nonce, n) {
      NonceKeepsPrefix(entry.prefix, WalkCounter(cfg, x.call - 1), n);
    }
    assert SubmittedFor(cfg, s.posts[x.serial], x);
  }

  ghost predicate SubmittedFor(cfg: Config, entry: Entry, x: Submission)
  {
    && x.id == entry.job.id && x.origin == entry.origin
    && cfg.clears(x.solution, entry.job.difficulty)
    && 0 < x.call && x.nonce == NonceBytes(entry.prefix, WalkCounter(cfg, x.call - 1))
    && forall n :: 0 <= n < |entry.prefix| && n < 16 ==> CarriesNibble(entry.prefix, x.nonce, n)
  }

  /** Nibble n of the nonce is digit n of the prefix. */
  predicate CarriesNibble(prefix: string, nonce: seq<nat>, n: nat)
    requires n < |prefix|
  {
    |nonce| == 8 && n < 16
    && HexVal(prefix[n]) == if n % 2 == 0 then nonce[n / 2] / 16 else nonce[n / 2] % 16
  }

  // ---- after a stop -----------------------------------------------------------------------------

  /** The worker may still submit without another locked test. */
  predicate MaySubmit(s: State) { s.pc.Top? || s.pc.Solving? || s.pc.Solved? || s.pc.Submitting? }

  /** The call those submissions would belong to: the one in flight, or the one about to begin. */
  function CallNumber(s: State): nat { |s.starts| + if s.pc.Top? then 1 else 0 }

  /** A step logs nothing, or one submission of the call in flight. */
  lemma LogStep(cfg: Config, s: State, e: Event)
    requires Enabled(s, e)
    ensures var n := Next(cfg, s, e);
      && (n.log == s.log
          || (s.pc.Submitting? && |n.log| == |s.log| + 1 && s.log <= n.log
              && n.log[|s.log|].call == |s.starts| && n.log[|s.log|].serial == s.pc.serial))
  {
    hide NonceBytes, WellFormed;
  }

  lemma StopStep(cfg: Config, s: State, e: Event)
    requires s.stop && Enabled(s, e)
    ensures var n := Next(cfg, s, e);
      && n.stop && |s.starts| <= |n.starts|
      && |n.starts| + (if n.pc.Top? then 1 else 0) <= |s.starts| + (if s.pc.Top? then 1 else 0)
      && (MaySubmit(n) ==> MaySubmit(s) && CallNumber(n) == CallNumber(s))
  {
    hide NonceBytes, WellFormed;
  }

  /**
    Once stop is set, at most the call in flight completes: no call begins (but the one the
    worker had already decided on when it stood between its test and process_job), and every
    later submission belongs to that one call.
   */
  lemma {:induction false} AfterStop(cfg: Config, s: State, es: seq<Event>)
    requires s.stop && CanRun(cfg, s, es)
    ensures var t := Run(cfg, s, es);
      && t.stop && s.log <= t.log
      && |s.starts| <= |t.starts| <= |s.starts| + (if s.pc.Top? then 1 else 0)
      && (MaySubmit(t) ==> MaySubmit(s) && CallNumber(t) == CallNumber(s))
      && (|s.log| < |t.log| ==> MaySubmit(s))
      && forall i :: |s.log| <= i < |t.log| ==> t.log[i].call == CallNumber(s)
    decreases |es|
  {
    hide Next, Enabled;
    if es == [] {
    } else {
      var n := Next(cfg, s, es[0]);
      LogStep(cfg, s, es[0]);
      StopStep(cfg, s, es[0]);
      AfterStop(cfg, n, es[1..]);
    }
  }

  // ---- after a newer job -------------------------------------------------------------------------

  /** Nothing can take up post k again. */
  predicate Past(s: State, k: nat)
  {
    && k + 1 < |s.posts|
    && (s.pc.Holds() ==> s.pc.serial >= k && (s.pc.serial == k ==> s.hasJob))
  }

  predicate MaySubmitFor(s: State, k: nat) { MaySubmit(s) && s.pc.serial == k }

  lemma NewerStep(cfg: Config, s: State, e: Event, k: nat)
    requires Past(s, k) && Enabled(s, e)
    ensures var n := Next(cfg, s, e);
      && Past(n, k)
      && (MaySubmitFor(n, k) ==> MaySubmitFor(s, k) && CallNumber(n) == CallNumber(s))
  {
    hide NonceBytes, WellFormed;
  }

  /**
    Once any newer job is posted, at most one call can still submit for the entry the worker
    holds: the one in flight, or the one it had already decided on.
   */
  lemma {:induction false} AfterNewerJob(cfg: Config, s: State, es: seq<Event>, k: nat)
    requires Past(s, k) && CanRun(cfg, s, es)
    ensures var t := Run(cfg, s, es);
      && Past(t, k) && s.log <= t.log
      && (MaySubmitFor(t, k) ==> MaySubmitFor(s, k) && CallNumber(t) == CallNumber(s))
      && forall i :: |s.log| <= i < |t.log| && t.log[i].serial == k ==>
           MaySubmitFor(s, k) && t.log[i].call == CallNumber(s)
    decreases |es|
  {
    hide Next, Enabled, Past;
    if es == [] {
    } else {
      LogStep(cfg, s, es[0]);
      NewerStep(cfg, s, es[0], k);
      AfterNewerJob(cfg, Next(cfg, s, es[0]), es[1..], k);
    }
  }

  /** No post of the run brings job `id` back. */
  predicate NoRepost(es: seq<Event>, id: string)
  {
    forall i :: 0 <= i < |es| && es[i].Post? ==> es[i].entry.job.id != id
  }

  /** The worker has not yet looked, and what it will find is another job. */
  predicate WillBeDropped(s: State, k: nat, id: string)
  {
    && Past(s, k)
    && (s.posts != [] && s.latest.job.id != id)
    && (s.pc.Holds() && s.pc.serial == k ==> s.pc.entry.job.id == id && !s.pc.Submitting?)
  }

  lemma DroppedStep(cfg: Config, s: State, e: Event, k: nat, id: string)
    requires WillBeDropped(s, k, id) && Enabled(s, e) && (e.Post? ==> e.entry.job.id != id)
    ensures WillBeDropped(Next(cfg, s, e), k, id)
  {
    hide NonceBytes, WellFormed;
  }

  /**
    Past that: unless the pool posts the same id again, a call whose staleness check comes after
    the post of a different job submits nothing at all, whether it began before or after.
   */
  lemma {:induction false} SupersededSubmitsNothing(cfg: Config, s: State, es: seq<Event>, k: nat, id: string)
    requires WillBeDropped(s, k, id) && NoRepost(es, id) && CanRun(cfg, s, es)
    ensures var t := Run(cfg, s, es);
      && s.log <= t.log
      && forall i :: |s.log| <= i < |t.log| ==> t.log[i].serial != k
    decreases |es|
  {
    hide Next, Enabled;
    if es == [] {
    } else {
      LogStep(cfg, s, es[0]);
      DroppedStep(cfg, s, es[0], k, id);
      assert forall i :: 0 <= i < |es[1..]| ==> es[1..][i] == es[i + 1];
      SupersededSubmitsNothing(cfg, Next(cfg, s, es[0]), es[1..], k, id);
    }
  }

  // ---- what the exceptions hang on ------------------------------------------------------------------

  /** Any newer post puts the held one in the past, and a different job not yet checked is dropped. */
  lemma NewerPostIsPast(cfg: Config, s: State, entry: Entry)
    requires Inv(cfg, s) && s.pc.Holds()
    ensures var n := Next(cfg, s, Post(entry));
      && Past(n, s.pc.serial)
      && (entry.job.id != s.pc.entry.job.id && !s.pc.Submitting? ==> WillBeDropped(n, s.pc.serial, s.pc.entry.job.id))
  {
    hide WalkCounter, NonceBytes;
  }

  /** The staleness check passes exactly when the newest post carries the id of the held one. */
  lemma CheckPassesIff(cfg: Config, s: State)
    requires Inv(cfg, s) && s.pc.Solved?
    ensures Next(cfg, s, Check).pc.Submitting? <==> s.posts[|s.posts| - 1].job.id == s.pc.entry.job.id
  {
    hide WalkCounter, NonceBytes;
  }

  /** The run submits for the held post out of a call that has not begun yet. */
  ghost predicate SubmitsLate(cfg: Config, s: State, es: seq<Event>)
    requires s.pc.Holds()
  {
    CanRun(cfg, s, es)
    && var t := Run(cfg, s, es);
       exists i :: |s.log| <= i < |t.log| && t.log[i].serial == s.pc.serial && t.log[i].call > |s.starts|
  }

  /**
    With news or a stop already there, a call that has yet to begin can still submit for the
    held post exactly when the worker stands between its locked test and process_job.
   */
  lemma LateCallSubmitsIff(cfg: Config, s: State, sol: Solution)
    requires Inv(cfg, s) && s.pc.Holds() && (s.stop || s.hasJob)
    requires cfg.clears(sol, s.pc.entry.job.difficulty)
    ensures (exists es :: SubmitsLate(cfg, s, es)) <==> s.pc.Top?
  {
    if s.pc.Top? {
      LateRun(cfg, s, sol);
    }
    if es :| SubmitsLate(cfg, s, es) {
      OnlyFromTop(cfg, s, es);
    }
  }

  lemma OnlyFromTop(cfg: Config, s: State, es: seq<Event>)
    requires Inv(cfg, s) && s.pc.Holds() && (s.stop || s.hasJob) && SubmitsLate(cfg, s, es)
    ensures s.pc.Top?
  {
    hide Next, Enabled, Run, CanRun, StartsOk, LogOk, OnlyLastLate;
    var t := Run(cfg, s, es);
    var i :| |s.log| <= i < |t.log| && t.log[i].serial == s.pc.serial && t.log[i].call > |s.starts|;
    if s.stop {
      AfterStop(cfg, s, es);
    } else {
      AfterNewerJob(cfg, s, es, s.pc.serial);
    }
    assert t.log[i].call == CallNumber(s);
  }

  /** The same id posted again before the check lets the late call through. */
  lemma LateRun(cfg: Config, s: State, sol: Solution)
    requires Inv(cfg, s) && s.pc.Top? && cfg.clears(sol, s.pc.entry.job.difficulty)
    ensures SubmitsLate(cfg, s, [Begin, Post(s.pc.entry), Finish([sol]), Check, SubmitNext])
  {
    hide NonceBytes, WalkCounter, Inv;
    var es := [Begin, Post(s.pc.entry), Finish([sol]), Check, SubmitNext];
    var s1 := Next(cfg, s, es[0]);
    var s2 := Next(cfg, s1, es[1]);
    var s3 := Next(cfg, s2, es[2]);
    var s4 := Next(cfg, s3, es[3]);
    var s5 := Next(cfg, s4, es[4]);
    Unfold(cfg, s4, es[4..]);
    Unfold(cfg, s3, es[3..]);
    Unfold(cfg, s2, es[2..]);
    Unfold(cfg, s1, es[1..]);
    Unfold(cfg, s, es);
    assert s5.log[|s.log|].serial == s.pc.serial && s5.log[|s.log|].call == |s.starts| + 1;
  }

  lemma Unfold(cfg: Config, s: State, es: seq<Event>)
    requires es != [] && Enabled(s, es[0]) && CanRun(cfg, Next(cfg, s, es[0]), es[1..])
    ensures CanRun(cfg, s, es) && Run(cfg, s, es) == Run(cfg, Next(cfg, s, es[0]), es[1..])
  {
  }

  function SampleJob(id: string): Job { Job(id, seq(64, _ => '0'), 0) }

  function SampleEntry(id: string): Entry { Entry(SampleJob(id), "", Main) }

  /** The worker does stand there: after this run it holds "a" with "b" already posted. */
  lemma LateCallCanSubmit(cfg: Config, sol: Solution)
    requires cfg.clears(sol, 0)
    ensures var es := [Post(SampleEntry("a")), Take, Post(SampleEntry("b"))];
      && CanRun(cfg, Init(cfg), es)
      && var s := Run(cfg, Init(cfg), es);
         s.pc == Top(0, SampleEntry("a")) && s.hasJob && s.latest == SampleEntry("b") && s.starts == []
         && exists later :: SubmitsLate(cfg, s, later)
  {
    hide NonceBytes;
    var es := [Post(SampleEntry("a")), Take, Post(SampleEntry("b"))];
    var s0 := Init(cfg);
    var s1 := Next(cfg, s0, es[0]);
    var s2 := Next(cfg, s1, es[1]);
    var s3 := Next(cfg, s2, es[2]);
    Unfold(cfg, s2, es[2..]);
    Unfold(cfg, s1, es[1..]);
    Unfold(cfg, s0, es);
    InitInv(cfg);
    RunInv(cfg, s0, es);
    LateRun(cfg, s3, sol);
  }

  /** Nor does a stop always win: it can come there too, and one more call begins and submits. */
  lemma StopDoesNotAlwaysWin(cfg: Config, sol: Solution)
    requires cfg.clears(sol, 0)
    ensures var es := [Post(SampleEntry("a")), Take, StopAbort, Stop];
      && CanRun(cfg, Init(cfg), es)
      && var s := Run(cfg, Init(cfg), es);
         s.stop && s.pc == Top(0, SampleEntry("a")) && s.starts == []
         && exists later :: SubmitsLate(cfg, s, later)
  {
    hide NonceBytes;
    var es := [Post(SampleEntry("a")), Take, StopAbort, Stop];
    var s0 := Init(cfg);
    var s1 := Next(cfg, s0, es[0]);
    var s2 := Next(cfg, s1, es[1]);
    var s3 := Next(cfg, s2, es[2]);
    var s4 := Next(cfg, s3, es[3]);
    Unfold(cfg, s3, es[3..]);
    Unfold(cfg, s2, es[2..]);
    Unfold(cfg, s1, es[1..]);
    Unfold(cfg, s0, es);
    InitInv(cfg);
    RunInv(cfg, s0, es);
    LateRun(cfg, s4, sol);
  }

  // ---- no two attempts of a rig repeat ---------------------------------------------------------------

  lemma {:induction false} WalkIsCounter(cfg: Config, t: nat)
    requires Counter(cfg.lane, cfg.Stride(), t) < TWO64
    ensures WalkCounter(cfg, t) == Counter(cfg.lane, cfg.Stride(), t)
  {
    if t == 0 {
    } else {
      Distribute(t - 1, 1, cfg.Stride());
      WalkIsCounter(cfg, t - 1);
    }
  }

  /** The calls of attempts i and j, on engines of one rig, use counters the prefix has room for. */
  ghost predicate HasRoom(cfg: Config, prefix: string, t: nat)
  {
    Counter(cfg.lane, cfg.Stride(), t) < Pow2(8 * (8 - FirstCounterByte(prefix)))
  }

  lemma RoomIsBelow64Bits(cfg: Config, prefix: string, t: nat)
    requires HasRoom(cfg, prefix, t)
    ensures Counter(cfg.lane, cfg.Stride(), t) < TWO64
  {
    hide Pow2, FirstCounterByte;
    Two64();
    Pow2Mono(8 * (8 - FirstCounterByte(prefix)), 64);
  }

  /**
    Over any two runs of any two engines of a rig (or one engine twice), across all job
    changes: two calls under one prefix try different nonces while the prefix has room,
    unless they are the same call of the same engine.
   */
  lemma NoTwoCallsRepeat(cfg: Config, es: seq<Event>, s: State, i: nat, cfg': Config, es': seq<Event>, s': State, j: nat)
    requires Reachable(cfg, es, s) && i < |s.starts| && Reachable(cfg', es', s') && j < |s'.starts|
    requires cfg.lanes == cfg'.lanes && cfg.lane < cfg.lanes && cfg'.lane < cfg.lanes
    requires s.starts[i].prefix == s'.starts[j].prefix
    requires HasRoom(cfg, s.starts[i].prefix, i) && HasRoom(cfg', s.starts[i].prefix, j)
    requires cfg.lane != cfg'.lane || i != j
    ensures s.starts[i].nonce != s'.starts[j].nonce
  {
    hide NonceBytes, Pow2, FirstCounterByte, WalkCounter;
    ReachableInv(cfg, es, s);
    ReachableInv(cfg', es', s');
    var prefix := s.starts[i].prefix;
    assert StartOk(cfg, s.posts, s.starts[i], i) && StartOk(cfg', s'.posts, s'.starts[j], j);
    RoomIsBelow64Bits(cfg, prefix, i);
    RoomIsBelow64Bits(cfg', prefix, j);
    WalkIsCounter(cfg, i);
    WalkIsCounter(cfg', j);
    NoTwoAttemptsRepeat(prefix, cfg.lanes, cfg.lane, i, cfg'.lane, j);
  }
}
