/**
  Fee accrual (src/miner/devfee.cpp, FeeAccrual): time spent mining becomes seconds owed.
  Durations are reals.
 */
module FeeAccrual {
  datatype Schedule = Schedule(rate: real, cycle: nat)

  /** llround: to the nearest integer, halves away from zero. */
  function LlRound(x: real): int { if x >= 0.0 then (x + 0.5).Floor else -((-x + 0.5).Floor) }

  /** Length of one fee round in whole seconds. */
  function Slice(sch: Schedule): int { LlRound(sch.rate * sch.cycle as real) }

  /** The slice is the rate's share of the cycle to within half a second. */
  lemma SliceIsNearest(sch: Schedule)
    ensures -0.5 <= sch.rate * sch.cycle as real - Slice(sch) as real <= 0.5
  {
  }

  datatype AccrualEvent = Mined(dt: real) | Spent(dt: real)

  function Change(rate: real, e: AccrualEvent): real
  {
    match e
    case Mined(dt) => if dt <= 0.0 then 0.0 else rate * dt
    case Spent(dt) => -dt
  }

  function Debt(rate: real, es: seq<AccrualEvent>): real
  {
    if es == [] then 0.0
    else
      var before, e := Debt(rate, es[..|es| - 1]), es[|es| - 1];
      var after := before + Change(rate, e);
      if e.Spent? && after < 0.0 then 0.0 else after
  }

  class Accrual {
    const schedule: Schedule
    var debt: real
    ghost var history: seq<AccrualEvent>

    ghost predicate Valid() reads this { debt == Debt(schedule.rate, history) }

    constructor (schedule: Schedule)
      ensures Valid() && this.schedule == schedule && history == [] && debt == 0.0
    {
      this.schedule := schedule;
      debt := 0.0;
      history := [];
    }

    method AddMiningTime(dt: real)
      requires Valid()
      modifies this
      ensures Valid() && history == old(history) + [Mined(dt)]
    {
      history := history + [Mined(dt)];
      assert history[..|history| - 1] == old(history);
      if dt <= 0.0 { return; }
      debt := debt + schedule.rate * dt;
    }

    method Settle(spent: real)
      requires Valid()
      modifies this
      ensures Valid() && history == old(history) + [Spent(spent)]
    {
      history := history + [Spent(spent)];
      assert history[..|history| - 1] == old(history);
      debt := debt - spent;
      if debt < 0.0 { debt := 0.0; }
    }

    method SliceDue() returns (due: bool)
      requires Valid()
      ensures due <==> 0 < Slice(schedule) && Slice(schedule) as real <= Debt(schedule.rate, history)
    {
      var slice := Slice(schedule);
      if slice <= 0 { return false; }
      return debt >= slice as real;
    }
  }

  /** Credited minus spent over a stretch of the history, with no floor. */
  function Balance(rate: real, es: seq<AccrualEvent>): real
  {
    if es == [] then 0.0 else Balance(rate, es[..|es| - 1]) + Change(rate, es[|es| - 1])
  }

  /**
    The debt is the largest balance of any suffix of the history, the empty one included: no
    suffix is owed more, and some suffix is owed exactly that.
   */
  lemma {:induction false} DebtIsLargestSuffixBalance(rate: real, es: seq<AccrualEvent>) returns (from: nat)
    requires 0.0 <= rate
    ensures from <= |es| && Balance(rate, es[from..]) == Debt(rate, es)
    ensures forall i :: 0 <= i <= |es| ==> Balance(rate, es[i..]) <= Debt(rate, es)
    decreases |es|
  {
    if es == [] {
      from := 0;
    } else {
      var pre, e := es[..|es| - 1], es[|es| - 1];
      from := DebtIsLargestSuffixBalance(rate, pre);
      ChangeOfCredit(rate, e);
      forall i | 0 <= i <= |pre| ensures Balance(rate, es[i..]) == Balance(rate, pre[i..]) + Change(rate, e) {
        assert es[i..][..|es[i..]| - 1] == pre[i..];
      }
      assert Balance(rate, es[|es|..]) == 0.0;
      assert Balance(rate, pre[|pre|..]) == 0.0;
      if Debt(rate, es) != Debt(rate, pre) + Change(rate, e) {
        from := |es|;
      }
    }
  }

  lemma ChangeOfCredit(rate: real, e: AccrualEvent)
    requires 0.0 <= rate
    ensures e.Mined? ==> 0.0 <= Change(rate, e)
  {
  }
}

/** The fee scheduler (scheduler_main and run_slice) in front of the job router, as steps. */
module FeeScheduler {
  import opened Origins
  import opened Engine
  import opened Routing
  import opened FeeAccrual

  datatype Pc =
    | Idle                  // waiting for the next tick
    | Due                   // a slice is due, run_slice entered
    | Starting              // the fee job was fresh
    | InRound(t0: real)

  datatype Fee = Fee(
    last: real, pc: Pc,
    history: seq<AccrualEvent>, routed: seq<RouterEvent>,   // what the accrual clock and the router saw
    credited: real, settled: real, fullRounds: nat)         // bookkeeping for the statements below
  {
    function Debt(sch: Schedule): real { FeeAccrual.Debt(sch.rate, history) }

    function Router(): Router { RouteAll(routed) }
  }

  datatype FeeEvent =
    | Pool(e: RouterEvent)                 // either connection's thread
    | Tick(now: real, attempted: bool)     // has(Main), attempted_within(30 s), add_mining_time, slice_due
    | CheckFresh(now: real)                // fresh(Dev, 120 s)
    | BeginRound(now: real)                // t0, set_active(Dev)
    | EndRound(now: real)                  // set_active(Main), settle; early when stop() cuts the wait short

  const DEV_JOB_MAX_AGE: real := 120.0

  /** A suspended host resumes with hours on the clock and mined none of them. */
  function Elapsed(last: real, now: real): real { if now - last > 2.0 then 1.0 else now - last }

  predicate Earning(f: Fee, e: FeeEvent)
    requires e.Tick?
  {
    f.Router().SlotOf(Main).present && e.attempted
  }

  predicate SliceDue(sch: Schedule, f: Fee) { 0 < Slice(sch) && Slice(sch) as real <= f.Debt(sch) }

  predicate Enabled(f: Fee, e: FeeEvent)
  {
    match e
    case Pool(r) => !r.SetActive?
    case Tick(now, _) => f.pc.Idle? && f.last <= now
    case CheckFresh(_) => f.pc.Due?
    case BeginRound(_) => f.pc.Starting?
    case EndRound(now) => f.pc.InRound? && f.pc.t0 <= now
  }

  function Credit(f: Fee, dt: real): Fee { f.(history := f.history + [Mined(dt)], credited := f.credited + dt) }

  function Settle(sch: Schedule, f: Fee, spent: real): Fee
  {
    f.(history := f.history + [Spent(spent)],
       settled := f.settled + if spent <= f.Debt(sch) then spent else f.Debt(sch),
       fullRounds := f.fullRounds + if spent >= Slice(sch) as real then 1 else 0)
  }

  function Next(sch: Schedule, f: Fee, e: FeeEvent): Fee
    requires Enabled(f, e)
  {
    match e
    case Pool(r) => f.(routed := f.routed + [r])
    case Tick(now, _) =>
      var g := f.(last := now);                            // advanced before the gates
      if !Earning(f, e) then g
      else
        var h := Credit(g, Elapsed(f.last, now));
        if SliceDue(sch, h) then h.(pc := Due) else h
    case CheckFresh(now) => f.(pc := if FreshAt(f.Router(), Dev, now, DEV_JOB_MAX_AGE) then Starting else Idle)
    case BeginRound(now) => f.(pc := InRound(now), routed := f.routed + [SetActive(Dev)])
    case EndRound(now) => Settle(sch, f, now - f.pc.t0).(pc := Idle, routed := f.routed + [SetActive(Main)])
  }

  function Start(now: real): Fee { Fee(now, Idle, [], [], 0.0, 0.0, 0) }

  ghost predicate CanRun(sch: Schedule, f: Fee, es: seq<FeeEvent>)
    decreases |es|
  {
    es == [] || (Enabled(f, es[0]) && CanRun(sch, Next(sch, f, es[0]), es[1..]))
  }

  ghost function Run(sch: Schedule, f: Fee, es: seq<FeeEvent>): Fee
    requires CanRun(sch, f, es)
    decreases |es|
  {
    if es == [] then f else Run(sch, Next(sch, f, es[0]), es[1..])
  }

  /**
    What every run keeps: not a second is lost (what is owed and what was settled make up the
    rate's share of the credited time), full rounds never exceed what was settled, credited time
    never exceeds the clock, the solvers are on the fee pool exactly during a round, and a round
    starts only when a whole slice is owed.
   */
  ghost predicate Inv(sch: Schedule, start: real, f: Fee)
  {
    && 0.0 <= f.Debt(sch) && 0.0 <= f.credited
    && f.Debt(sch) + f.settled == sch.rate * f.credited
    && (0 < Slice(sch) ==> f.fullRounds as real * Slice(sch) as real <= f.settled)
    && f.credited <= f.last - start
    && (LatestSwitch(f.routed) == if f.pc.InRound? then Dev else Main)
    && (!f.pc.Idle? ==> SliceDue(sch, f))
  }

  lemma DebtAfter(rate: real, es: seq<AccrualEvent>, e: AccrualEvent)
    ensures var after := FeeAccrual.Debt(rate, es) + Change(rate, e);
      FeeAccrual.Debt(rate, es + [e]) == if e.Spent? && after < 0.0 then 0.0 else after
  {
    assert (es + [e])[..|es|] == es;
  }

  lemma SwitchAfter(es: seq<RouterEvent>, e: RouterEvent)
    ensures LatestSwitch(es + [e]) == if e.SetActive? then e.to else LatestSwitch(es)
  {
    assert (es + [e])[..|es|] == es;
  }

  lemma Distribute(a: real, b: real, c: real)
    ensures a * (b + c) == a * b + a * c
  {
  }

  lemma NonNegative(a: real, b: real)
    requires 0.0 <= a && 0.0 <= b
    ensures 0.0 <= a * b
  {
  }

  lemma StepInv(sch: Schedule, start: real, f: Fee, e: FeeEvent)
    requires 0.0 <= sch.rate && Inv(sch, start, f) && Enabled(f, e)
    ensures Inv(sch, start, Next(sch, f, e))
  {
    hide FeeAccrual.Debt, LatestSwitch, RouteAll, Slice;
    match e
    case Pool(r) => SwitchAfter(f.routed, r);
    case Tick(now, _) =>
      var dt := Elapsed(f.last, now);
      DebtAfter(sch.rate, f.history, Mined(dt));
      Distribute(sch.rate, f.credited, dt);
      NonNegative(sch.rate, dt);
    case CheckFresh(now) =>
    case BeginRound(now) => SwitchAfter(f.routed, SetActive(Dev));
    case EndRound(now) =>
      DebtAfter(sch.rate, f.history, Spent(now - f.pc.t0));
      SwitchAfter(f.routed, SetActive(Main));
      Distribute(Slice(sch) as real, f.fullRounds as real, 1.0);
  }

  lemma {:induction false} RunInv(sch: Schedule, start: real, f: Fee, es: seq<FeeEvent>)
    requires 0.0 <= sch.rate && Inv(sch, start, f) && CanRun(sch, f, es)
    ensures Inv(sch, start, Run(sch, f, es))
    decreases |es|
  {
    hide Inv;
    if es == [] {
    } else {
      StepInv(sch, start, f, es[0]);
      RunInv(sch, start, Next(sch, f, es[0]), es[1..]);
    }
  }

  /**
    The fee is never more than the rate: after any run, completed full rounds and the debt still
    owed add up to at most the rate's share of the credited time, itself at most the time passed.
   */
  lemma NeverAboveTheRate(sch: Schedule, start: real, es: seq<FeeEvent>)
    requires 0.0 <= sch.rate && 0 < Slice(sch) && CanRun(sch, Start(start), es)
    ensures var f := Run(sch, Start(start), es);
      && f.fullRounds as real * Slice(sch) as real + f.Debt(sch) <= sch.rate * f.credited
      && sch.rate * f.credited <= sch.rate * (f.last - start)
  {
    hide FeeAccrual.Debt, Slice, CanRun, Run, RouteAll;
    StartInv(sch, start);
    RunInv(sch, start, Start(start), es);
    var f := Run(sch, Start(start), es);
    Distribute(sch.rate, f.credited, f.last - start - f.credited);
    NonNegative(sch.rate, f.last - start - f.credited);
  }

  lemma StartInv(sch: Schedule, start: real)
    ensures Inv(sch, start, Start(start))
  {
  }

  /** Time is credited only on a tick, only with a live user job, and never more than has passed (2 s at most). */
  lemma OnlyEarningTimeIsCredited(sch: Schedule, f: Fee, e: FeeEvent)
    requires 0.0 <= sch.rate && Enabled(f, e)
    ensures var g := Next(sch, f, e);
      && (!(e.Tick? && e.attempted && LatestOffer(f.routed, Main).Some?) ==> g.credited == f.credited)
      && (e.Tick? ==> f.credited <= g.credited && g.credited - f.credited <= e.now - f.last
                      && g.credited - f.credited <= 2.0)
      && (!e.EndRound? && g.credited == f.credited ==> g.Debt(sch) == f.Debt(sch))
  {
    hide FeeAccrual.Debt, RouteAll, LatestOffer, Slice;
    SlotsHoldLatestOffers(f.routed, Main);
    if e.Tick? {
      DebtAfter(sch.rate, f.history, Mined(Elapsed(f.last, e.now)));
    }
  }

  /**
    What a tick does: with a live user job and a device at work it credits exactly the time since
    the last tick, or one second when that is more than two, and owes the rate's share of it; a
    round is entered exactly when a whole slice is owed after that. Otherwise only the clock moves.
   */
  lemma TickCreditsExactly(sch: Schedule, f: Fee, now: real, attempted: bool)
    requires Enabled(f, Tick(now, attempted))
    ensures var g, earning := Next(sch, f, Tick(now, attempted)), attempted && LatestOffer(f.routed, Main).Some?;
      var dt := if now - f.last <= 2.0 then now - f.last else 1.0;
      && g.last == now && g.routed == f.routed
      && g.credited == (if earning then f.credited + dt else f.credited)
      && g.Debt(sch) == (if earning then f.Debt(sch) + sch.rate * dt else f.Debt(sch))
      && g.pc == (if earning && 0 < Slice(sch) && Slice(sch) as real <= g.Debt(sch) then Due else Idle)
  {
    hide FeeAccrual.Debt, RouteAll, LatestOffer, Slice;
    SlotsHoldLatestOffers(f.routed, Main);
    var dt := Elapsed(f.last, now);
    DebtAfter(sch.rate, f.history, Mined(dt));
    ChangeOf(sch.rate, dt);
    assert SliceDue(sch, Credit(f.(last := now), dt))
      <==> 0 < Slice(sch) && Slice(sch) as real <= Credit(f, dt).Debt(sch);
  }

  lemma ChangeOf(rate: real, dt: real)
    requires 0.0 <= dt
    ensures Change(rate, Mined(dt)) == rate * dt
  {
    assert rate * 0.0 == 0.0;
  }

  /**
    And a round, once due with a fee job no older than two minutes: over to the fee pool, back
    to the user's, and the time it took off the debt, down to nothing.
   */
  lemma RoundRuns(sch: Schedule, f: Fee, now: real, t0: real, t1: real)
    requires f.pc.Due? && t0 <= t1
    requires LatestOffer(f.routed, Dev).Some? && now - LatestOffer(f.routed, Dev).value.now <= 120.0
    ensures CanRun(sch, f, [CheckFresh(now), BeginRound(t0), EndRound(t1)])
    ensures var g := Run(sch, f, [CheckFresh(now), BeginRound(t0), EndRound(t1)]);
      && g.pc.Idle? && g.last == f.last && g.credited == f.credited
      && g.routed == f.routed + [SetActive(Dev)] + [SetActive(Main)]
      && g.Debt(sch) == if t1 - t0 <= f.Debt(sch) then f.Debt(sch) - (t1 - t0) else 0.0
  {
    hide FeeAccrual.Debt, RouteAll, LatestOffer, Slice;
    SlotsHoldLatestOffers(f.routed, Dev);
    DebtAfter(sch.rate, f.history, Spent(t1 - t0));
    var es := [CheckFresh(now), BeginRound(t0), EndRound(t1)];
    var a := Next(sch, f, es[0]);
    var b := Next(sch, a, es[1]);
    OneStep(sch, b, es[2]);
    assert es[1..] == [es[1]] + [es[2]] && es[1..][1..] == [es[2]];
    assert Run(sch, b, [es[2]]) == Next(sch, b, es[2]);
  }

  lemma OneStep(sch: Schedule, f: Fee, e: FeeEvent)
    requires Enabled(f, e)
    ensures CanRun(sch, f, [e]) && Run(sch, f, [e]) == Next(sch, f, e)
  {
  }

  /** A deferred round leaves the debt owed; a shortened one leaves owed exactly what it did not spend. */
  lemma UnspentStaysOwed(sch: Schedule, f: Fee, e: FeeEvent)
    requires Enabled(f, e) && (e.CheckFresh? || e.EndRound?)
    ensures e.CheckFresh? ==>
      Next(sch, f, e).Debt(sch) == f.Debt(sch)
      && (Next(sch, f, e).pc.Idle? <==> !(LatestOffer(f.routed, Dev).Some? && e.now - LatestOffer(f.routed, Dev).value.now <= 120.0))
    ensures e.EndRound? && e.now - f.pc.t0 <= f.Debt(sch) ==>
      Next(sch, f, e).Debt(sch) == f.Debt(sch) - (e.now - f.pc.t0)
    ensures e.EndRound? && e.now - f.pc.t0 > f.Debt(sch) ==> Next(sch, f, e).Debt(sch) == 0.0
  {
    hide FeeAccrual.Debt, RouteAll, LatestOffer;
    SlotsHoldLatestOffers(f.routed, Dev);
    if e.EndRound? {
      DebtAfter(sch.rate, f.history, Spent(e.now - f.pc.t0));
    }
  }

  /**
    Outside a round the solvers were last sent the user's newest live job, including one that
    arrived during the round; inside one, the fee pool's.
   */
  lemma RoundsAreLossless(sch: Schedule, start: real, es: seq<FeeEvent>)
    requires 0.0 <= sch.rate && CanRun(sch, Start(start), es)
    ensures var f := Run(sch, Start(start), es);
      var pool := if f.pc.InRound? then Dev else Main;
      var offer := LatestOffer(f.routed, pool);
      && f.Router().active == pool
      && (offer.Some? ==> (
            f.Router().sent != [] && f.Router().sent[|f.Router().sent| - 1] == EntryOf(offer.value)))
  {
    hide FeeAccrual.Debt, Slice, CanRun, Run, RouteAll, LatestOffer;
    StartInv(sch, start);
    RunInv(sch, start, Start(start), es);
    var f := Run(sch, Start(start), es);
    var pool := if f.pc.InRound? then Dev else Main;
    SlotsHoldLatestOffers(f.routed, pool);
    if LatestOffer(f.routed, pool).Some? {
      SolversFollowTheActivePool(f.routed);
    }
  }
}
