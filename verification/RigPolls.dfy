/** Runs of watchdog polls over a rig whose device list may change (src/miner/watchdog.cpp). */
module WatchdogRuns {
  import opened Watchdog

  /** One poll: a count per listed device, and which of them are paused. */
  datatype Poll = Poll(counts: seq<nat>, now: int, active: bool, paused: seq<bool>)

  predicate AreWhole(ps: seq<Poll>) { forall k :: 0 <= k < |ps| ==> |ps[k].paused| == |ps[k].counts| }

  function Sees(p: Poll, i: nat): Obs
    requires i < |p.counts| == |p.paused|
  {
    Obs(p.counts[i], p.now, !p.active || p.paused[i])
  }

  /** The device states after a run. */
  function Devs(stall: int, ps: seq<Poll>): seq<DevState>
    requires AreWhole(ps)
    decreases |ps|
  {
    if ps == [] then []
    else
      var before, p := Devs(stall, ps[..|ps| - 1]), ps[|ps| - 1];
      seq(|p.counts|, i requires 0 <= i < |p.counts| => Step(stall, Before(before, i), Sees(p, i)).0)
  }

  /** What the last poll of a run reports. */
  function ReportedLast(stall: int, ps: seq<Poll>): seq<nat>
    requires AreWhole(ps) && ps != []
  {
    var p := ps[|ps| - 1];
    Reported(stall, Devs(stall, ps[..|ps| - 1]), p.counts, p.now, p.active, p.paused, |p.counts|)
  }

  /** The on_hung calls of a run. */
  function Log(stall: int, ps: seq<Poll>): seq<nat>
    requires AreWhole(ps)
    decreases |ps|
  {
    if ps == [] then [] else Log(stall, ps[..|ps| - 1]) + ReportedLast(stall, ps)
  }

  /** One more poll of a monitor that has seen the run ps. */
  method PollOnce(m: Monitor, ghost ps: seq<Poll>, p: Poll)
    requires AreWhole(ps) && |p.paused| == |p.counts| && m.devs == Devs(m.stall, ps)
    modifies m
    ensures AreWhole(ps + [p])
    ensures m.devs == Devs(m.stall, ps + [p])
    ensures m.reports == old(m.reports) + ReportedLast(m.stall, ps + [p])
  {
    hide Step, Reported;
    m.Poll(p.counts, p.now, p.active, p.paused);
    assert (ps + [p])[..|ps|] == ps;
    DevsStep(m.stall, ps, p);
  }

  lemma DevsStep(stall: int, ps: seq<Poll>, p: Poll)
    requires AreWhole(ps) && |p.paused| == |p.counts|
    ensures AreWhole(ps + [p]) && |Devs(stall, ps + [p])| == |p.counts|
    ensures forall i :: 0 <= i < |p.counts| ==> Devs(stall, ps + [p])[i] == Step(stall, Before(Devs(stall, ps), i), Sees(p, i)).0
    ensures Log(stall, ps + [p]) == Log(stall, ps) + ReportedLast(stall, ps + [p])
  {
    hide Step, Reported;
    assert (ps + [p])[..|ps|] == ps;
  }

  method PollAll(m: Monitor, ps: seq<Poll>)
    requires m.devs == [] && AreWhole(ps)
    modifies m
    ensures m.devs == Devs(m.stall, ps) && m.reports == old(m.reports) + Log(m.stall, ps)
  {
    hide Devs, ReportedLast;
    NoPolls(m.stall);
    for k := 0 to |ps|
      invariant m.devs == Devs(m.stall, ps[..k]) && m.reports == old(m.reports) + Log(m.stall, ps[..k])
    {
      assert ps[..k + 1] == ps[..k] + [ps[k]];
      DevsStep(m.stall, ps[..k], ps[k]);
      PollOnce(m, ps[..k], ps[k]);
    }
    assert ps[..|ps|] == ps;
  }

  lemma NoPolls(stall: int)
    ensures Devs(stall, []) == [] && Log(stall, []) == []
  {
  }

  /** What the polls saw of device i since it was last missing from the list. */
  function Listed(ps: seq<Poll>, i: nat): seq<Obs>
    requires AreWhole(ps)
    decreases |ps|
  {
    if ps == [] || i >= |ps[|ps| - 1].counts| then []
    else Listed(ps[..|ps| - 1], i) + [Sees(ps[|ps| - 1], i)]
  }

  lemma {:induction false} AfterPrefix(stall: int, os: seq<Obs>, o: Obs, n: nat)
    requires n <= |os|
    ensures After(stall, os + [o], n) == After(stall, os, n)
  {
    if n == 0 {
    } else {
      AfterPrefix(stall, os, o, n - 1);
    }
  }

  /** Whatever joins or leaves the list, a device's state is that of its own polls since it last joined. */
  lemma {:induction false} StateOfDevice(stall: int, ps: seq<Poll>, i: nat)
    requires AreWhole(ps)
    ensures Before(Devs(stall, ps), i) == After(stall, Listed(ps, i), |Listed(ps, i)|)
    decreases |ps|
  {
    if ps == [] {
    } else {
      var pre, p := ps[..|ps| - 1], ps[|ps| - 1];
      StateOfDevice(stall, pre, i);
      if i < |p.counts| {
        AfterPrefix(stall, Listed(pre, i), Sees(p, i), |Listed(pre, i)|);
      }
    }
  }

  lemma {:induction false} ReportedMembers(stall: int, devs: seq<DevState>, p: Poll, n: nat)
    requires n <= |p.counts| == |p.paused|
    ensures var r := Reported(stall, devs, p.counts, p.now, p.active, p.paused, n);
      && (forall i: nat :: i in r <==> i < n && Step(stall, Before(devs, i), Sees(p, i)).1)
      && (forall j, k :: 0 <= j < k < |r| ==> r[j] < r[k])
  {
    if n == 0 {
    } else {
      ReportedMembers(stall, devs, p, n - 1);
      var before := Reported(stall, devs, p.counts, p.now, p.active, p.paused, n - 1);
      assert forall j :: 0 <= j < |before| ==> before[j] in before;
    }
  }

  predicate ClockRuns(ps: seq<Poll>) { forall j, k :: 0 <= j <= k < |ps| ==> ps[j].now <= ps[k].now }

  lemma {:induction false} ListedIsMonotone(ps: seq<Poll>, i: nat)
    requires AreWhole(ps) && ClockRuns(ps)
    ensures Monotone(Listed(ps, i))
    ensures forall j :: 0 <= j < |Listed(ps, i)| ==> Listed(ps, i)[j].now <= ps[|ps| - 1].now
    decreases |ps|
  {
    if ps == [] {
    } else {
      var pre := ps[..|ps| - 1];
      ListedIsMonotone(pre, i);
      assert pre != [] ==> pre[|pre| - 1].now <= ps[|ps| - 1].now;
    }
  }

  /**
    The log of any run of polls, devices joining and leaving: a poll reports exactly the listed
    devices that are, at that poll, stalled for the first time in the episode, judged by the
    polls since they last joined; each at most once.
   */
  lemma LogIsExact(stall: int, ps: seq<Poll>, i: nat)
    requires AreWhole(ps) && ps != [] && ClockRuns(ps)
    ensures Log(stall, ps) == Log(stall, ps[..|ps| - 1]) + ReportedLast(stall, ps)
    ensures var os, r := Listed(ps, i), ReportedLast(stall, ps);
      && (i in r <==> os != [] && StalledAt(stall, os, |os| - 1) && FirstOfEpisode(stall, os, |os| - 1))
      && (forall j, k :: 0 <= j < k < |r| ==> r[j] != r[k])
  {
    hide StalledAt, FirstOfEpisode;
    var pre, p := ps[..|ps| - 1], ps[|ps| - 1];
    var os := Listed(ps, i);
    ReportedMembers(stall, Devs(stall, pre), p, |p.counts|);
    StateOfDevice(stall, pre, i);
    ListedIsMonotone(ps, i);
    if i < |p.counts| {
      AfterPrefix(stall, Listed(pre, i), Sees(p, i), |Listed(pre, i)|);
      ReportedExactlyWhenFirstStalled(stall, os, |os| - 1);
    }
  }
}

/** Runs of thermal polls (src/miner/thermal.cpp) under one configuration. */
module ThermalRuns {
  import opened Options
  import opened Thermal

  /** Every poll reads every configured device, or fails to. */
  predicate AreReadings(limits: seq<Limits>, rs: seq<seq<Option<nat>>>) { forall k :: 0 <= k < |rs| ==> |rs[k]| == |limits| }

  function ReadingsOf(limits: seq<Limits>, rs: seq<seq<Option<nat>>>, i: nat): seq<Option<nat>>
    requires AreReadings(limits, rs) && i < |limits|
    decreases |rs|
  {
    if rs == [] then [] else ReadingsOf(limits, rs[..|rs| - 1], i) + [rs[|rs| - 1][i]]
  }

  function Flags(limits: seq<Limits>, rs: seq<seq<Option<nat>>>): (fs: seq<bool>)
    requires AreReadings(limits, rs)
    ensures |fs| == |limits|
    decreases |rs|
  {
    if rs == [] then seq(|limits|, _ => false)
    else
      var before, r := Flags(limits, rs[..|rs| - 1]), rs[|rs| - 1];
      seq(|limits|, i requires 0 <= i < |limits| => NowPaused(limits[i], before[i], r[i]))
  }

  /** The callbacks of a run. */
  function Log(limits: seq<Limits>, rs: seq<seq<Option<nat>>>): seq<Callback>
    requires AreReadings(limits, rs)
    decreases |rs|
  {
    if rs == [] then []
    else
      var pre := rs[..|rs| - 1];
      Log(limits, pre) + Calls(limits, Flags(limits, pre), rs[|rs| - 1], |limits|)
  }

  /** One more poll of a guard that has seen the run rs. */
  method PollOnce(g: Guard, limits: seq<Limits>, ghost rs: seq<seq<Option<nat>>>, r: seq<Option<nat>>)
    requires AreReadings(limits, rs) && |r| == |limits|
    requires g.Valid() && g.limits == limits && g.paused == Flags(limits, rs)
    modifies g
    ensures AreReadings(limits, rs + [r])
    ensures g.Valid() && g.limits == limits && g.paused == Flags(limits, rs + [r])
    ensures g.calls == old(g.calls) + Calls(limits, Flags(limits, rs), r, |limits|)
  {
    hide NowPaused, Calls;
    g.Poll(r);
    assert (rs + [r])[..|rs|] == rs;
  }

  method PollAll(g: Guard, limits: seq<Limits>, rs: seq<seq<Option<nat>>>)
    requires AreReadings(limits, rs)
    modifies g
    ensures g.Valid() && g.limits == limits
    ensures g.paused == Flags(limits, rs) && g.calls == old(g.calls) + Log(limits, rs)
  {
    hide Calls;
    g.Configure(limits);
    for k := 0 to |rs|
      invariant g.Valid() && g.limits == limits
      invariant g.paused == Flags(limits, rs[..k]) && g.calls == old(g.calls) + Log(limits, rs[..k])
    {
      assert rs[..k + 1] == rs[..k] + [rs[k]];
      LogStep(limits, rs[..k], rs[k]);
      PollOnce(g, limits, rs[..k], rs[k]);
    }
    assert rs[..|rs|] == rs;
  }

  lemma LogStep(limits: seq<Limits>, rs: seq<seq<Option<nat>>>, r: seq<Option<nat>>)
    requires AreReadings(limits, rs) && |r| == |limits|
    ensures AreReadings(limits, rs + [r])
    ensures Log(limits, rs + [r]) == Log(limits, rs) + Calls(limits, Flags(limits, rs), r, |limits|)
  {
    hide Calls;
    assert (rs + [r])[..|rs|] == rs;
  }

  /** A flag depends on its own device's readings only. */
  lemma {:induction false} FlagOfDevice(limits: seq<Limits>, rs: seq<seq<Option<nat>>>, i: nat)
    requires AreReadings(limits, rs) && i < |limits|
    ensures Flags(limits, rs)[i] == After(limits[i], ReadingsOf(limits, rs, i))
    decreases |rs|
  {
    if rs == [] {
    } else {
      FlagOfDevice(limits, rs[..|rs| - 1], i);
      var os := ReadingsOf(limits, rs, i);
      assert os[..|os| - 1] == ReadingsOf(limits, rs[..|rs| - 1], i);
    }
  }

  /** The callbacks of one device, pause as true and resume as false. */
  function CallsOf(log: seq<Callback>, i: nat): seq<bool>
    decreases |log|
  {
    if log == [] then []
    else
      var before, c := CallsOf(log[..|log| - 1], i), log[|log| - 1];
      if c.device == i then before + [c.Paused?] else before
  }

  lemma {:induction false} CallsOfAppend(a: seq<Callback>, b: seq<Callback>, i: nat)
    ensures CallsOf(a + b, i) == CallsOf(a, i) + CallsOf(b, i)
    decreases |b|
  {
    if b == [] {
      assert a + b == a;
    } else {
      assert (a + b)[..|a + b| - 1] == a + b[..|b| - 1];
      CallsOfAppend(a, b[..|b| - 1], i);
    }
  }

  /** One poll calls back once for a device whose flag moved, and not otherwise. */
  lemma {:induction false} CallsOfPoll(limits: seq<Limits>, was: seq<bool>, r: seq<Option<nat>>, n: nat, i: nat)
    requires n <= |limits| == |was| == |r| && i < |limits|
    ensures CallsOf(Calls(limits, was, r, n), i)
         == if i < n && NowPaused(limits[i], was[i], r[i]) != was[i] then [!was[i]] else []
  {
    if n == 0 {
    } else {
      CallsOfPoll(limits, was, r, n - 1, i);
      var c := Calls(limits, was, r, n);
      assert c != [] ==> c[..|c| - 1] + [c[|c| - 1]] == c;
      if c != Calls(limits, was, r, n - 1) {
        assert c[..|c| - 1] == Calls(limits, was, r, n - 1);
      }
    }
  }

  /** Over any run a device's callbacks are exactly the switches of its flag: they alternate, pause first. */
  lemma {:induction false} LogIsExact(limits: seq<Limits>, rs: seq<seq<Option<nat>>>, i: nat)
    requires AreReadings(limits, rs) && i < |limits|
    ensures CallsOf(Log(limits, rs), i) == Switches(limits[i], ReadingsOf(limits, rs, i))
    ensures forall k :: 0 <= k < |CallsOf(Log(limits, rs), i)| ==> (CallsOf(Log(limits, rs), i)[k] <==> k % 2 == 0)
    decreases |rs|
  {
    hide NowPaused, After, Calls;
    CallbacksAlternate(limits[i], ReadingsOf(limits, rs, i));
    if rs == [] {
    } else {
      var pre := rs[..|rs| - 1];
      LogIsExact(limits, pre, i);
      CallsOfAppend(Log(limits, pre), Calls(limits, Flags(limits, pre), rs[|rs| - 1], |limits|), i);
      CallsOfPoll(limits, Flags(limits, pre), rs[|rs| - 1], |limits|, i);
      FlagOfDevice(limits, pre, i);
      FlagOfDevice(limits, rs, i);
      var os := ReadingsOf(limits, rs, i);
      assert os[..|os| - 1] == ReadingsOf(limits, pre, i);
    }
  }
}

/** Both pollers on one rig: the watchdog asks the thermal guard which devices are paused. */
module ThermalWatch {
  import opened Options
  import opened Watchdog
  import opened WatchdogRuns
  import opened Thermal
  import opened ThermalRuns

  datatype Event =
    | Temps(readings: seq<Option<nat>>)                  // Thermal::poll
    | Watch(counts: seq<nat>, now: int, active: bool)    // Watchdog::poll

  predicate IsRig(limits: seq<Limits>, es: seq<Event>)
  {
    forall k :: 0 <= k < |es| && es[k].Temps? ==> |es[k].readings| == |limits|
  }

  /** The temperature polls of an interleaving. */
  function TempsOf(limits: seq<Limits>, es: seq<Event>): (rs: seq<seq<Option<nat>>>)
    requires IsRig(limits, es)
    ensures AreReadings(limits, rs)
    decreases |es|
  {
    if es == [] then []
    else
      var before, e := TempsOf(limits, es[..|es| - 1]), es[|es| - 1];
      if e.Temps? then before + [e.readings] else before
  }

  /** Thermal::paused for each listed device; one without limits is not paused. */
  function PausedNow(limits: seq<Limits>, rs: seq<seq<Option<nat>>>, n: nat): (p: seq<bool>)
    requires AreReadings(limits, rs)
    ensures |p| == n
  {
    seq(n, i requires 0 <= i < n => i < |limits| && Flags(limits, rs)[i])
  }

  /** The watchdog's polls of an interleaving, with what the guard answered at each. */
  function PollsOf(limits: seq<Limits>, es: seq<Event>): (ps: seq<Poll>)
    requires IsRig(limits, es)
    ensures AreWhole(ps)
    decreases |es|
  {
    if es == [] then []
    else
      var pre, e := es[..|es| - 1], es[|es| - 1];
      if e.Temps? then PollsOf(limits, pre)
      else PollsOf(limits, pre) + [Poll(e.counts, e.now, e.active, PausedNow(limits, TempsOf(limits, pre), |e.counts|))]
  }

  method RunRig(g: Guard, m: Monitor, limits: seq<Limits>, es: seq<Event>)
    requires IsRig(limits, es) && m.devs == []
    modifies g, m
    ensures m.devs == Devs(m.stall, PollsOf(limits, es))
    ensures m.reports == old(m.reports) + WatchdogRuns.Log(m.stall, PollsOf(limits, es))
    ensures g.paused == Flags(limits, TempsOf(limits, es))
    ensures g.calls == old(g.calls) + ThermalRuns.Log(limits, TempsOf(limits, es))
  {
    hide Devs, Flags, Calls, ReportedLast, WatchdogRuns.Log, ThermalRuns.Log, PausedNow;
    g.Configure(limits);
    NoPolls(m.stall);
    NothingRead(limits);
    assert es[..0] == [];
    for k := 0 to |es|
      invariant g.Valid() && g.limits == limits
      invariant m.devs == Devs(m.stall, PollsOf(limits, es[..k]))
      invariant m.reports == old(m.reports) + WatchdogRuns.Log(m.stall, PollsOf(limits, es[..k]))
      invariant g.paused == Flags(limits, TempsOf(limits, es[..k]))
      invariant g.calls == old(g.calls) + ThermalRuns.Log(limits, TempsOf(limits, es[..k]))
    {
      ghost var rs, ps := TempsOf(limits, es[..k]), PollsOf(limits, es[..k]);
      assert es[..k + 1][..k] == es[..k];
      match es[k]
      case Temps(readings) =>
        LogStep(limits, rs, readings);
        ThermalRuns.PollOnce(g, limits, rs, readings);
      case Watch(counts, now, active) =>
        var paused := AskGuard(g, limits, rs, |counts|);
        DevsStep(m.stall, ps, Poll(counts, now, active, paused));
        WatchdogRuns.PollOnce(m, ps, Poll(counts, now, active, paused));
    }
    assert es[..|es|] == es;
  }

  /** device_paused for each listed device. */
  method AskGuard(g: Guard, limits: seq<Limits>, ghost rs: seq<seq<Option<nat>>>, n: nat) returns (paused: seq<bool>)
    requires AreReadings(limits, rs) && g.Valid() && g.limits == limits && g.paused == Flags(limits, rs)
    ensures paused == PausedNow(limits, rs, n)
  {
    hide Flags;
    paused := [];
    for i := 0 to n
      invariant |paused| == i && forall j :: 0 <= j < i ==> paused[j] == PausedNow(limits, rs, n)[j]
    {
      var b := g.IsPaused(i);
      paused := paused + [b];
    }
  }

  lemma NothingRead(limits: seq<Limits>)
    ensures Flags(limits, []) == seq(|limits|, _ => false) && ThermalRuns.Log(limits, []) == []
  {
  }

  /**
    For every interleaving of the two pollers: a device whose last decisive reading before a
    watchdog poll was hot is not reported by that poll.
   */
  lemma HotDeviceIsNeverReported(limits: seq<Limits>, stall: int, es: seq<Event>, i: nat)
    requires IsRig(limits, es) && es != [] && es[|es| - 1].Watch?
    requires i < |limits| && (limits[i].stop == 0 || limits[i].start < limits[i].stop)
    requires LastDecisiveIsHot(limits[i], ReadingsOf(limits, TempsOf(limits, es), i))
    ensures PollsOf(limits, es) != [] && i !in ReportedLast(stall, PollsOf(limits, es))
  {
    hide LastDecisiveIsHot;
    var pre, e := es[..|es| - 1], es[|es| - 1];
    var ps, rs := PollsOf(limits, es), TempsOf(limits, pre);
    var p := ps[|ps| - 1];
    PausedIsLastDecisive(limits[i], ReadingsOf(limits, rs, i));
    FlagOfDevice(limits, rs, i);
    ReportedMembers(stall, Devs(stall, ps[..|ps| - 1]), p, |p.counts|);
  }
}
