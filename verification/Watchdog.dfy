/** Hang detection (src/miner/watchdog.cpp, Watchdog::poll). Times are in any fixed unit. */
module Watchdog {
  datatype DevState = DevState(lastCount: nat, lastProgress: int, seen: bool, hung: bool)

  function Unseen(): DevState { DevState(0, 0, false, false) }

  /** What one poll sees of one device; idle when the rig is not mining or the device is paused. */
  datatype Obs = Obs(count: nat, now: int, idle: bool)

  /** One poll of one device: its new state, and whether it is reported. */
  function Step(stall: int, d: DevState, o: Obs): (DevState, bool)
  {
    if !d.seen then (DevState(o.count, o.now, true, d.hung), false)
    else if o.count != d.lastCount then (DevState(o.count, o.now, true, false), false)
    else if o.idle then (d.(lastProgress := o.now), false)
    else if !d.hung && o.now - d.lastProgress >= stall then (d.(hung := true), true)
    else (d, false)
  }

  class Monitor {
    const stall: int
    var devs: seq<DevState>
    var reports: seq<nat>      // the on_hung calls

    constructor (stall: int)
      ensures this.stall == stall && devs == [] && reports == []
    {
      this.stall, devs, reports := stall, [], [];
    }

    /** counts() one per device, `active` for mining(), and device_paused per device. */
    method Poll(counts: seq<nat>, now: int, active: bool, paused: seq<bool>)
      requires |paused| == |counts|
      modifies this
      ensures |devs| == |counts|
      ensures forall i :: 0 <= i < |counts| ==>
        devs[i] == Step(stall, Before(old(devs), i), Obs(counts[i], now, !active || paused[i])).0
      ensures reports == old(reports) + Reported(stall, old(devs), counts, now, active, paused, |counts|)
    {
      if |devs| != |counts| {
        Resize(|counts|);
      }
      ghost var start := devs;
      ghost var from := reports;
      for i := 0 to |counts|
        invariant |devs| == |counts|
        invariant forall j :: i <= j < |counts| ==> devs[j] == Before(old(devs), j)
        invariant forall j :: 0 <= j < i ==>
          devs[j] == Step(stall, Before(old(devs), j), Obs(counts[j], now, !active || paused[j])).0
        invariant reports == from + Reported(stall, old(devs), counts, now, active, paused, i)
      {
        var d := devs[i];
        if !d.seen {
          devs := devs[i := d.(seen := true, lastCount := counts[i], lastProgress := now)];
          continue;
        }
        if counts[i] != d.lastCount {
          d := d.(lastCount := counts[i], lastProgress := now);
          if d.hung { d := d.(hung := false); }
          devs := devs[i := d];
          continue;
        }
        if !active || paused[i] {
          devs := devs[i := d.(lastProgress := now)];
          continue;
        }
        if !d.hung && now - d.lastProgress >= stall {
          devs := devs[i := d.(hung := true)];
          reports := reports + [i];
        }
      }
    }

    method Resize(n: nat)
      modifies `devs
      ensures |devs| == n && forall i :: 0 <= i < n ==> devs[i] == Before(old(devs), i)
    {
      if n <= |devs| {
        devs := devs[..n];
      } else {
        devs := devs + seq(n - |devs|, _ => Unseen());
      }
    }
  }

  /** A device the last poll did not list starts unseen. */
  function Before(devs: seq<DevState>, i: nat): DevState { if i < |devs| then devs[i] else Unseen() }

  function Reported(stall: int, devs: seq<DevState>, counts: seq<nat>, now: int, active: bool, paused: seq<bool>, n: nat): seq<nat>
    requires n <= |counts| == |paused|
  {
    if n == 0 then []
    else
      var before := Reported(stall, devs, counts, now, active, paused, n - 1);
      if Step(stall, Before(devs, n - 1), Obs(counts[n - 1], now, !active || paused[n - 1])).1 then before + [n - 1]
      else before
  }

  // ---- one device over all its polls ----------------------------------------------------------------

  /** The state after the first n polls of a device. */
  function After(stall: int, os: seq<Obs>, n: nat): DevState
    requires n <= |os|
  {
    if n == 0 then Unseen() else Step(stall, After(stall, os, n - 1), os[n - 1]).0
  }

  predicate ReportedAt(stall: int, os: seq<Obs>, k: nat)
    requires k < |os|
  {
    Step(stall, After(stall, os, k), os[k]).1
  }

  predicate Monotone(os: seq<Obs>) { forall i, j :: 0 <= i <= j < |os| ==> os[i].now <= os[j].now }

  /** Polls m to k belong to one episode: the count stands still. */
  predicate Stands(os: seq<Obs>, m: nat, k: nat)
    requires m <= k < |os|
  {
    forall j :: m <= j <= k ==> os[j].count == os[k].count
  }

  /** Work was expected at every poll after m, up to k. */
  predicate Busy(os: seq<Obs>, m: nat, k: nat)
    requires m <= k < |os|
  {
    forall j :: m < j <= k ==> !os[j].idle
  }

  /** A whole stall is behind poll k: it stood still since poll m, with work expected, for that long. */
  ghost predicate StalledSince(stall: int, os: seq<Obs>, m: nat, k: nat)
    requires m < k < |os|
  {
    Stands(os, m, k) && Busy(os, m, k) && os[k].now - os[m].now >= stall
  }

  ghost predicate StalledAt(stall: int, os: seq<Obs>, k: nat)
    requires k < |os|
  {
    exists m :: 0 <= m < k && StalledSince(stall, os, m, k)
  }

  /** No earlier poll of the episode was already stalled. */
  ghost predicate FirstOfEpisode(stall: int, os: seq<Obs>, k: nat)
    requires k < |os|
  {
    forall j :: 0 <= j < k && Stands(os, j, k) ==> !StalledAt(stall, os, j)
  }

  /** Where the stall clock started: the last poll that showed progress or idleness. */
  ghost predicate ClockStart(os: seq<Obs>, n: nat, m: nat)
    requires m < n <= |os|
  {
    && Stands(os, m, n - 1) && Busy(os, m, n - 1)
    && (m == 0 || os[m].count != os[m - 1].count || os[m].idle)
  }

  /** The state after n polls says: the newest count, when its clock started, whether its episode was reported. */
  lemma {:induction false} StateMeans(stall: int, os: seq<Obs>, n: nat) returns (m: nat)
    requires 0 < n <= |os| && Monotone(os)
    ensures m < n && ClockStart(os, n, m)
    ensures var d := After(stall, os, n);
      && d.seen && d.lastCount == os[n - 1].count && d.lastProgress == os[m].now
      && (d.hung <==> exists j :: 0 <= j < n && Stands(os, j, n - 1) && StalledAt(stall, os, j))
    ensures ReportedAt(stall, os, n - 1) <==> StalledAt(stall, os, n - 1) && FirstOfEpisode(stall, os, n - 1)
    decreases n
  {
    hide StalledAt;
    var k := n - 1;
    if k == 0 {
      m := 0;
      FirstPollIsQuiet(stall, os);
    } else {
      var before := StateMeans(stall, os, k);
      var d := After(stall, os, k);
      assert os[k].count == os[k - 1].count ==> (forall j :: 0 <= j <= k - 1 ==> (Stands(os, j, k) <==> Stands(os, j, k - 1)));
      assert os[k].count != os[k - 1].count ==> (forall j :: 0 <= j <= k - 1 ==> !Stands(os, j, k));
      if os[k].count != d.lastCount {
        m := k;
        NewCountIsQuiet(stall, os, k);
      } else if os[k].idle {
        m := k;
        IdleIsQuiet(stall, os, k);
      } else {
        m := before;
        StallIsFromClockStart(stall, os, k, m);
      }
      assert Stands(os, k, k);
    }
  }

  lemma FirstPollIsQuiet(stall: int, os: seq<Obs>)
    requires os != []
    ensures !StalledAt(stall, os, 0)
  {
  }

  lemma NewCountIsQuiet(stall: int, os: seq<Obs>, k: nat)
    requires 0 < k < |os| && os[k].count != os[k - 1].count
    ensures !StalledAt(stall, os, k)
  {
    forall m | 0 <= m < k ensures !StalledSince(stall, os, m, k) {
      assert os[k - 1].count != os[k].count;
    }
  }

  lemma IdleIsQuiet(stall: int, os: seq<Obs>, k: nat)
    requires k < |os| && os[k].idle
    ensures !StalledAt(stall, os, k)
  {
  }

  /** The longest candidate stretch is the one the clock measures. */
  lemma StallIsFromClockStart(stall: int, os: seq<Obs>, k: nat, m: nat)
    requires m < k < |os| && Monotone(os) && ClockStart(os, k, m)
    requires os[k].count == os[k - 1].count && !os[k].idle
    ensures ClockStart(os, k + 1, m)
    ensures StalledAt(stall, os, k) <==> os[k].now - os[m].now >= stall
  {
    assert Stands(os, m, k) && Busy(os, m, k);
    if os[k].now - os[m].now >= stall {
      assert StalledSince(stall, os, m, k);
    }
    if StalledAt(stall, os, k) {
      var j :| 0 <= j < k && StalledSince(stall, os, j, k);
      assert m <= j;
      assert os[m].now <= os[j].now;
    }
  }

  /**
    A device is reported exactly once per episode: at the first poll of the episode by which its
    count has stood still, with mining active and the device not paused, over polls spanning at
    least the stall time.
   */
  lemma ReportedExactlyWhenFirstStalled(stall: int, os: seq<Obs>, k: nat)
    requires k < |os| && Monotone(os)
    ensures ReportedAt(stall, os, k) <==> StalledAt(stall, os, k) && FirstOfEpisode(stall, os, k)
  {
    var _ := StateMeans(stall, os, k + 1);
  }

  /** So no episode is reported twice, and an idle or paused device never is. */
  lemma ReportsOncePerEpisode(stall: int, os: seq<Obs>, j: nat, k: nat)
    requires j < k < |os| && Monotone(os) && ReportedAt(stall, os, j) && ReportedAt(stall, os, k)
    ensures !Stands(os, j, k) && !os[j].idle && !os[k].idle
  {
    hide ReportedAt;
    ReportedExactlyWhenFirstStalled(stall, os, j);
    ReportedExactlyWhenFirstStalled(stall, os, k);
  }
}
