/** Thermal pause with hysteresis (src/miner/thermal.cpp, Thermal::poll). */
module Thermal {
  import opened Options

  /** Degrees; 0 for none. */
  datatype Limits = Limits(stop: nat, start: nat)

  datatype Callback = Paused(device: nat, temp: nat) | Resumed(device: nat, temp: nat)

  /** The flag after one poll of one device. */
  function NowPaused(lim: Limits, was: bool, reading: Option<nat>): bool
  {
    if (lim.stop == 0 && !was) || reading.None? then was
    else if !was && lim.stop != 0 && reading.value >= lim.stop then true
    else if was && lim.start != 0 && reading.value <= lim.start then false
    else was
  }

  /** The callbacks of the first n devices in one poll. */
  function Calls(limits: seq<Limits>, was: seq<bool>, readings: seq<Option<nat>>, n: nat): seq<Callback>
    requires n <= |limits| == |was| == |readings|
  {
    if n == 0 then []
    else
      var before, i := Calls(limits, was, readings, n - 1), n - 1;
      if NowPaused(limits[i], was[i], readings[i]) == was[i] || readings[i].None? then before
      else before + [if was[i] then Resumed(i, readings[i].value) else Paused(i, readings[i].value)]
  }

  class Guard {
    var limits: seq<Limits>
    var paused: seq<bool>
    var calls: seq<Callback>

    predicate Valid() reads this { |paused| == |limits| }

    constructor ()
      ensures Valid() && limits == [] && calls == []
    {
      limits, paused, calls := [], [], [];
    }

    method Configure(ls: seq<Limits>)
      modifies this
      ensures Valid() && limits == ls && calls == old(calls) && forall i :: 0 <= i < |paused| ==> !paused[i]
    {
      limits := ls;
      paused := seq(|ls|, _ => false);
    }

    method IsPaused(device: nat) returns (b: bool)
      ensures b <==> device < |paused| && paused[device]
    {
      b := device < |paused| && paused[device];
    }

    /** read_temp per device; None when there is no reading. */
    method Poll(readings: seq<Option<nat>>)
      requires Valid() && |readings| == |limits|
      modifies `paused, `calls
      ensures Valid()
      ensures forall i :: 0 <= i < |paused| ==> paused[i] == NowPaused(limits[i], old(paused)[i], readings[i])
      ensures calls == old(calls) + Calls(limits, old(paused), readings, |limits|)
    {
      for i := 0 to |limits|
        invariant |paused| == |limits|
        invariant forall j :: 0 <= j < i ==> paused[j] == NowPaused(limits[j], old(paused)[j], readings[j])
        invariant forall j :: i <= j < |limits| ==> paused[j] == old(paused)[j]
        invariant calls == old(calls) + Calls(limits, old(paused), readings, i)
      {
        var lim, was := limits[i], paused[i];
        if lim.stop == 0 && !was { continue; }
        if readings[i].None? { continue; }
        var temp, now := readings[i].value, was;
        if !was && lim.stop != 0 && temp >= lim.stop { now := true; }
        else if was && lim.start != 0 && temp <= lim.start { now := false; }
        if now == was { continue; }
        paused := paused[i := now];
        calls := calls + [if now then Paused(i, temp) else Resumed(i, temp)];
      }
    }
  }

  // ---- one device over all its polls -------------------------------------------------------------

  function After(lim: Limits, readings: seq<Option<nat>>): bool
    decreases |readings|
  {
    if readings == [] then false
    else NowPaused(lim, After(lim, readings[..|readings| - 1]), readings[|readings| - 1])
  }

  predicate Hot(lim: Limits, r: Option<nat>) { r.Some? && lim.stop != 0 && r.value >= lim.stop }

  predicate Cool(lim: Limits, r: Option<nat>) { r.Some? && lim.start != 0 && r.value <= lim.start }

  /** The newest reading that is hot or cool was hot. */
  ghost predicate LastDecisiveIsHot(lim: Limits, rs: seq<Option<nat>>)
  {
    exists k :: 0 <= k < |rs| && Hot(lim, rs[k]) && forall j :: k < j < |rs| ==> !Cool(lim, rs[j])
  }

  /** With the restart temperature below the stop temperature, the flag is the last decisive reading. */
  lemma {:induction false} PausedIsLastDecisive(lim: Limits, rs: seq<Option<nat>>)
    requires lim.stop == 0 || lim.start < lim.stop
    ensures After(lim, rs) <==> LastDecisiveIsHot(lim, rs)
    decreases |rs|
  {
    if rs == [] {
    } else {
      var pre, r := rs[..|rs| - 1], rs[|rs| - 1];
      PausedIsLastDecisive(lim, pre);
      if LastDecisiveIsHot(lim, pre) && !Cool(lim, r) {
        var k :| 0 <= k < |pre| && Hot(lim, pre[k]) && forall j :: k < j < |pre| ==> !Cool(lim, pre[j]);
        assert Hot(lim, rs[k]) && forall j :: k < j < |rs| ==> !Cool(lim, rs[j]);
      }
      if LastDecisiveIsHot(lim, rs) && !Hot(lim, r) {
        var k :| 0 <= k < |rs| && Hot(lim, rs[k]) && forall j :: k < j < |rs| ==> !Cool(lim, rs[j]);
        assert Hot(lim, pre[k]) && forall j :: k < j < |pre| ==> !Cool(lim, pre[j]);
      }
      if Hot(lim, r) {
        assert Hot(lim, rs[|rs| - 1]);
      }
    }
  }

  /** It must be below: at or above it, a steady reading between them flips the flag on every poll. */
  lemma OverlappingLimitsFlap(lim: Limits, temp: nat, was: bool)
    requires lim.stop != 0 && lim.stop <= temp <= lim.start
    ensures NowPaused(lim, was, Some(temp)) == !was
  {
  }

  /** The flag means "the last decisive reading was hot", on every history, exactly for such limits. */
  lemma LimitsMustBeApart(lim: Limits)
    ensures (forall rs :: After(lim, rs) <==> LastDecisiveIsHot(lim, rs)) <==> lim.stop == 0 || lim.start < lim.stop
  {
    if lim.stop == 0 || lim.start < lim.stop {
      forall rs ensures After(lim, rs) <==> LastDecisiveIsHot(lim, rs) {
        PausedIsLastDecisive(lim, rs);
      }
    } else {
      var r := Some(lim.stop);
      var rs := [r, r];
      assert rs[..|rs| - 1] == [r] && [r][..|[r]| - 1] == [];
      OverlappingLimitsFlap(lim, lim.stop, false);
      OverlappingLimitsFlap(lim, lim.stop, true);
      assert !After(lim, []) && After(lim, [r]);
      assert !After(lim, rs);
      assert Hot(lim, rs[1]);
      assert LastDecisiveIsHot(lim, rs);
    }
  }

  /** What the callbacks of one device say, pause as true and resume as false. */
  function Switches(lim: Limits, rs: seq<Option<nat>>): seq<bool>
    decreases |rs|
  {
    if rs == [] then []
    else
      var pre := rs[..|rs| - 1];
      if After(lim, rs) == After(lim, pre) then Switches(lim, pre) else Switches(lim, pre) + [After(lim, rs)]
  }

  /** Pauses and resumes alternate, starting with a pause, and end in the flag's state. */
  lemma {:induction false} CallbacksAlternate(lim: Limits, rs: seq<Option<nat>>)
    ensures var s := Switches(lim, rs);
      && (forall i :: 0 <= i < |s| ==> (s[i] <==> i % 2 == 0))
      && (After(lim, rs) <==> |s| % 2 == 1)
    decreases |rs|
  {
    if rs == [] {
    } else {
      CallbacksAlternate(lim, rs[..|rs| - 1]);
    }
  }
}
