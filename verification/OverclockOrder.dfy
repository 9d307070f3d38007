/** What reaches the card, and in which order (src/gpu/overclock.cpp; the order is promised in overclock.h). */
module OverclockOrder {
  import opened OcList
  import opened Overclock

  // ---- the band ------------------------------------------------------------------------------------

  /** A known band: the driver's limits, in order, fitting the 32-bit parameter. */
  predicate Band(lo: int, hi: int) { lo <= hi && (lo != 0 || hi != 0) && -0x8000_0000 <= lo && hi < 0x8000_0000 }

  predicate Sent(before: Side, after: Side, k: Knob)
  {
    |after.log| == |before.log| + 1 && after.log[|before.log|].knob == k
  }

  /**
    A requested limit or offset reaches the driver as the nearest value of the band the driver
    reports: unchanged inside it, the violated end outside.
   */
  lemma WritesAreInTheBand(drv: Driver, d: nat, s: Side, spec: string)
    ensures var c, v := drv.caps(d), Wanted(spec, d, false);
      v.Some? && c.power && Band(c.powerMin, c.powerMax) ==>
        exists w: nat :: Sent(s, ApplyPower(drv, d, s, spec), SetPower(w)) && Clipped(w, v.value, c.powerMin, c.powerMax)
    ensures var c, v := drv.caps(d), Wanted(spec, d, true);
      v.Some? && c.core && Band(c.coreMin, c.coreMax) ==>
        exists w: int :: Sent(s, ApplyCore(drv, d, s, spec), SetCore(w)) && Clipped(w, v.value, c.coreMin, c.coreMax)
    ensures var c, v := drv.caps(d), Wanted(spec, d, true);
      v.Some? && c.mem && Band(c.memMin, c.memMax) ==>
        exists w: int :: Sent(s, ApplyMem(drv, d, s, spec), SetMem(w)) && Clipped(w, v.value, c.memMin, c.memMax)
  {
    hide Wanted, ApplyPower, ApplyCore, ApplyMem, Sent, ClampTo;
    var c := drv.caps(d);
    var p, q := Wanted(spec, d, false), Wanted(spec, d, true);
    if p.Some? && c.power && Band(c.powerMin, c.powerMax) {
      Clamped(p.value, c.powerMin, c.powerMax);
      PowerSent(drv, d, s, spec);
    }
    if q.Some? && c.core && Band(c.coreMin, c.coreMax) {
      Clamped(q.value, c.coreMin, c.coreMax);
      CoreSent(drv, d, s, spec);
    }
    if q.Some? && c.mem && Band(c.memMin, c.memMax) {
      Clamped(q.value, c.memMin, c.memMax);
      MemSent(drv, d, s, spec);
    }
  }

  lemma Clamped(v: int, lo: int, hi: int)
    requires Band(lo, hi)
    ensures Clipped(ClampTo(v, lo, hi), v, lo, hi)
    ensures Signed(ClampTo(v, lo, hi)) == ClampTo(v, lo, hi)
    ensures lo >= 0 ==> Unsigned(ClampTo(v, lo, hi)) == ClampTo(v, lo, hi)
  {
  }

  lemma PowerSent(drv: Driver, d: nat, s: Side, spec: string)
    requires Wanted(spec, d, false).Some? && drv.caps(d).power
    ensures Sent(s, ApplyPower(drv, d, s, spec), SetPower(Unsigned(ClampTo(Wanted(spec, d, false).value, drv.caps(d).powerMin, drv.caps(d).powerMax))))
  {
    hide Wanted, ClampTo, Unsigned, Effect;
  }

  lemma CoreSent(drv: Driver, d: nat, s: Side, spec: string)
    requires Wanted(spec, d, true).Some? && drv.caps(d).core
    ensures Sent(s, ApplyCore(drv, d, s, spec), SetCore(Signed(ClampTo(Wanted(spec, d, true).value, drv.caps(d).coreMin, drv.caps(d).coreMax))))
  {
    hide Wanted, ClampTo, Signed, Effect;
  }

  lemma MemSent(drv: Driver, d: nat, s: Side, spec: string)
    requires Wanted(spec, d, true).Some? && drv.caps(d).mem
    ensures Sent(s, ApplyMem(drv, d, s, spec), SetMem(Signed(ClampTo(Wanted(spec, d, true).value, drv.caps(d).memMin, drv.caps(d).memMax))))
  {
    hide Wanted, ClampTo, Signed, Effect;
  }

  /** x is in the band, and equal to v when v is, at the end v overshoots otherwise. */
  predicate Clipped(x: int, v: int, lo: int, hi: int)
  {
    lo <= x <= hi && (lo <= v <= hi ==> x == v) && (v < lo ==> x == lo) && (v > hi ==> x == hi)
  }

  // ---- the order -------------------------------------------------------------------------------------

  /** Power limit, core offset, memory offset, core lock, memory lock, fan. */
  function Rank(k: Knob): nat
  {
    match k
    case SetPower(_) => 0
    case SetCore(_) => 1
    case SetMem(_) => 2
    case LockCore(_) => 3
    case UnlockCore => 3
    case LockMem(_) => 4
    case UnlockMem => 4
    case SetFan(_, _) => 5
    case ResetFan(_) => 5
  }

  /** The new writes are all of rank r. */
  predicate AllOfRank(before: seq<Write>, after: seq<Write>, r: nat)
  {
    before <= after && forall i :: |before| <= i < |after| ==> Rank(after[i].knob) == r
  }

  /** The new writes ascend in rank and reach no further than r. */
  predicate Ascends(before: seq<Write>, after: seq<Write>, r: int)
  {
    && before <= after
    && (forall i :: |before| <= i < |after| ==> Rank(after[i].knob) <= r)
    && (forall i, j :: |before| <= i < j < |after| ==> Rank(after[i].knob) <= Rank(after[j].knob))
  }

  /** The new writes descend in rank and reach no further down than r. */
  predicate Descends(before: seq<Write>, after: seq<Write>, r: int)
  {
    && before <= after
    && (forall i :: |before| <= i < |after| ==> r <= Rank(after[i].knob))
    && (forall i, j :: |before| <= i < j < |after| ==> Rank(after[j].knob) <= Rank(after[i].knob))
  }

  lemma AscendOn(a: seq<Write>, b: seq<Write>, c: seq<Write>, r: nat)
    requires Ascends(a, b, r - 1) && AllOfRank(b, c, r)
    ensures Ascends(a, c, r)
  {
    assert forall i :: |a| <= i < |b| ==> c[i] == b[i];
  }

  lemma DescendOn(a: seq<Write>, b: seq<Write>, c: seq<Write>, r: nat)
    requires Descends(a, b, r + 1) && AllOfRank(b, c, r)
    ensures Descends(a, c, r)
  {
    assert forall i :: |a| <= i < |b| ==> c[i] == b[i];
  }

  lemma KnobRanks(drv: Driver, d: nat, s: Side, spec: string)
    ensures AllOfRank(s.log, ApplyPower(drv, d, s, spec).log, 0)
    ensures AllOfRank(s.log, ApplyCore(drv, d, s, spec).log, 1)
    ensures AllOfRank(s.log, ApplyMem(drv, d, s, spec).log, 2)
    ensures AllOfRank(s.log, ApplyCoreLock(drv, d, s, spec).log, 3)
    ensures AllOfRank(s.log, ApplyMemLock(drv, d, s, spec).log, 4)
  {
    hide Wanted, ClampTo, Unsigned, Signed, AtMost, AllOfRank, Effect;
    forall r: nat ensures AllOfRank(s.log, s.log, r) { NoneOfRank(s.log, r); }
    forall k: Knob ensures AllOfRank(s.log, Do(drv, d, s, k).log, Rank(k)) { OneOfRank(drv, d, s, k); }
  }

  lemma NoneOfRank(log: seq<Write>, r: nat)
    ensures AllOfRank(log, log, r)
  {
  }

  lemma OneOfRank(drv: Driver, d: nat, s: Side, k: Knob)
    ensures AllOfRank(s.log, Do(drv, d, s, k).log, Rank(k))
  {
  }

  lemma {:induction false} SetFanRanks(drv: Driver, d: nat, s: Side, i: nat, pct: nat)
    requires i <= |s.card.fans|
    ensures AllOfRank(s.log, SetFans(drv, d, s, i, pct).0.log, 5)
    decreases |s.card.fans| - i
  {
    if i < |s.card.fans| && Landed(Do(drv, d, s, SetFan(i, pct))) {
      SetFanRanks(drv, d, Do(drv, d, s, SetFan(i, pct)), i + 1, pct);
    }
  }

  lemma {:induction false} ResetFanRanks(drv: Driver, d: nat, s: Side, i: nat, n: nat)
    requires i <= n
    ensures AllOfRank(s.log, ResetFans(drv, d, s, i, n).log, 5)
    decreases n - i
  {
    if i < n {
      ResetFanRanks(drv, d, Do(drv, d, s, ResetFan(i)), i + 1, n);
    }
  }

  lemma FanRanks(drv: Driver, d: nat, s: Side, spec: string)
    ensures AllOfRank(s.log, ApplyFan(drv, d, s, spec).log, 5)
  {
    hide Wanted, Unsigned, FanTarget, SetFans, AllOfRank;
    NoneOfRank(s.log, 5);
    var v := Wanted(spec, d, true);
    if v.Some? {
      SetFanRanks(drv, d, s, 0, Unsigned(FanTarget(v.value, drv.caps(d))));
    }
  }

  /** Every apply shapes the curve before anything is pinned onto it, and sets the fan last. */
  lemma AppliesInOrder(drv: Driver, d: nat, s: Side, req: Request)
    ensures Ascends(s.log, Apply(drv, d, s, req).log, 5)
  {
    hide ApplyPower, ApplyCore, ApplyMem, ApplyCoreLock, ApplyMemLock, ApplyFan, Ascends, AllOfRank;
    NothingAscends(s.log);
    if d < MAX_DEVICES {
      var s1 := ApplyPower(drv, d, s, req.pl);
      var s2 := ApplyCore(drv, d, s1, req.coff);
      var s3 := ApplyMem(drv, d, s2, req.moff);
      var s4 := ApplyCoreLock(drv, d, s3, req.cclk);
      var s5 := ApplyMemLock(drv, d, s4, req.mclk);
      KnobRanks(drv, d, s, req.pl);
      AscendOn(s.log, s.log, s1.log, 0);
      KnobRanks(drv, d, s1, req.coff);
      AscendOn(s.log, s1.log, s2.log, 1);
      KnobRanks(drv, d, s2, req.moff);
      AscendOn(s.log, s2.log, s3.log, 2);
      KnobRanks(drv, d, s3, req.cclk);
      AscendOn(s.log, s3.log, s4.log, 3);
      KnobRanks(drv, d, s4, req.mclk);
      AscendOn(s.log, s4.log, s5.log, 4);
      FanRanks(drv, d, s5, req.fan);
      AscendOn(s.log, s5.log, ApplyFan(drv, d, s5, req.fan).log, 5);
    }
  }

  lemma NothingAscends(log: seq<Write>)
    ensures Ascends(log, log, -1) && Ascends(log, log, 5) && Descends(log, log, 6)
  {
  }

  lemma DoIfRank(drv: Driver, d: nat, s: Side, flag: bool, k: Knob)
    ensures AllOfRank(s.log, DoIf(drv, d, s, flag, k).log, Rank(k))
  {
    hide AllOfRank;
    NoneOfRank(s.log, Rank(k));
    OneOfRank(drv, d, s, k);
  }

  /** Every restore writes in the reverse order: fan first, power limit last. */
  lemma RestoresInReverse(drv: Driver, d: nat, s: Side)
    ensures Descends(s.log, Restore(drv, d, s).log, 0)
  {
    hide ResetFans, DoIf, Descends, AllOfRank;
    var m := s.marks;
    NothingAscends(s.log);
    NoneOfRank(s.log, 5);
    var s0 := s.(marks := Swept(m));
    ResetFanRanks(drv, d, s0, 0, m.fanCount);
    var s1 := if m.fanSet then ResetFans(drv, d, s0, 0, m.fanCount) else s0;
    DescendOn(s.log, s.log, s1.log, 5);
    var s2 := DoIf(drv, d, s1, m.memLocked, UnlockMem);
    DoIfRank(drv, d, s1, m.memLocked, UnlockMem);
    DescendOn(s.log, s1.log, s2.log, 4);
    var s3 := DoIf(drv, d, s2, m.coreLocked, UnlockCore);
    DoIfRank(drv, d, s2, m.coreLocked, UnlockCore);
    DescendOn(s.log, s2.log, s3.log, 3);
    var s4 := DoIf(drv, d, s3, m.memSet, SetMem(m.prevMem));
    DoIfRank(drv, d, s3, m.memSet, SetMem(m.prevMem));
    DescendOn(s.log, s3.log, s4.log, 2);
    var s5 := DoIf(drv, d, s4, m.coreSet, SetCore(m.prevCore));
    DoIfRank(drv, d, s4, m.coreSet, SetCore(m.prevCore));
    DescendOn(s.log, s4.log, s5.log, 1);
    DoIfRank(drv, d, s5, m.prevPower != 0, SetPower(m.prevPower));
    DescendOn(s.log, s5.log, Restore(drv, d, s).log, 0);
  }
}
