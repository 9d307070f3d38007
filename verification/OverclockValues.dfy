/**
  What an apply leaves on the card (src/gpu/overclock.cpp): which list reaches which knob, and
  what value it sets.
 */
module OverclockValues {
  import opened Options
  import opened OcList
  import opened Overclock

  /** x is the value of the band lo..hi nearest to v; without a band, v itself. */
  ghost predicate Nearest(x: int, v: int, lo: int, hi: int)
  {
    if lo == 0 && hi == 0 then x == v
    else lo <= x <= hi && forall y :: lo <= y <= hi ==> Distance(x, v) <= Distance(y, v)
  }

  function Distance(x: int, v: int): nat { if x < v then v - x else x - v }

  lemma ClampIsNearest(v: int, lo: int, hi: int)
    requires lo <= hi
    ensures Nearest(ClampTo(v, lo, hi), v, lo, hi)
    ensures forall x :: Nearest(x, v, lo, hi) ==> x == ClampTo(v, lo, hi)
  {
    forall x | Nearest(x, v, lo, hi) ensures x == ClampTo(v, lo, hi) {
      var c := ClampTo(v, lo, hi);
      if !(lo == 0 && hi == 0) {
        assert lo <= c <= hi;
        assert Distance(x, v) <= Distance(c, v);
      }
    }
  }

  /** A 32-bit parameter carries a value of its range unchanged. */
  lemma CastsAreExact(v: int)
    ensures 0 <= v < 0x1_0000_0000 ==> Unsigned(v) == v
    ensures -0x8000_0000 <= v < 0x8000_0000 ==> Signed(v) == v
  {
  }

  /** The value list `spec` gives device d, if it gives one. */
  function ValueFor(spec: string, d: nat, negative: bool): Option<int>
  {
    match ParseList(spec, d, negative)
    case Given(v) => Some(v)
    case _ => None
  }

  lemma WantedIsValueFor(spec: string, d: nat, negative: bool)
    ensures Wanted(spec, d, negative) == ValueFor(spec, d, negative)
  {
    hide Scan, Fields;
  }

  /** A value for an unsigned knob is written when it fits: in the band, unchanged by the cast. */
  ghost predicate Sets(now: int, was: int, v: Option<int>, reported: bool, lo: int, hi: int)
  {
    if v.None? || !reported then now == was
    else lo <= hi ==> forall x :: Nearest(x, v.value, lo, hi) && -0x8000_0000 <= x < 0x8000_0000 && (0 <= lo ==> 0 <= x) ==> now == x
  }

  /** A clock is locked at the value asked for or, when the card reports a top clock, at most there. */
  ghost predicate Locks(now: Option<nat>, was: Option<nat>, v: Option<int>, top: nat)
  {
    if v.None? then now == was
    else
      now.Some? && var x := if top != 0 && top < v.value then top else v.value;
      0 <= x < 0x1_0000_0000 ==> now.value == x
  }

  // ---- one knob, accepted ------------------------------------------------------------------------------

  lemma PowerSets(drv: Driver, d: nat, s: Side, spec: string)
    requires Accepts(drv, |s.log|)
    ensures var t := ApplyPower(drv, d, s, spec);
      && t.card == s.card.(power := t.card.power) && |t.log| >= |s.log|
      && Sets(t.card.power, s.card.power, ValueFor(spec, d, false), drv.caps(d).power, drv.caps(d).powerMin, drv.caps(d).powerMax)
  {
    hide Wanted, ParseList, ClampTo, Unsigned, Nearest;
    WantedIsValueFor(spec, d, false);
    var c := drv.caps(d);
    if Wanted(spec, d, false).Some? {
      var v := Wanted(spec, d, false).value;
      CastsAreExact(ClampTo(v, c.powerMin, c.powerMax));
      if c.powerMin <= c.powerMax {
        ClampIsNearest(v, c.powerMin, c.powerMax);
      }
    }
  }

  lemma CoreSets(drv: Driver, d: nat, s: Side, spec: string)
    requires Accepts(drv, |s.log|)
    ensures var t := ApplyCore(drv, d, s, spec);
      && t.card == s.card.(core := t.card.core) && |t.log| >= |s.log|
      && Sets(t.card.core, s.card.core, ValueFor(spec, d, true), drv.caps(d).core, drv.caps(d).coreMin, drv.caps(d).coreMax)
  {
    hide Wanted, ParseList, ClampTo, Signed, Nearest;
    WantedIsValueFor(spec, d, true);
    var c := drv.caps(d);
    if Wanted(spec, d, true).Some? {
      var v := Wanted(spec, d, true).value;
      CastsAreExact(ClampTo(v, c.coreMin, c.coreMax));
      if c.coreMin <= c.coreMax {
        ClampIsNearest(v, c.coreMin, c.coreMax);
      }
    }
  }

  lemma MemSets(drv: Driver, d: nat, s: Side, spec: string)
    requires Accepts(drv, |s.log|)
    ensures var t := ApplyMem(drv, d, s, spec);
      && t.card == s.card.(mem := t.card.mem) && |t.log| >= |s.log|
      && Sets(t.card.mem, s.card.mem, ValueFor(spec, d, true), drv.caps(d).mem, drv.caps(d).memMin, drv.caps(d).memMax)
  {
    hide Wanted, ParseList, ClampTo, Signed, Nearest;
    WantedIsValueFor(spec, d, true);
    var c := drv.caps(d);
    if Wanted(spec, d, true).Some? {
      var v := Wanted(spec, d, true).value;
      CastsAreExact(ClampTo(v, c.memMin, c.memMax));
      if c.memMin <= c.memMax {
        ClampIsNearest(v, c.memMin, c.memMax);
      }
    }
  }

  lemma LocksSet(drv: Driver, d: nat, s: Side, spec: string)
    requires Accepts(drv, |s.log|)
    ensures var t := ApplyCoreLock(drv, d, s, spec);
      && t.card == s.card.(coreLock := t.card.coreLock) && |t.log| >= |s.log|
      && Locks(t.card.coreLock, s.card.coreLock, ValueFor(spec, d, false), drv.caps(d).coreClock)
    ensures var t := ApplyMemLock(drv, d, s, spec);
      && t.card == s.card.(memLock := t.card.memLock) && |t.log| >= |s.log|
      && Locks(t.card.memLock, s.card.memLock, ValueFor(spec, d, false), drv.caps(d).memClock)
  {
    hide Wanted, ParseList, Unsigned;
    WantedIsValueFor(spec, d, false);
    var c := drv.caps(d);
    if Wanted(spec, d, false).Some? {
      var v := Wanted(spec, d, false).value;
      CastsAreExact(AtMost(v, c.coreClock));
      CastsAreExact(AtMost(v, c.memClock));
    }
  }

  /** With every write accepted no fan is left out. */
  lemma {:induction false} AllFansSet(drv: Driver, d: nat, s: Side, i: nat, pct: nat)
    requires i <= |s.card.fans| && Accepts(drv, |s.log|)
    ensures var (t, done) := SetFans(drv, d, s, i, pct);
      && done == |s.card.fans| && t.card == s.card.(fans := t.card.fans) && |t.card.fans| == |s.card.fans|
      && (forall k :: 0 <= k < i ==> t.card.fans[k] == s.card.fans[k])
      && (forall k :: i <= k < |s.card.fans| ==> t.card.fans[k] == Some(pct))
    decreases |s.card.fans| - i
  {
    if i < |s.card.fans| {
      AllFansSet(drv, d, Do(drv, d, s, SetFan(i, pct)), i + 1, pct);
    }
  }

  /** Every fan turns at the value asked for, in the reported band and at most 100 percent. */
  ghost predicate Turns(now: seq<Option<nat>>, was: seq<Option<nat>>, v: Option<int>, c: Caps)
  {
    if v.None? || v.value < 0 || !c.fan then now == was
    else
      && |now| == |was|
      && (c.fanMin <= c.fanMax ==> forall x, i :: Nearest(x, v.value, c.fanMin, c.fanMax) && 0 <= i < |now| ==>
            now[i] == Some(if x > 100 then 100 else x))
  }

  lemma FansTurn(drv: Driver, d: nat, s: Side, spec: string)
    requires Accepts(drv, |s.log|)
    ensures var t := ApplyFan(drv, d, s, spec);
      && t.card == s.card.(fans := t.card.fans)
      && Turns(t.card.fans, s.card.fans, ValueFor(spec, d, true), drv.caps(d))
  {
    hide Wanted, ParseList, Unsigned, Nearest, SetFans;
    WantedIsValueFor(spec, d, true);
    var c := drv.caps(d);
    if Wanted(spec, d, true).Some? && Wanted(spec, d, true).value >= 0 && c.fan {
      var v := Wanted(spec, d, true).value;
      AllFansSet(drv, d, s, 0, Unsigned(FanTarget(v, c)));
      CastsAreExact(FanTarget(v, c));
      if c.fanMin <= c.fanMax {
        ClampIsNearest(v, c.fanMin, c.fanMax);
      }
    }
  }

  // ---- the whole apply -----------------------------------------------------------------------------------

  /**
    With every write accepted each list sets its own knob and nothing else: the power limit from
    --pl, the offsets from --coff and --moff, the locked clocks from --cclk and --mclk, the fans
    from --fan, each at the value the list gives this device, brought into what the card reports;
    a knob the list says nothing about, or the card does not report, stays as it was.
   */
  lemma ApplySetsWhatIsAsked(drv: Driver, d: nat, s: Side, req: Request)
    requires d < 16 && Accepts(drv, |s.log|)
    ensures var c, was, now := drv.caps(d), s.card, Apply(drv, d, s, req).card;
      && Sets(now.power, was.power, ValueFor(req.pl, d, false), c.power, c.powerMin, c.powerMax)
      && Sets(now.core, was.core, ValueFor(req.coff, d, true), c.core, c.coreMin, c.coreMax)
      && Sets(now.mem, was.mem, ValueFor(req.moff, d, true), c.mem, c.memMin, c.memMax)
      && Locks(now.coreLock, was.coreLock, ValueFor(req.cclk, d, false), c.coreClock)
      && Locks(now.memLock, was.memLock, ValueFor(req.mclk, d, false), c.memClock)
      && Turns(now.fans, was.fans, ValueFor(req.fan, d, true), c)
  {
    hide ApplyPower, ApplyCore, ApplyMem, ApplyCoreLock, ApplyMemLock, ApplyFan, Sets, Locks, Turns, ValueFor;
    var s1 := ApplyPower(drv, d, s, req.pl);
    var s2 := ApplyCore(drv, d, s1, req.coff);
    var s3 := ApplyMem(drv, d, s2, req.moff);
    var s4 := ApplyCoreLock(drv, d, s3, req.cclk);
    var s5 := ApplyMemLock(drv, d, s4, req.mclk);
    PowerSets(drv, d, s, req.pl);
    CoreSets(drv, d, s1, req.coff);
    MemSets(drv, d, s2, req.moff);
    LocksSet(drv, d, s3, req.cclk);
    LocksSet(drv, d, s4, req.mclk);
    FansTurn(drv, d, s5, req.fan);
  }
}
