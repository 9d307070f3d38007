/**
  Why each device is applied once (src/gpu/overclock.h, oc_apply): what a restore gives back
  after any number of applies to one device.
 */
module OverclockRepeated {
  import opened Options
  import opened Overclock

  /** Applies to one device, one after the other. */
  function ApplyEach(drv: Driver, d: nat, s: Side, reqs: seq<Request>): Side
    decreases |reqs|
  {
    if reqs == [] then s else Apply(drv, d, ApplyEach(drv, d, s, reqs[..|reqs| - 1]), reqs[|reqs| - 1])
  }

  /** The driver takes the write this knob sends now. */
  predicate PowerLands(drv: Driver, d: nat, s: Side, spec: string)
  {
    Wanted(spec, d, false).Some? && drv.caps(d).power && drv.answer(|s.log|).Ok?
  }

  predicate CoreLands(drv: Driver, d: nat, s: Side, spec: string)
  {
    Wanted(spec, d, true).Some? && drv.caps(d).core && drv.answer(|s.log|).Ok?
  }

  predicate MemLands(drv: Driver, d: nat, s: Side, spec: string)
  {
    Wanted(spec, d, true).Some? && drv.caps(d).mem && drv.answer(|s.log|).Ok?
  }

  /** The limit the card stood at when the last power write to land was sent; None if none landed. */
  function PowerBeforeLast(drv: Driver, d: nat, s: Side, reqs: seq<Request>): Option<nat>
    decreases |reqs|
  {
    if reqs == [] then None
    else
      var before, req := ApplyEach(drv, d, s, reqs[..|reqs| - 1]), reqs[|reqs| - 1];
      if PowerLands(drv, d, before, req.pl) then Some(before.card.power)
      else PowerBeforeLast(drv, d, s, reqs[..|reqs| - 1])
  }

  /** The same for the core offset, sent after the power limit. */
  function CoreBeforeLast(drv: Driver, d: nat, s: Side, reqs: seq<Request>): Option<int>
    decreases |reqs|
  {
    if reqs == [] then None
    else
      var before, req := ApplyEach(drv, d, s, reqs[..|reqs| - 1]), reqs[|reqs| - 1];
      if CoreLands(drv, d, ApplyPower(drv, d, before, req.pl), req.coff) then Some(before.card.core)
      else CoreBeforeLast(drv, d, s, reqs[..|reqs| - 1])
  }

  /** And for the memory offset, sent after the core offset. */
  function MemBeforeLast(drv: Driver, d: nat, s: Side, reqs: seq<Request>): Option<int>
    decreases |reqs|
  {
    if reqs == [] then None
    else
      var before, req := ApplyEach(drv, d, s, reqs[..|reqs| - 1]), reqs[|reqs| - 1];
      if MemLands(drv, d, ApplyCore(drv, d, ApplyPower(drv, d, before, req.pl), req.coff), req.moff) then Some(before.card.mem)
      else MemBeforeLast(drv, d, s, reqs[..|reqs| - 1])
  }

  /** What one knob leaves alone, and what it remembers when its write lands. */
  lemma PowerKnob(drv: Driver, d: nat, s: Side, spec: string)
    ensures var t := ApplyPower(drv, d, s, spec);
      && t.card == s.card.(power := t.card.power)
      && t.marks == (if PowerLands(drv, d, s, spec) then s.marks.(prevPower := s.card.power) else s.marks)
      && (!PowerLands(drv, d, s, spec) ==> t.card.power == s.card.power)
  {
    hide Wanted, ClampTo, Unsigned;
  }

  lemma CoreKnob(drv: Driver, d: nat, s: Side, spec: string)
    ensures var t := ApplyCore(drv, d, s, spec);
      && t.card == s.card.(core := t.card.core)
      && t.marks == (if CoreLands(drv, d, s, spec) then s.marks.(coreSet := true, prevCore := s.card.core) else s.marks)
      && (!CoreLands(drv, d, s, spec) ==> t.card.core == s.card.core)
  {
    hide Wanted, ClampTo, Signed;
  }

  lemma MemKnob(drv: Driver, d: nat, s: Side, spec: string)
    ensures var t := ApplyMem(drv, d, s, spec);
      && t.card == s.card.(mem := t.card.mem)
      && t.marks == (if MemLands(drv, d, s, spec) then s.marks.(memSet := true, prevMem := s.card.mem) else s.marks)
      && (!MemLands(drv, d, s, spec) ==> t.card.mem == s.card.mem)
  {
    hide Wanted, ClampTo, Signed;
  }

  /** The last three knobs leave limit, offsets and their bookkeeping alone, and every recorded fan is a fan. */
  predicate SameSettings(s: Side, t: Side)
  {
    && t.card.power == s.card.power && t.card.core == s.card.core && t.card.mem == s.card.mem
    && t.marks.prevPower == s.marks.prevPower
    && t.marks.coreSet == s.marks.coreSet && t.marks.prevCore == s.marks.prevCore
    && t.marks.memSet == s.marks.memSet && t.marks.prevMem == s.marks.prevMem
    && |t.card.fans| == |s.card.fans|
  }

  predicate FansOk(s: Side) { s.marks.fanSet ==> s.marks.fanCount <= |s.card.fans| }

  lemma LockKnobs(drv: Driver, d: nat, s: Side, spec: string)
    ensures SameSettings(s, ApplyCoreLock(drv, d, s, spec)) && SameSettings(s, ApplyMemLock(drv, d, s, spec))
    ensures FansOk(s) ==> FansOk(ApplyCoreLock(drv, d, s, spec)) && FansOk(ApplyMemLock(drv, d, s, spec))
  {
    hide Wanted, Unsigned, AtMost;
  }

  lemma FanKnob(drv: Driver, d: nat, s: Side, spec: string)
    ensures SameSettings(s, ApplyFan(drv, d, s, spec))
    ensures FansOk(s) ==> FansOk(ApplyFan(drv, d, s, spec))
  {
    hide Wanted, Unsigned, FanTarget, SetFans;
    var v := Wanted(spec, d, true);
    if v.Some? {
      FansSoFar(drv, d, s, 0, Unsigned(FanTarget(v.value, drv.caps(d))));
    }
  }

  /** One apply, as limit and offsets see it. */
  lemma OneApply(drv: Driver, d: nat, s: Side, req: Request)
    requires d < MAX_DEVICES && FansOk(s)
    ensures var t := Apply(drv, d, s, req);
      var s1 := ApplyPower(drv, d, s, req.pl);
      var s2 := ApplyCore(drv, d, s1, req.coff);
      && FansOk(t)
      && (if PowerLands(drv, d, s, req.pl) then t.marks.prevPower == s.card.power
          else t.marks.prevPower == s.marks.prevPower && t.card.power == s.card.power)
      && (if CoreLands(drv, d, s1, req.coff) then t.marks.coreSet && t.marks.prevCore == s.card.core
          else t.marks.coreSet == s.marks.coreSet && t.marks.prevCore == s.marks.prevCore && t.card.core == s.card.core)
      && (if MemLands(drv, d, s2, req.moff) then t.marks.memSet && t.marks.prevMem == s.card.mem
          else t.marks.memSet == s.marks.memSet && t.marks.prevMem == s.marks.prevMem && t.card.mem == s.card.mem)
  {
    hide ApplyPower, ApplyCore, ApplyMem, ApplyCoreLock, ApplyMemLock, ApplyFan, PowerLands, CoreLands, MemLands;
    var s1 := ApplyPower(drv, d, s, req.pl);
    var s2 := ApplyCore(drv, d, s1, req.coff);
    var s3 := ApplyMem(drv, d, s2, req.moff);
    var s4 := ApplyCoreLock(drv, d, s3, req.cclk);
    PowerKnob(drv, d, s, req.pl);
    CoreKnob(drv, d, s1, req.coff);
    MemKnob(drv, d, s2, req.moff);
    LockKnobs(drv, d, s3, req.cclk);
    LockKnobs(drv, d, s4, req.mclk);
    FanKnob(drv, d, ApplyMemLock(drv, d, s4, req.mclk), req.fan);
  }

  /** After any applies the bookkeeping remembers what the last write to land overwrote. */
  lemma {:induction false} RemembersLast(drv: Driver, d: nat, s: Side, reqs: seq<Request>)
    requires d < MAX_DEVICES && s.marks == Clean()
    ensures var t := ApplyEach(drv, d, s, reqs);
      var p, c, m := PowerBeforeLast(drv, d, s, reqs), CoreBeforeLast(drv, d, s, reqs), MemBeforeLast(drv, d, s, reqs);
      && FansOk(t)
      && (if p.Some? then t.marks.prevPower == p.value else t.marks.prevPower == 0 && t.card.power == s.card.power)
      && t.marks.coreSet == c.Some?
      && (if c.Some? then t.marks.prevCore == c.value else t.card.core == s.card.core)
      && t.marks.memSet == m.Some?
      && (if m.Some? then t.marks.prevMem == m.value else t.card.mem == s.card.mem)
    decreases |reqs|
  {
    hide Apply, ApplyPower, ApplyCore, PowerLands, CoreLands, MemLands;
    if reqs == [] {
    } else {
      RemembersLast(drv, d, s, reqs[..|reqs| - 1]);
      OneApply(drv, d, ApplyEach(drv, d, s, reqs[..|reqs| - 1]), reqs[|reqs| - 1]);
    }
  }

  /**
    After any applies to one device and a restore whose writes succeed, the limit is the
    original one if and only if no power write landed, or the card stood at the original,
    nonzero, when the last one to land was sent (a card at 0 is not restored, and is right only
    if it is there by chance); an offset, if and only if none landed or the card stood at the
    original one then. With a single apply it did: hence one apply per device.
   */
  lemma RestoredIff(drv: Driver, d: nat, s: Side, reqs: seq<Request>)
    requires d < MAX_DEVICES && s.marks == Clean() && Accepts(drv, |ApplyEach(drv, d, s, reqs).log|)
    ensures var t := ApplyEach(drv, d, s, reqs);
      var r := Restore(drv, d, t).card;
      var p, c, m := PowerBeforeLast(drv, d, s, reqs), CoreBeforeLast(drv, d, s, reqs), MemBeforeLast(drv, d, s, reqs);
      && (r.power == s.card.power
          <==> p.None? || (if p.value != 0 then p.value == s.card.power else t.card.power == s.card.power))
      && (r.core == s.card.core <==> c.None? || c.value == s.card.core)
      && (r.mem == s.card.mem <==> m.None? || m.value == s.card.mem)
  {
    hide ApplyEach, PowerBeforeLast, CoreBeforeLast, MemBeforeLast, ResetFans;
    RemembersLast(drv, d, s, reqs);
    var t := ApplyEach(drv, d, s, reqs);
    if t.marks.fanSet {
      FansReset(drv, d, t.(marks := Swept(t.marks)), 0, t.marks.fanCount);
    }
  }

  /** With one apply it always stood there. */
  lemma OneApplyIsEnough(drv: Driver, d: nat, s: Side, req: Request)
    ensures var p, c, m := PowerBeforeLast(drv, d, s, [req]), CoreBeforeLast(drv, d, s, [req]), MemBeforeLast(drv, d, s, [req]);
      && (p.None? || p.value == s.card.power) && (c.None? || c.value == s.card.core) && (m.None? || m.value == s.card.mem)
  {
    assert [req][..|[req]| - 1] == [];
  }
}
