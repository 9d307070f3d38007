/**
  Overclock knobs (src/gpu/overclock.cpp): applied per device, each write open to refusal,
  and put back by oc_restore.
 */
module Overclock {
  import opened Options
  import opened OcList

  const MAX_DEVICES: nat := 16

  datatype Answer = Ok | NoPermission | Unsupported | Rejected

  /** The settings of one card; a fan with no speed is on the driver's curve. */
  datatype Card = Card(power: nat, core: int, mem: int, coreLock: Option<nat>, memLock: Option<nat>, fans: seq<Option<nat>>)

  /** What one card reports about itself; a band of 0/0 is unknown. */
  datatype Caps = Caps(
    power: bool, powerMin: nat, powerMax: nat,
    core: bool, coreMin: int, coreMax: int,
    mem: bool, memMin: int, memMax: int,
    coreClock: nat, memClock: nat,
    fan: bool, fanMin: nat, fanMax: nat)

  /** The driver: what each device reports, and its answer to the n-th write of the process. */
  datatype Driver = Driver(caps: nat -> Caps, answer: nat -> Answer)

  datatype Knob = SetPower(w: nat) | SetCore(mhz: int) | SetMem(mhz: int)
    | LockCore(at: nat) | LockMem(at: nat) | UnlockCore | UnlockMem
    | SetFan(fan: nat, pct: nat) | ResetFan(fan: nat)

  datatype Write = Write(device: nat, knob: Knob, answer: Answer)

  function Effect(c: Card, k: Knob): Card
  {
    match k
    case SetPower(w) => c.(power := w)
    case SetCore(mhz) => c.(core := mhz)
    case SetMem(mhz) => c.(mem := mhz)
    case LockCore(at) => c.(coreLock := Some(at))
    case LockMem(at) => c.(memLock := Some(at))
    case UnlockCore => c.(coreLock := None)
    case UnlockMem => c.(memLock := None)
    case SetFan(fan, pct) => if fan < |c.fans| then c.(fans := c.fans[fan := Some(pct)]) else c
    case ResetFan(fan) => if fan < |c.fans| then c.(fans := c.fans[fan := None]) else c
  }

  /** The bookkeeping of one device; a previous power of 0 means nothing to restore. */
  datatype Marks = Marks(prevPower: nat, coreSet: bool, prevCore: int, memSet: bool, prevMem: int,
                         coreLocked: bool, memLocked: bool, fanSet: bool, fanCount: nat)

  function Clean(): Marks { Marks(0, false, 0, false, 0, false, false, false, 0) }

  /** One device with the write log of the whole process. */
  datatype Side = Side(card: Card, marks: Marks, log: seq<Write>)

  function Do(drv: Driver, d: nat, s: Side, k: Knob): Side
  {
    var a := drv.answer(|s.log|);
    Side(if a.Ok? then Effect(s.card, k) else s.card, s.marks, s.log + [Write(d, k, a)])
  }

  /** Did the newest write land? */
  predicate Landed(s: Side) { s.log != [] && s.log[|s.log| - 1].answer.Ok? }

  // ---- one knob ----------------------------------------------------------------------------------

  datatype Request = Request(pl: string, coff: string, moff: string, cclk: string, mclk: string, fan: string)

  /** The value a spec asks of this device, if it asks anything. */
  function Wanted(spec: string, d: nat, negative: bool): Option<int>
  {
    if spec == "" then None
    else
      var p := ParseList(spec, d, negative);
      if p.Given? then Some(p.v) else None
  }

  function ClampTo(v: int, lo: int, hi: int): int
  {
    if lo == 0 && hi == 0 then v else if v < lo then lo else if v > hi then hi else v
  }

  /** The casts to the driver's 32-bit parameters. */
  function Unsigned(v: int): nat { v % 0x1_0000_0000 }

  function Signed(v: int): int { var u := v % 0x1_0000_0000; if u < 0x8000_0000 then u else u - 0x1_0000_0000 }

  function ApplyPower(drv: Driver, d: nat, s: Side, spec: string): Side
  {
    var v, c := Wanted(spec, d, false), drv.caps(d);
    if v.None? || !c.power then s
    else
      var t := Do(drv, d, s, SetPower(Unsigned(ClampTo(v.value, c.powerMin, c.powerMax))));
      if Landed(t) then t.(marks := t.marks.(prevPower := s.card.power)) else t
  }

  function ApplyCore(drv: Driver, d: nat, s: Side, spec: string): Side
  {
    var v, c := Wanted(spec, d, true), drv.caps(d);
    if v.None? || !c.core then s
    else
      var t := Do(drv, d, s, SetCore(Signed(ClampTo(v.value, c.coreMin, c.coreMax))));
      if Landed(t) then t.(marks := t.marks.(coreSet := true, prevCore := s.card.core)) else t
  }

  function ApplyMem(drv: Driver, d: nat, s: Side, spec: string): Side
  {
    var v, c := Wanted(spec, d, true), drv.caps(d);
    if v.None? || !c.mem then s
    else
      var t := Do(drv, d, s, SetMem(Signed(ClampTo(v.value, c.memMin, c.memMax))));
      if Landed(t) then t.(marks := t.marks.(memSet := true, prevMem := s.card.mem)) else t
  }

  /** Only an upper bound is known for a locked clock, 0 if unknown. */
  function AtMost(v: int, hi: nat): int { if hi != 0 && v > hi then hi else v }

  function ApplyCoreLock(drv: Driver, d: nat, s: Side, spec: string): Side
  {
    var v := Wanted(spec, d, false);
    if v.None? then s
    else
      var t := Do(drv, d, s, LockCore(Unsigned(AtMost(v.value, drv.caps(d).coreClock))));
      if Landed(t) then t.(marks := t.marks.(coreLocked := true)) else t
  }

  function ApplyMemLock(drv: Driver, d: nat, s: Side, spec: string): Side
  {
    var v := Wanted(spec, d, false);
    if v.None? then s
    else
      var t := Do(drv, d, s, LockMem(Unsigned(AtMost(v.value, drv.caps(d).memClock))));
      if Landed(t) then t.(marks := t.marks.(memLocked := true)) else t
  }

  /** Fans from i on, up to the first refusal; `done` counts those that took. */
  function SetFans(drv: Driver, d: nat, s: Side, i: nat, pct: nat): (r: (Side, nat))
    requires i <= |s.card.fans|
    ensures r.1 <= |s.card.fans| && i <= r.1
    decreases |s.card.fans| - i
  {
    if i == |s.card.fans| then (s, i)
    else
      var t := Do(drv, d, s, SetFan(i, pct));
      if Landed(t) then SetFans(drv, d, t, i + 1, pct) else (t, i)
  }

  function FanTarget(v: int, c: Caps): int
  {
    var t := ClampTo(v, c.fanMin, c.fanMax);
    if t > 100 then 100 else t
  }

  function ApplyFan(drv: Driver, d: nat, s: Side, spec: string): Side
  {
    var v, c := Wanted(spec, d, true), drv.caps(d);
    if v.None? || v.value < 0 || !c.fan then s
    else
      var r := SetFans(drv, d, s, 0, Unsigned(FanTarget(v.value, c)));
      if r.1 == 0 then r.0 else r.0.(marks := r.0.marks.(fanCount := r.1, fanSet := true))
  }

  /** Power limit, core offset, memory offset, core lock, memory lock, fan. */
  function Apply(drv: Driver, d: nat, s: Side, req: Request): Side
  {
    if d >= MAX_DEVICES then s
    else
      var s1 := ApplyPower(drv, d, s, req.pl);
      var s2 := ApplyCore(drv, d, s1, req.coff);
      var s3 := ApplyMem(drv, d, s2, req.moff);
      var s4 := ApplyCoreLock(drv, d, s3, req.cclk);
      var s5 := ApplyMemLock(drv, d, s4, req.mclk);
      ApplyFan(drv, d, s5, req.fan)
  }

  function ResetFans(drv: Driver, d: nat, s: Side, i: nat, n: nat): Side
    requires i <= n
    decreases n - i
  {
    if i == n then s else ResetFans(drv, d, Do(drv, d, s, ResetFan(i)), i + 1, n)
  }

  /** The reverse of the apply order. */
  function Restore(drv: Driver, d: nat, s: Side): Side
  {
    var m := s.marks;
    var s0 := s.(marks := Swept(m));
    var s1 := if m.fanSet then ResetFans(drv, d, s0, 0, m.fanCount) else s0;
    var s2 := DoIf(drv, d, s1, m.memLocked, UnlockMem);
    var s3 := DoIf(drv, d, s2, m.coreLocked, UnlockCore);
    var s4 := DoIf(drv, d, s3, m.memSet, SetMem(m.prevMem));
    var s5 := DoIf(drv, d, s4, m.coreSet, SetCore(m.prevCore));
    DoIf(drv, d, s5, m.prevPower != 0, SetPower(m.prevPower))
  }

  function DoIf(drv: Driver, d: nat, s: Side, flag: bool, k: Knob): Side { if flag then Do(drv, d, s, k) else s }

  /** exchange() on every flag; a previous value is taken only together with its flag. */
  function Swept(m: Marks): Marks
  {
    Marks(0, false, if m.coreSet then 0 else m.prevCore, false, if m.memSet then 0 else m.prevMem,
          false, false, false, if m.fanSet then 0 else m.fanCount)
  }

  // ---- what apply leaves behind -------------------------------------------------------------------

  /** The bookkeeping is honest: whatever it does not mention is as it was, whatever it does it remembers. */
  predicate Undoable(was: Card, s: Side)
  {
    var c, m := s.card, s.marks;
    && (m.prevPower != 0 ==> m.prevPower == was.power)
    && (m.prevPower == 0 ==> c.power == was.power || was.power == 0)
    && (if m.coreSet then m.prevCore == was.core else c.core == was.core)
    && (if m.memSet then m.prevMem == was.mem else c.mem == was.mem)
    && (m.coreLocked || c.coreLock == was.coreLock)
    && (m.memLocked || c.memLock == was.memLock)
    && |c.fans| == |was.fans|
    && var n := if m.fanSet then m.fanCount else 0;
       n <= |c.fans| && forall i :: n <= i < |c.fans| ==> c.fans[i] == was.fans[i]
  }

  /** What restoring promises: locks and fans that were applied are cleared, everything else is as before. */
  function AsBefore(was: Card, m: Marks): Card
  {
    was.(coreLock := if m.coreLocked then None else was.coreLock,
         memLock := if m.memLocked then None else was.memLock,
         fans := if m.fanSet && m.fanCount <= |was.fans| then FirstCleared(was.fans, m.fanCount) else was.fans)
  }

  function FirstCleared(fans: seq<Option<nat>>, n: nat): (r: seq<Option<nat>>)
    requires n <= |fans|
    ensures |r| == |fans| && forall i :: 0 <= i < |r| ==> r[i] == if i < n then None else fans[i]
  {
    if n == 0 then fans else FirstCleared(fans, n - 1)[n - 1 := None]
  }

  lemma {:induction false} FansSoFar(drv: Driver, d: nat, s: Side, i: nat, pct: nat)
    requires i <= |s.card.fans|
    ensures var (t, done) := SetFans(drv, d, s, i, pct);
      && t.marks == s.marks && t.card == s.card.(fans := t.card.fans) && |t.card.fans| == |s.card.fans|
      && (forall k :: 0 <= k < |s.card.fans| && (k < i || done <= k) ==> t.card.fans[k] == s.card.fans[k])
      // The fans that took are set, and the loop ended only at the last one or at a refusal.
      && (forall k :: i <= k < done ==> t.card.fans[k] == Some(pct))
      && (done < |s.card.fans| ==> |t.log| == |s.log| + done - i + 1 && !Landed(t))
      && (done == |s.card.fans| ==> |t.log| == |s.log| + done - i)
    decreases |s.card.fans| - i
  {
    if i < |s.card.fans| {
      var t := Do(drv, d, s, SetFan(i, pct));
      if Landed(t) {
        FansSoFar(drv, d, t, i + 1, pct);
      }
    }
  }

  lemma PowerIsUndoable(drv: Driver, d: nat, was: Card, s: Side, spec: string)
    requires Undoable(was, s) && s.marks.prevPower == 0 && s.card.power == was.power
    ensures var t := ApplyPower(drv, d, s, spec);
      Undoable(was, t) && t.marks == s.marks.(prevPower := t.marks.prevPower)
  {
    hide Wanted, ClampTo, Unsigned;
  }

  lemma CoreIsUndoable(drv: Driver, d: nat, was: Card, s: Side, spec: string)
    requires Undoable(was, s) && !s.marks.coreSet
    ensures var t := ApplyCore(drv, d, s, spec);
      Undoable(was, t) && t.marks == s.marks.(coreSet := t.marks.coreSet, prevCore := t.marks.prevCore)
  {
    hide Wanted, ClampTo, Signed;
  }

  lemma MemIsUndoable(drv: Driver, d: nat, was: Card, s: Side, spec: string)
    requires Undoable(was, s) && !s.marks.memSet
    ensures var t := ApplyMem(drv, d, s, spec);
      Undoable(was, t) && t.marks == s.marks.(memSet := t.marks.memSet, prevMem := t.marks.prevMem)
  {
    hide Wanted, ClampTo, Signed;
  }

  lemma CoreLockIsUndoable(drv: Driver, d: nat, was: Card, s: Side, spec: string)
    requires Undoable(was, s)
    ensures var t := ApplyCoreLock(drv, d, s, spec);
      Undoable(was, t) && t.marks == s.marks.(coreLocked := t.marks.coreLocked)
  {
    hide Wanted, Unsigned, AtMost;
  }

  lemma MemLockIsUndoable(drv: Driver, d: nat, was: Card, s: Side, spec: string)
    requires Undoable(was, s)
    ensures var t := ApplyMemLock(drv, d, s, spec);
      Undoable(was, t) && t.marks == s.marks.(memLocked := t.marks.memLocked)
  {
    hide Wanted, Unsigned, AtMost;
  }

  lemma FanIsUndoable(drv: Driver, d: nat, was: Card, s: Side, spec: string)
    requires Undoable(was, s) && !s.marks.fanSet
    ensures Undoable(was, ApplyFan(drv, d, s, spec))
  {
    hide Wanted, Unsigned, FanTarget, SetFans;
    var v, c := Wanted(spec, d, true), drv.caps(d);
    if v.Some? && v.value >= 0 && c.fan {
      FansSoFar(drv, d, s, 0, Unsigned(FanTarget(v.value, c)));
    }
  }

  /** From clean bookkeeping, one apply of any request under any refusals leaves an undoable device. */
  lemma ApplyIsUndoable(drv: Driver, d: nat, s: Side, req: Request)
    requires s.marks == Clean()
    ensures Undoable(s.card, Apply(drv, d, s, req))
  {
    hide ApplyPower, ApplyCore, ApplyMem, ApplyCoreLock, ApplyMemLock, ApplyFan, Undoable;
    assert Undoable(s.card, s) by { CleanIsUndoable(s); }
    if d < MAX_DEVICES {
      var s1 := ApplyPower(drv, d, s, req.pl);
      var s2 := ApplyCore(drv, d, s1, req.coff);
      var s3 := ApplyMem(drv, d, s2, req.moff);
      var s4 := ApplyCoreLock(drv, d, s3, req.cclk);
      PowerIsUndoable(drv, d, s.card, s, req.pl);
      CoreIsUndoable(drv, d, s.card, s1, req.coff);
      MemIsUndoable(drv, d, s.card, s2, req.moff);
      CoreLockIsUndoable(drv, d, s.card, s3, req.cclk);
      MemLockIsUndoable(drv, d, s.card, s4, req.mclk);
      FanIsUndoable(drv, d, s.card, ApplyMemLock(drv, d, s4, req.mclk), req.fan);
    }
  }

  lemma CleanIsUndoable(s: Side)
    requires s.marks == Clean()
    ensures Undoable(s.card, s)
  {
  }

  // ---- what restore does ------------------------------------------------------------------------------

  /** Every write from here on succeeds. */
  ghost predicate Accepts(drv: Driver, from: nat) { forall k :: from <= k ==> drv.answer(k).Ok? }

  lemma {:induction false} FansReset(drv: Driver, d: nat, s: Side, i: nat, n: nat)
    requires i <= n <= |s.card.fans| && Accepts(drv, |s.log|)
    ensures var t := ResetFans(drv, d, s, i, n);
      && t.marks == s.marks && t.card == s.card.(fans := t.card.fans) && |t.card.fans| == |s.card.fans|
      && |t.log| >= |s.log|
      && forall k :: 0 <= k < |s.card.fans| ==> t.card.fans[k] == if i <= k < n then None else s.card.fans[k]
    decreases n - i
  {
    if i < n {
      FansReset(drv, d, Do(drv, d, s, ResetFan(i)), i + 1, n);
    }
  }

  /** One device: an undoable side goes back to its old card, locks and fans that were applied cleared. */
  lemma RestoreUndoes(drv: Driver, d: nat, was: Card, s: Side)
    requires Undoable(was, s) && was.power != 0 && Accepts(drv, |s.log|)
    ensures Restore(drv, d, s).card == AsBefore(was, s.marks)
  {
    hide ResetFans;
    var m := s.marks;
    var s0 := s.(marks := Swept(m));
    var s1 := if m.fanSet then ResetFans(drv, d, s0, 0, m.fanCount) else s0;
    if m.fanSet {
      FansReset(drv, d, s0, 0, m.fanCount);
    }
    assert s1.card.fans == AsBefore(was, m).fans;
  }

  /** A second restore finds nothing to write. */
  lemma SecondRestoreWritesNothing(drv: Driver, d: nat, s: Side)
    ensures Restore(drv, d, Restore(drv, d, s)).card == Restore(drv, d, s).card
    ensures Restore(drv, d, Restore(drv, d, s)).log == Restore(drv, d, s).log
  {
    hide ResetFans;
    ResetFansOnlyOn(drv, d, s.(marks := Swept(s.marks)), 0, s.marks.fanCount);
  }

  /** The limit comes back exactly when the old one was not the "nothing to restore" value 0 (or never moved off it). */
  lemma PowerComesBackIff(drv: Driver, d: nat, was: Card, s: Side)
    requires Undoable(was, s) && Accepts(drv, |s.log|)
    ensures Restore(drv, d, s).card.power == was.power <==> was.power != 0 || s.card.power == 0
  {
    hide ResetFans;
    if s.marks.fanSet {
      FansReset(drv, d, s.(marks := Swept(s.marks)), 0, s.marks.fanCount);
    }
  }

  // ---- no other device --------------------------------------------------------------------------------

  /** The log grew by writes to device d only. */
  predicate OnlyOn(d: nat, before: seq<Write>, after: seq<Write>)
  {
    before <= after && forall i :: |before| <= i < |after| ==> after[i].device == d
  }

  lemma {:induction false} SetFansOnlyOn(drv: Driver, d: nat, s: Side, i: nat, pct: nat)
    requires i <= |s.card.fans|
    ensures OnlyOn(d, s.log, SetFans(drv, d, s, i, pct).0.log)
    decreases |s.card.fans| - i
  {
    if i < |s.card.fans| && Landed(Do(drv, d, s, SetFan(i, pct))) {
      SetFansOnlyOn(drv, d, Do(drv, d, s, SetFan(i, pct)), i + 1, pct);
    }
  }

  lemma {:induction false} ResetFansOnlyOn(drv: Driver, d: nat, s: Side, i: nat, n: nat)
    requires i <= n
    ensures ResetFans(drv, d, s, i, n).marks == s.marks
    ensures OnlyOn(d, s.log, ResetFans(drv, d, s, i, n).log)
    decreases n - i
  {
    if i < n {
      ResetFansOnlyOn(drv, d, Do(drv, d, s, ResetFan(i)), i + 1, n);
    }
  }

  lemma KnobsOnlyOn(drv: Driver, d: nat, s: Side, spec: string)
    ensures OnlyOn(d, s.log, ApplyPower(drv, d, s, spec).log)
    ensures OnlyOn(d, s.log, ApplyCore(drv, d, s, spec).log)
    ensures OnlyOn(d, s.log, ApplyMem(drv, d, s, spec).log)
    ensures OnlyOn(d, s.log, ApplyCoreLock(drv, d, s, spec).log)
    ensures OnlyOn(d, s.log, ApplyMemLock(drv, d, s, spec).log)
  {
    hide Wanted, ClampTo, Unsigned, Signed, AtMost, OnlyOn, Effect;
    SameLog(d, s.log);
    forall k: Knob ensures OnlyOn(d, s.log, Do(drv, d, s, k).log) {
      DoOnlyOn(drv, d, s, k);
    }
  }

  lemma DoOnlyOn(drv: Driver, d: nat, s: Side, k: Knob)
    ensures OnlyOn(d, s.log, Do(drv, d, s, k).log)
  {
  }

  lemma FanOnlyOn(drv: Driver, d: nat, s: Side, spec: string)
    ensures OnlyOn(d, s.log, ApplyFan(drv, d, s, spec).log)
  {
    hide Wanted, Unsigned, FanTarget, SetFans, OnlyOn;
    var v := Wanted(spec, d, true);
    assert OnlyOn(d, s.log, s.log) by { SameLog(d, s.log); }
    if v.Some? {
      SetFansOnlyOn(drv, d, s, 0, Unsigned(FanTarget(v.value, drv.caps(d))));
    }
  }

  lemma SameLog(d: nat, log: seq<Write>)
    ensures OnlyOn(d, log, log)
  {
  }

  lemma OnlyOnChain(d: nat, a: seq<Write>, b: seq<Write>, c: seq<Write>)
    requires OnlyOn(d, a, b) && OnlyOn(d, b, c)
    ensures OnlyOn(d, a, c)
  {
    assert forall i :: |a| <= i < |b| ==> c[i] == b[i];
  }

  lemma ApplyOnlyOn(drv: Driver, d: nat, s: Side, req: Request)
    ensures OnlyOn(d, s.log, Apply(drv, d, s, req).log)
  {
    hide ApplyPower, ApplyCore, ApplyMem, ApplyCoreLock, ApplyMemLock, ApplyFan, OnlyOn;
    SameLog(d, s.log);
    if d < MAX_DEVICES {
      var s1 := ApplyPower(drv, d, s, req.pl);
      var s2 := ApplyCore(drv, d, s1, req.coff);
      var s3 := ApplyMem(drv, d, s2, req.moff);
      var s4 := ApplyCoreLock(drv, d, s3, req.cclk);
      var s5 := ApplyMemLock(drv, d, s4, req.mclk);
      KnobsOnlyOn(drv, d, s, req.pl);
      KnobsOnlyOn(drv, d, s1, req.coff);
      OnlyOnChain(d, s.log, s1.log, s2.log);
      KnobsOnlyOn(drv, d, s2, req.moff);
      OnlyOnChain(d, s.log, s2.log, s3.log);
      KnobsOnlyOn(drv, d, s3, req.cclk);
      OnlyOnChain(d, s.log, s3.log, s4.log);
      KnobsOnlyOn(drv, d, s4, req.mclk);
      OnlyOnChain(d, s.log, s4.log, s5.log);
      FanOnlyOn(drv, d, s5, req.fan);
      OnlyOnChain(d, s.log, s5.log, ApplyFan(drv, d, s5, req.fan).log);
    }
  }

  lemma DoIfOnlyOn(drv: Driver, d: nat, before: seq<Write>, s: Side, flag: bool, k: Knob)
    requires OnlyOn(d, before, s.log)
    ensures OnlyOn(d, before, DoIf(drv, d, s, flag, k).log)
  {
  }

  lemma RestoreOnlyOn(drv: Driver, d: nat, s: Side)
    ensures OnlyOn(d, s.log, Restore(drv, d, s).log)
  {
    hide ResetFans, OnlyOn, DoIf;
    var m := s.marks;
    var s0 := s.(marks := Swept(m));
    ResetFansOnlyOn(drv, d, s0, 0, m.fanCount);
    SameLog(d, s.log);
    var s1 := if m.fanSet then ResetFans(drv, d, s0, 0, m.fanCount) else s0;
    DoIfOnlyOn(drv, d, s.log, s1, m.memLocked, UnlockMem);
    var s2 := DoIf(drv, d, s1, m.memLocked, UnlockMem);
    DoIfOnlyOn(drv, d, s.log, s2, m.coreLocked, UnlockCore);
    var s3 := DoIf(drv, d, s2, m.coreLocked, UnlockCore);
    DoIfOnlyOn(drv, d, s.log, s3, m.memSet, SetMem(m.prevMem));
    var s4 := DoIf(drv, d, s3, m.memSet, SetMem(m.prevMem));
    DoIfOnlyOn(drv, d, s.log, s4, m.coreSet, SetCore(m.prevCore));
    var s5 := DoIf(drv, d, s4, m.coreSet, SetCore(m.prevCore));
    DoIfOnlyOn(drv, d, s.log, s5, m.prevPower != 0, SetPower(m.prevPower));
  }
}
