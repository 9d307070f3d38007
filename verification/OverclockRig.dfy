/** The whole rig: one apply per device, then oc_restore (src/gpu/overclock.cpp). */
module OverclockRig {
  import opened Options
  import opened Selections
  import opened OcList
  import opened Overclock

  /** Every device's card and bookkeeping, and the log of all writes. */
  datatype Rig = Rig(cards: seq<Card>, marks: seq<Marks>, log: seq<Write>)
  {
    predicate Whole() { |cards| == MAX_DEVICES && |marks| == MAX_DEVICES }

    function At(d: nat): Side
      requires Whole() && d < MAX_DEVICES
    {
      Side(cards[d], marks[d], log)
    }

    function Put(d: nat, s: Side): (r: Rig)
      requires Whole() && d < MAX_DEVICES
      ensures r.Whole() && r.At(d) == s
      ensures forall k :: 0 <= k < MAX_DEVICES && k != d ==> r.cards[k] == cards[k] && r.marks[k] == marks[k]
    {
      Rig(cards[d := s.card], marks[d := s.marks], s.log)
    }
  }

  datatype Call = Call(device: nat, request: Request)

  function ApplyCall(drv: Driver, r: Rig, c: Call): (q: Rig)
    requires r.Whole()
    ensures q.Whole()
  {
    if c.device < MAX_DEVICES then r.Put(c.device, Apply(drv, c.device, r.At(c.device), c.request)) else r
  }

  function ApplyAll(drv: Driver, r: Rig, calls: seq<Call>): (q: Rig)
    requires r.Whole()
    ensures q.Whole()
  {
    if calls == [] then r else ApplyCall(drv, ApplyAll(drv, r, calls[..|calls| - 1]), calls[|calls| - 1])
  }

  /** oc_restore up to device n. */
  function RestoreFirst(drv: Driver, r: Rig, n: nat): (q: Rig)
    requires r.Whole() && n <= MAX_DEVICES
    ensures q.Whole()
  {
    if n == 0 then r
    else
      var q := RestoreFirst(drv, r, n - 1);
      q.Put(n - 1, Restore(drv, n - 1, q.At(n - 1)))
  }

  function RestoreAll(drv: Driver, r: Rig, enabled: bool): (q: Rig)
    requires r.Whole()
    ensures q.Whole()
  {
    if enabled then RestoreFirst(drv, r, MAX_DEVICES) else r
  }

  // ---- the code -----------------------------------------------------------------------------------

  /** What the console is told; NotReported when the card does not expose the knob. */
  datatype Status = NotRequested | Applied | Clamped | Failed(answer: Answer) | NotReported

  /** Silence means the knob was not asked for here, success means the driver took the first write. */
  predicate Honest(status: Status, spec: string, d: nat, negative: bool, before: seq<Write>, after: seq<Write>)
  {
    && (status.NotRequested? <==> spec == "" || ParseList(spec, d, negative).Skipped?)
    && (status.Applied? || status.Clamped? <==> |after| > |before| && after[|before|].answer.Ok?)
    && (|after| > |before| && !after[|before|].answer.Ok? ==> status == Failed(after[|before|].answer))
    && (ParseList(spec, d, negative).Malformed? && spec != "" ==> status == Failed(Rejected) && after == before)
  }

  lemma PutTwice(r: Rig, d: nat, a: Side, b: Side)
    requires r.Whole() && d < MAX_DEVICES
    ensures r.Put(d, a).Put(d, b) == r.Put(d, b)
  {
  }

  function IsReported(): Status -> bool { (s: Status) => !s.NotRequested? }

  function Kept(s: Status): seq<Status> { if s.NotRequested? then [] else [s] }

  lemma SixKept(s1: Status, s2: Status, s3: Status, s4: Status, s5: Status, s6: Status)
    ensures Picked([s1, s2, s3, s4, s5, s6], IsReported()) == Kept(s1) + Kept(s2) + Kept(s3) + Kept(s4) + Kept(s5) + Kept(s6)
  {
    hide Kept, Picked;
    var none: seq<Status> := [];
    OneKept(none, s1);
    OneKept([s1], s2);
    OneKept([s1, s2], s3);
    OneKept([s1, s2, s3], s4);
    OneKept([s1, s2, s3, s4], s5);
    OneKept([s1, s2, s3, s4, s5], s6);
    NoneKept();
    assert none + [s1] == [s1] && [s1] + [s2] == [s1, s2] && [s1, s2] + [s3] == [s1, s2, s3];
    assert [s1, s2, s3] + [s4] == [s1, s2, s3, s4] && [s1, s2, s3, s4] + [s5] == [s1, s2, s3, s4, s5];
    assert [s1, s2, s3, s4, s5] + [s6] == [s1, s2, s3, s4, s5, s6];
    assert none + Kept(s1) == Kept(s1);
  }

  lemma NoneKept()
    ensures Picked([], IsReported()) == []
  {
  }

  lemma OneKept(before: seq<Status>, s: Status)
    ensures Picked(before + [s], IsReported()) == Picked(before, IsReported()) + Kept(s)
  {
    assert (before + [s])[..|before|] == before;
  }

  /** The list says nothing about this device. */
  predicate Silent(spec: string, d: nat, negative: bool) { spec == "" || ParseList(spec, d, negative).Skipped? }

  /** One status a knob, in the order of the knobs; silence exactly for those not asked for. */
  predicate AreStatuses(all: seq<Status>, req: Request, d: nat)
  {
    && |all| == 6
    && (all[0].NotRequested? <==> Silent(req.pl, d, false))
    && (all[1].NotRequested? <==> Silent(req.coff, d, true))
    && (all[2].NotRequested? <==> Silent(req.moff, d, true))
    && (all[3].NotRequested? <==> Silent(req.cclk, d, false))
    && (all[4].NotRequested? <==> Silent(req.mclk, d, false))
    && (all[5].NotRequested? <==> Silent(req.fan, d, true))
  }

  class Overclocker {
    const drv: Driver
    const cards: array<Card>
    const marks: array<Marks>
    var log: seq<Write>
    var restoreEnabled: bool

    predicate Valid() reads this { cards.Length == MAX_DEVICES && marks.Length == MAX_DEVICES }

    function AsRig(): (r: Rig)
      requires Valid()
      reads this, cards, marks
      ensures r.Whole()
    {
      Rig(cards[..], marks[..], log)
    }

    constructor (drv: Driver, cards: array<Card>)
      requires cards.Length == MAX_DEVICES
      ensures Valid() && fresh(marks) && this.cards == cards && this.drv == drv && log == [] && restoreEnabled
      ensures forall d :: 0 <= d < MAX_DEVICES ==> marks[d] == Clean()
    {
      this.drv, this.cards := drv, cards;
      marks := new Marks[MAX_DEVICES](_ => Clean());
      log := [];
      restoreEnabled := true;
    }

    /** One call through the driver. */
    method Send(d: nat, k: Knob) returns (a: Answer)
      requires Valid() && d < MAX_DEVICES
      modifies cards, `log
      ensures AsRig() == old(AsRig()).Put(d, Do(drv, d, old(AsRig()).At(d), k))
      ensures a == drv.answer(|old(log)|)
    {
      a := drv.answer(|log|);
      log := log + [Write(d, k, a)];
      if a.Ok? { cards[d] := Effect(cards[d], k); }
    }

    /** The value asked of this device; without one, the status that says why. */
    method Want(spec: string, d: nat, negative: bool) returns (v: Option<int>, status: Status)
      ensures v == Wanted(spec, d, negative)
      ensures v.Some? ==> spec != "" && ParseList(spec, d, negative).Given?
      ensures v.None? ==> status == if spec == "" || ParseList(spec, d, negative).Skipped? then NotRequested else Failed(Rejected)
    {
      if spec == "" { return None, NotRequested; }
      var p := OcParseList(spec, d, negative);
      match p
      case Given(x) => return Some(x), NotRequested;
      case Skipped => return None, NotRequested;
      case Malformed(_) => return None, Failed(Rejected);
    }

    method ApplyPowerLimit(d: nat, spec: string) returns (status: Status)
      requires Valid() && d < MAX_DEVICES
      modifies cards, marks, `log
      ensures AsRig() == old(AsRig()).Put(d, ApplyPower(drv, d, old(AsRig()).At(d), spec))
      ensures Honest(status, spec, d, false, old(log), log)
      ensures status.NotRequested? <==> Silent(spec, d, false)
      ensures status.Applied? ==> log[|old(log)|].knob == SetPower(Unsigned(Wanted(spec, d, false).value))
      ensures status.Clamped? ==> ClampTo(Wanted(spec, d, false).value, drv.caps(d).powerMin, drv.caps(d).powerMax) != Wanted(spec, d, false).value
      ensures status.NotReported? <==> Wanted(spec, d, false).Some? && !drv.caps(d).power
    {
      hide Wanted, Effect;
      var v;
      v, status := Want(spec, d, false);
      if v.None? { return; }
      var c, was := drv.caps(d), cards[d].power;
      if !c.power { return NotReported; }
      var target := ClampTo(v.value, c.powerMin, c.powerMax);
      var a := Send(d, SetPower(Unsigned(target)));
      if !a.Ok? { return Failed(a); }
      marks[d] := marks[d].(prevPower := was);
      return if target != v.value then Clamped else Applied;
    }

    method ApplyCoreOffset(d: nat, spec: string) returns (status: Status)
      requires Valid() && d < MAX_DEVICES
      modifies cards, marks, `log
      ensures AsRig() == old(AsRig()).Put(d, ApplyCore(drv, d, old(AsRig()).At(d), spec))
      ensures Honest(status, spec, d, true, old(log), log)
      ensures status.NotRequested? <==> Silent(spec, d, true)
      ensures status.Applied? ==> log[|old(log)|].knob == SetCore(Signed(Wanted(spec, d, true).value))
      ensures status.Clamped? ==> ClampTo(Wanted(spec, d, true).value, drv.caps(d).coreMin, drv.caps(d).coreMax) != Wanted(spec, d, true).value
      ensures status.NotReported? <==> Wanted(spec, d, true).Some? && !drv.caps(d).core
    {
      hide Wanted, Effect;
      var v;
      v, status := Want(spec, d, true);
      if v.None? { return; }
      var c, was := drv.caps(d), cards[d].core;
      if !c.core { return NotReported; }
      var target := ClampTo(v.value, c.coreMin, c.coreMax);
      var a := Send(d, SetCore(Signed(target)));
      if !a.Ok? { return Failed(a); }
      marks[d] := marks[d].(prevCore := was, coreSet := true);
      return if target != v.value then Clamped else Applied;
    }

    method ApplyMemOffset(d: nat, spec: string) returns (status: Status)
      requires Valid() && d < MAX_DEVICES
      modifies cards, marks, `log
      ensures AsRig() == old(AsRig()).Put(d, ApplyMem(drv, d, old(AsRig()).At(d), spec))
      ensures Honest(status, spec, d, true, old(log), log)
      ensures status.NotRequested? <==> Silent(spec, d, true)
      ensures status.Applied? ==> log[|old(log)|].knob == SetMem(Signed(Wanted(spec, d, true).value))
      ensures status.Clamped? ==> ClampTo(Wanted(spec, d, true).value, drv.caps(d).memMin, drv.caps(d).memMax) != Wanted(spec, d, true).value
      ensures status.NotReported? <==> Wanted(spec, d, true).Some? && !drv.caps(d).mem
    {
      hide Wanted, Effect;
      var v;
      v, status := Want(spec, d, true);
      if v.None? { return; }
      var c, was := drv.caps(d), cards[d].mem;
      if !c.mem { return NotReported; }
      var target := ClampTo(v.value, c.memMin, c.memMax);
      var a := Send(d, SetMem(Signed(target)));
      if !a.Ok? { return Failed(a); }
      marks[d] := marks[d].(prevMem := was, memSet := true);
      return if target != v.value then Clamped else Applied;
    }

    method LockCoreClock(d: nat, spec: string) returns (status: Status)
      requires Valid() && d < MAX_DEVICES
      modifies cards, marks, `log
      ensures AsRig() == old(AsRig()).Put(d, ApplyCoreLock(drv, d, old(AsRig()).At(d), spec))
      ensures Honest(status, spec, d, false, old(log), log)
      ensures status.NotRequested? <==> Silent(spec, d, false)
      ensures status.Applied? ==> log[|old(log)|].knob == LockCore(Unsigned(Wanted(spec, d, false).value))
      ensures status.Clamped? ==> AtMost(Wanted(spec, d, false).value, drv.caps(d).coreClock) != Wanted(spec, d, false).value
    {
      hide Wanted, Effect;
      var v;
      v, status := Want(spec, d, false);
      if v.None? { return; }
      var target := AtMost(v.value, drv.caps(d).coreClock);
      var a := Send(d, LockCore(Unsigned(target)));
      if !a.Ok? { return Failed(a); }
      marks[d] := marks[d].(coreLocked := true);
      return if target != v.value then Clamped else Applied;
    }

    method LockMemClock(d: nat, spec: string) returns (status: Status)
      requires Valid() && d < MAX_DEVICES
      modifies cards, marks, `log
      ensures AsRig() == old(AsRig()).Put(d, ApplyMemLock(drv, d, old(AsRig()).At(d), spec))
      ensures Honest(status, spec, d, false, old(log), log)
      ensures status.NotRequested? <==> Silent(spec, d, false)
      ensures status.Applied? ==> log[|old(log)|].knob == LockMem(Unsigned(Wanted(spec, d, false).value))
      ensures status.Clamped? ==> AtMost(Wanted(spec, d, false).value, drv.caps(d).memClock) != Wanted(spec, d, false).value
    {
      hide Wanted, Effect;
      var v;
      v, status := Want(spec, d, false);
      if v.None? { return; }
      var target := AtMost(v.value, drv.caps(d).memClock);
      var a := Send(d, LockMem(Unsigned(target)));
      if !a.Ok? { return Failed(a); }
      marks[d] := marks[d].(memLocked := true);
      return if target != v.value then Clamped else Applied;
    }

    method ApplyFanSpeed(d: nat, spec: string) returns (status: Status)
      requires Valid() && d < MAX_DEVICES
      modifies cards, marks, `log
      ensures AsRig() == old(AsRig()).Put(d, ApplyFan(drv, d, old(AsRig()).At(d), spec))
      ensures Honest(status, spec, d, true, old(log), log)
      ensures status.NotRequested? <==> Silent(spec, d, true)
    {
      hide Wanted, SetFans;
      var v;
      v, status := Want(spec, d, true);
      if v.None? { return; }
      if v.value < 0 { return Failed(Rejected); }
      var c := drv.caps(d);
      if !c.fan { return NotReported; }
      var target := FanTarget(v.value, c);
      var a, done := SendFans(d, Unsigned(target));
      if done == 0 { return Failed(a); }
      marks[d] := marks[d].(fanCount := done, fanSet := true);
      return if !a.Ok? || target != v.value then Clamped else Applied;
    }

    method SendFans(d: nat, pct: nat) returns (a: Answer, done: nat)
      requires Valid() && d < MAX_DEVICES
      modifies cards, `log
      ensures var r := SetFans(drv, d, old(AsRig()).At(d), 0, pct);
        AsRig() == old(AsRig()).Put(d, r.0) && done == r.1
      ensures done > 0 <==> |log| > |old(log)| && log[|old(log)|].answer.Ok?
      ensures done == 0 && |log| > |old(log)| ==> a == log[|old(log)|].answer
      ensures |log| >= |old(log)|
    {
      ghost var rig := AsRig();
      a, done := Ok, 0;
      var i, count := 0, |cards[d].fans|;
      while i < count
        invariant i == done <= count == |cards[d].fans| && AsRig() == rig.Put(d, AsRig().At(d))
        invariant SetFans(drv, d, rig.At(d), 0, pct) == SetFans(drv, d, AsRig().At(d), i, pct)
        invariant rig.log <= log && (done == 0 <==> log == rig.log) && (done > 0 ==> log[|rig.log|].answer.Ok?)
      {
        a := Send(d, SetFan(i, pct));
        if !a.Ok? { break; }
        done := done + 1;
        i := i + 1;
      }
    }

    method OcApply(d: nat, req: Request) returns (reported: seq<Status>)
      requires Valid()
      modifies cards, marks, `log
      ensures AsRig() == ApplyCall(drv, old(AsRig()), Call(d, req))
      // Every knob that was asked for is reported, in order, and no other.
      ensures d < MAX_DEVICES ==> exists all :: AreStatuses(all, req, d) && reported == Picked(all, IsReported())
      ensures d >= MAX_DEVICES ==> reported == [Failed(Rejected)]
    {
      hide ApplyPower, ApplyCore, ApplyMem, ApplyCoreLock, ApplyMemLock, ApplyFan, Wanted, Honest, Silent, Picked, IsReported, Kept, Rig.Put, Rig.At;
      if d >= MAX_DEVICES { return [Failed(Rejected)]; }
      ghost var r0 := AsRig();
      var s1 := ApplyPowerLimit(d, req.pl);
      ghost var t1 := AsRig().At(d);
      var s2 := ApplyCoreOffset(d, req.coff);
      ghost var t2 := AsRig().At(d);
      PutTwice(r0, d, t1, t2);
      var s3 := ApplyMemOffset(d, req.moff);
      ghost var t3 := AsRig().At(d);
      PutTwice(r0, d, t2, t3);
      var s4 := LockCoreClock(d, req.cclk);
      ghost var t4 := AsRig().At(d);
      PutTwice(r0, d, t3, t4);
      var s5 := LockMemClock(d, req.mclk);
      ghost var t5 := AsRig().At(d);
      PutTwice(r0, d, t4, t5);
      var s6 := ApplyFanSpeed(d, req.fan);
      PutTwice(r0, d, t5, AsRig().At(d));
      reported := Kept(s1) + Kept(s2) + Kept(s3) + Kept(s4) + Kept(s5) + Kept(s6);
      SixKept(s1, s2, s3, s4, s5, s6);
      assert AreStatuses([s1, s2, s3, s4, s5, s6], req, d);
    }

    method OcRestore()
      requires Valid()
      modifies cards, marks, `log
      ensures AsRig() == RestoreAll(drv, old(AsRig()), restoreEnabled)
    {
      hide Restore;
      if !restoreEnabled { return; }
      ghost var rig := AsRig();
      for d := 0 to MAX_DEVICES
        invariant AsRig() == RestoreFirst(drv, rig, d)
      {
        RestoreDevice(d);
      }
    }

    method RestoreDevice(d: nat)
      requires Valid() && d < MAX_DEVICES
      modifies cards, marks, `log
      ensures AsRig() == old(AsRig()).Put(d, Restore(drv, d, old(AsRig()).At(d)))
    {
      hide ResetFans, DoIf;
      var m := marks[d];
      marks[d] := Swept(m);
      if m.fanSet { SendFanResets(d, m.fanCount); }
      SendIf(d, m.memLocked, UnlockMem);
      SendIf(d, m.coreLocked, UnlockCore);
      SendIf(d, m.memSet, SetMem(m.prevMem));
      SendIf(d, m.coreSet, SetCore(m.prevCore));
      SendIf(d, m.prevPower != 0, SetPower(m.prevPower));
    }

    method SendIf(d: nat, flag: bool, k: Knob)
      requires Valid() && d < MAX_DEVICES
      modifies cards, `log
      ensures AsRig() == old(AsRig()).Put(d, DoIf(drv, d, old(AsRig()).At(d), flag, k))
    {
      if flag {
        var _ := Send(d, k);
      }
    }

    method SendFanResets(d: nat, n: nat)
      requires Valid() && d < MAX_DEVICES
      modifies cards, `log
      ensures AsRig() == old(AsRig()).Put(d, ResetFans(drv, d, old(AsRig()).At(d), 0, n))
    {
      ghost var rig := AsRig();
      for i := 0 to n
        invariant AsRig() == rig.Put(d, AsRig().At(d))
        invariant ResetFans(drv, d, rig.At(d), 0, n) == ResetFans(drv, d, AsRig().At(d), i, n)
      {
        var _ := Send(d, ResetFan(i));
      }
    }
  }

  // ---- apply once per device, then restore --------------------------------------------------------

  predicate Distinct(calls: seq<Call>)
  {
    forall i, j :: 0 <= i < j < |calls| ==> calls[i].device != calls[j].device
  }

  predicate Called(calls: seq<Call>, d: nat) { exists i :: 0 <= i < |calls| && calls[i].device == d }

  predicate AllClean(r: Rig)
    requires r.Whole()
  {
    forall d :: 0 <= d < MAX_DEVICES ==> r.marks[d] == Clean()
  }

  /** Every device is undoable; an untouched one has its old card and clean bookkeeping. */
  ghost predicate RigUndoable(r0: Rig, r: Rig, calls: seq<Call>)
    requires r0.Whole() && r.Whole()
  {
    forall d :: 0 <= d < MAX_DEVICES ==>
      && Undoable(r0.cards[d], r.At(d))
      && (!Called(calls, d) ==> r.cards[d] == r0.cards[d] && r.marks[d] == Clean())
  }

  lemma {:induction false} AppliesAreUndoable(drv: Driver, r0: Rig, calls: seq<Call>)
    requires r0.Whole() && AllClean(r0) && Distinct(calls)
    ensures RigUndoable(r0, ApplyAll(drv, r0, calls), calls)
  {
    hide Undoable, Apply;
    if calls == [] {
      forall d | 0 <= d < MAX_DEVICES ensures Undoable(r0.cards[d], r0.At(d)) {
        CleanIsUndoable(r0.At(d));
      }
    } else {
      var pre, c := calls[..|calls| - 1], calls[|calls| - 1];
      AppliesAreUndoable(drv, r0, pre);
      var r := ApplyAll(drv, r0, pre);
      assert !Called(pre, c.device);
      assert forall d: nat :: Called(pre, d) ==> Called(calls, d) by {
        forall d: nat | Called(pre, d) ensures Called(calls, d) {
          var i :| 0 <= i < |pre| && pre[i].device == d;
          assert calls[i].device == d;
        }
      }
      assert Called(calls, c.device) by { assert calls[|calls| - 1].device == c.device; }
      var q := ApplyAll(drv, r0, calls);
      if c.device < MAX_DEVICES {
        ApplyIsUndoable(drv, c.device, r.At(c.device), c.request);
      }
      forall d | 0 <= d < MAX_DEVICES
        ensures Undoable(r0.cards[d], q.At(d)) && (!Called(calls, d) ==> q.cards[d] == r0.cards[d] && q.marks[d] == Clean())
      {
        if d != c.device {
          LogIsIrrelevant(r0.cards[d], r.At(d), q.At(d));
        }
      }
    }
  }

  lemma LogIsIrrelevant(was: Card, s: Side, t: Side)
    requires s.card == t.card && s.marks == t.marks
    ensures Undoable(was, s) == Undoable(was, t)
  {
  }

  /** Nothing waits to be put back (oc_has_pending_restore). */
  predicate Idle(m: Marks)
  {
    m.prevPower == 0 && !m.coreSet && !m.memSet && !m.coreLocked && !m.memLocked && !m.fanSet
  }

  lemma IdleIsQuiet(drv: Driver, d: nat, s: Side)
    ensures Idle(Restore(drv, d, s).marks)
    ensures Idle(s.marks) ==> Restore(drv, d, s).card == s.card && Restore(drv, d, s).log == s.log
  {
    hide ResetFans;
    ResetFansOnlyOn(drv, d, s.(marks := Swept(s.marks)), 0, s.marks.fanCount);
  }

  lemma {:induction false} RestoredFirst(drv: Driver, r0: Rig, a: Rig, n: nat)
    requires r0.Whole() && a.Whole() && n <= MAX_DEVICES && Accepts(drv, |a.log|)
    requires forall d :: 0 <= d < MAX_DEVICES ==> Undoable(r0.cards[d], a.At(d)) && r0.cards[d].power != 0
    ensures var q := RestoreFirst(drv, a, n);
      && a.log <= q.log
      && (forall d :: 0 <= d < n ==> q.cards[d] == AsBefore(r0.cards[d], a.marks[d]) && Idle(q.marks[d]))
      && (forall d :: n <= d < MAX_DEVICES ==> q.cards[d] == a.cards[d] && q.marks[d] == a.marks[d])
      && (forall i :: |a.log| <= i < |q.log| ==> q.log[i].device < n && !Idle(a.marks[q.log[i].device]))
    decreases n
  {
    hide Undoable, Restore, AsBefore, Idle;
    if n == 0 {
    } else {
      var d := n - 1;
      RestoredFirst(drv, r0, a, d);
      var q := RestoreFirst(drv, a, d);
      LogIsIrrelevant(r0.cards[d], a.At(d), q.At(d));
      AcceptsLater(drv, |a.log|, |q.log|);
      RestoreUndoes(drv, d, r0.cards[d], q.At(d));
      RestoreOnlyOn(drv, d, q.At(d));
      IdleIsQuiet(drv, d, q.At(d));
      ChainDevices(q.log, RestoreFirst(drv, a, n).log, d);
    }
  }

  lemma ChainDevices(before: seq<Write>, after: seq<Write>, d: nat)
    requires OnlyOn(d, before, after)
    ensures forall i :: 0 <= i < |after| ==> after[i] == (if i < |before| then before[i] else after[i])
    ensures forall i :: |before| <= i < |after| ==> after[i].device == d
  {
  }

  lemma AcceptsLater(drv: Driver, from: nat, later: nat)
    requires from <= later && Accepts(drv, from)
    ensures Accepts(drv, later)
  {
  }

  /** The applies write only to the devices they were called for. */
  lemma {:induction false} AppliesWriteOnlyToCalled(drv: Driver, r: Rig, calls: seq<Call>)
    requires r.Whole()
    ensures var a := ApplyAll(drv, r, calls);
      r.log <= a.log && forall i :: |r.log| <= i < |a.log| ==> Called(calls, a.log[i].device)
    decreases |calls|
  {
    hide Apply, Called;
    if calls == [] {
    } else {
      var pre, c := calls[..|calls| - 1], calls[|calls| - 1];
      AppliesWriteOnlyToCalled(drv, r, pre);
      var q, a := ApplyAll(drv, r, pre), ApplyAll(drv, r, calls);
      if c.device < MAX_DEVICES {
        ApplyOnlyOn(drv, c.device, q.At(c.device), c.request);
      }
      forall i | |r.log| <= i < |a.log| ensures Called(calls, a.log[i].device) {
        CalledLater(calls, a.log[i].device);
        assert i < |q.log| ==> a.log[i] == q.log[i];
      }
    }
  }

  lemma CalledLater(calls: seq<Call>, d: nat)
    requires calls != []
    ensures Called(calls[..|calls| - 1], d) || calls[|calls| - 1].device == d ==> Called(calls, d)
  {
    if Called(calls[..|calls| - 1], d) {
      var i :| 0 <= i < |calls| - 1 && calls[..|calls| - 1][i].device == d;
      assert calls[i].device == d;
    }
  }

  lemma {:induction false} IdleRigIsQuiet(drv: Driver, r: Rig, n: nat)
    requires r.Whole() && n <= MAX_DEVICES && forall d :: 0 <= d < MAX_DEVICES ==> Idle(r.marks[d])
    ensures var q := RestoreFirst(drv, r, n);
      q.cards == r.cards && q.log == r.log && forall d :: 0 <= d < MAX_DEVICES ==> Idle(q.marks[d])
    decreases n
  {
    hide Restore, Idle;
    if n == 0 {
    } else {
      IdleRigIsQuiet(drv, r, n - 1);
      IdleIsQuiet(drv, n - 1, RestoreFirst(drv, r, n - 1).At(n - 1));
    }
  }

  lemma UncalledIsAsBefore(was: Card)
    ensures AsBefore(was, Clean()) == was && Idle(Clean())
  {
  }

  /**
    For any requests, one apply per device, and any pattern of refusals while applying, a restore
    whose writes succeed leaves every card as it was, with exactly the locks cleared and the fans
    handed back that were applied; a device no apply was called for is never written; nothing is
    left pending, and a second restore writes nothing.
   */
  lemma RestoreBringsTheRigBack(drv: Driver, r0: Rig, calls: seq<Call>)
    requires r0.Whole() && AllClean(r0) && Distinct(calls)
    requires Accepts(drv, |ApplyAll(drv, r0, calls).log|)
    requires forall d :: 0 <= d < MAX_DEVICES ==> r0.cards[d].power != 0
    ensures var a := ApplyAll(drv, r0, calls);
      var b := RestoreAll(drv, a, true);
      && (forall d :: 0 <= d < MAX_DEVICES ==> b.cards[d] == AsBefore(r0.cards[d], a.marks[d]) && Idle(b.marks[d]))
      && (forall d :: 0 <= d < MAX_DEVICES && !Called(calls, d) ==> b.cards[d] == r0.cards[d])
      && r0.log <= b.log
      && (forall i :: |r0.log| <= i < |b.log| ==> Called(calls, b.log[i].device))
      && RestoreAll(drv, b, true).cards == b.cards && RestoreAll(drv, b, true).log == b.log
  {
    hide Undoable, AsBefore, Idle, Called, ApplyAll, RestoreFirst, Distinct;
    AppliesAreUndoable(drv, r0, calls);
    AppliesWriteOnlyToCalled(drv, r0, calls);
    var a := ApplyAll(drv, r0, calls);
    RestoredFirst(drv, r0, a, MAX_DEVICES);
    var b := RestoreFirst(drv, a, MAX_DEVICES);
    forall d | 0 <= d < MAX_DEVICES && !Called(calls, d) ensures AsBefore(r0.cards[d], a.marks[d]) == r0.cards[d] && Idle(a.marks[d]) {
      UncalledIsAsBefore(r0.cards[d]);
    }
    forall i | |r0.log| <= i < |b.log| ensures Called(calls, b.log[i].device) {
      assert i < |a.log| ==> b.log[i] == a.log[i];
    }
    IdleRigIsQuiet(drv, b, MAX_DEVICES);
  }

  /** On a rig with no lock held and every fan on its curve, that is the rig exactly as it was. */
  lemma StockRigComesBackExactly(drv: Driver, r0: Rig, calls: seq<Call>)
    requires r0.Whole() && AllClean(r0) && Distinct(calls)
    requires Accepts(drv, |ApplyAll(drv, r0, calls).log|)
    requires forall d :: 0 <= d < MAX_DEVICES ==> r0.cards[d].power != 0 && Stock(r0.cards[d])
    ensures RestoreAll(drv, ApplyAll(drv, r0, calls), true).cards == r0.cards
  {
    hide ApplyAll, RestoreAll, Distinct;
    RestoreBringsTheRigBack(drv, r0, calls);
    var a := ApplyAll(drv, r0, calls);
    forall d | 0 <= d < MAX_DEVICES ensures AsBefore(r0.cards[d], a.marks[d]) == r0.cards[d] {
      assert AsBefore(r0.cards[d], a.marks[d]).fans == r0.cards[d].fans;
    }
  }

  predicate Stock(c: Card)
  {
    c.coreLock.None? && c.memLock.None? && forall i :: 0 <= i < |c.fans| ==> c.fans[i].None?
  }
}
