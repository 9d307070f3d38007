/**
  The central metrics store (src/miner/stats.cpp): attempts in a pruned deque, pending
  submits matched first-in first-out within an origin, two ledgers kept apart.
  Time points and durations are nanoseconds.
 */
module Stats {
  import opened Options
  import opened Origins

  const SECOND: int := 1_000_000_000
  const MILLISECOND: int := 1_000_000
  const PRUNE_AGE: int := 900 * SECOND
  const SUBMIT_CAP: nat := 64
  const RECENT_SHARES: nat := 128

  datatype Attempt = Attempt(t: int, candidates: nat, device: nat)

  datatype Pending = Pending(job: string, t: int, units: real, origin: Origin, device: nat)

  datatype Found = Found(t: int, units: real, target: real, dev: bool)

  datatype Device = Device(name: string, candidates: nat, attempts: nat,
                           accepted: nat, stale: nat, rejected: nat, best: real)

  datatype Verdicts = Verdicts(accepted: nat, stale: nat, rejected: nat)

  datatype Book = Book(
    attempts: seq<Attempt>, candidates: nat,
    submits: seq<Pending>, found: seq<Found>,
    user: Verdicts, banked: real, best: real, latency: int, jobId: string, jobUnits: real, devices: seq<Device>,
    fee: Verdicts, feeUnits: real)

  datatype Event =
    | Solved(now: int, candidates: nat, device: nat)
    | Submitted(job: string, now: int, origin: Origin, device: nat)
    | ShareFound(units: real, now: int, origin: Origin, device: nat)
    | Answered(code: int, now: int, origin: Origin)
    | JobSet(id: string, units: real, origin: Origin)
    | Labelled(labels: seq<string>)

  // ---- one call -----------------------------------------------------------------------------

  /** The deque after dropping old entries from its front. */
  function Pruned(attempts: seq<Attempt>, now: int): seq<Attempt>
    decreases |attempts|
  {
    if attempts != [] && now - attempts[0].t > PRUNE_AGE then Pruned(attempts[1..], now) else attempts
  }

  function Newest<T>(q: seq<T>, cap: nat): seq<T> { if |q| > cap then q[|q| - cap..] else q }

  /** Place of the oldest pending submit of this origin, |q| if none. */
  function FirstOf(q: seq<Pending>, origin: Origin): (k: nat)
    ensures k <= |q| && (k < |q| ==> q[k].origin == origin) && forall j :: 0 <= j < k ==> q[j].origin != origin
    decreases |q|
  {
    if q == [] || q[0].origin == origin then 0 else 1 + FirstOf(q[1..], origin)
  }

  /** Wire codes: 1 accepted, 3 stale, anything else rejected. */
  function Counted(v: Verdicts, code: int): Verdicts
  {
    if code == 1 then v.(accepted := v.accepted + 1)
    else if code == 3 then v.(stale := v.stale + 1)
    else v.(rejected := v.rejected + 1)
  }

  function CountedOn(devices: seq<Device>, k: nat, code: int): seq<Device>
  {
    if k >= |devices| then devices
    else
      var d := devices[k];
      devices[k := if code == 1 then d.(accepted := d.accepted + 1)
                   else if code == 3 then d.(stale := d.stale + 1)
                   else d.(rejected := d.rejected + 1)]
  }

  function Milliseconds(d: int): int { if d >= 0 then d / MILLISECOND else -((-d) / MILLISECOND) }

  function NewDevice(name: string): Device { Device(name, 0, 0, 0, 0, 0, 0.0) }

  function NewDevices(labels: seq<string>): (ds: seq<Device>)
    ensures |ds| == |labels| && forall i :: 0 <= i < |ds| ==> ds[i] == NewDevice(labels[i])
  {
    if labels == [] then [] else [NewDevice(labels[0])] + NewDevices(labels[1..])
  }

  function Fresh(): Book
  {
    Book([], 0, [], [], Verdicts(0, 0, 0), 0.0, 0.0, -1, "", 0.0, [NewDevice("GPU 0")], Verdicts(0, 0, 0), 0.0)
  }

  function TargetOf(b: Book, origin: Origin): real { if origin.Dev? then b.feeUnits else b.jobUnits }

  function Record(b: Book, e: Event): Book
  {
    match e
    case Solved(now, candidates, device) =>
      b.(attempts := Pruned(b.attempts + [Attempt(now, candidates, device)], now),
         candidates := b.candidates + candidates,
         devices := if device < |b.devices|
                    then b.devices[device := b.devices[device].(candidates := b.devices[device].candidates + candidates,
                                                                attempts := b.devices[device].attempts + 1)]
                    else b.devices)
    case Submitted(job, now, origin, device) =>
      b.(submits := Newest(b.submits + [Pending(job, now, TargetOf(b, origin), origin, device)], SUBMIT_CAP))
    case ShareFound(units, now, origin, device) =>
      var logged := b.(found := Newest(b.found + [Found(now, units, TargetOf(b, origin), origin.Dev?)], RECENT_SHARES));
      if origin.Dev? then logged
      else
        logged.(best := if units > b.best then units else b.best,
                devices := if device < |b.devices| && units > b.devices[device].best
                           then b.devices[device := b.devices[device].(best := units)]
                           else b.devices)
    case Answered(code, now, origin) =>
      var counted := if origin.Dev? then b.(fee := Counted(b.fee, code)) else b.(user := Counted(b.user, code));
      var k := FirstOf(b.submits, origin);
      if k == |b.submits| then counted
      else
        var p := b.submits[k];
        var popped := counted.(submits := b.submits[..k] + b.submits[k + 1..]);
        if origin.Dev? then popped
        else
          popped.(banked := if code == 1 then b.banked + p.units else b.banked,
                  devices := CountedOn(b.devices, p.device, code),
                  latency := Milliseconds(now - p.t))
    case JobSet(id, units, origin) =>
      if origin.Dev? then b.(feeUnits := units) else b.(jobId := id, jobUnits := units)
    case Labelled(labels) => b.(devices := NewDevices(if labels == [] then ["GPU 0"] else labels))
  }

  function Books(es: seq<Event>): Book
    decreases |es|
  {
    if es == [] then Fresh() else Record(Books(es[..|es| - 1]), es[|es| - 1])
  }

  // ---- windows -------------------------------------------------------------------------------

  /** Attempts no older than w. */
  function Within(attempts: seq<Attempt>, now: int, w: int): seq<Attempt>
    decreases |attempts|
  {
    if attempts == [] then []
    else
      var before, a := Within(attempts[..|attempts| - 1], now, w), attempts[|attempts| - 1];
      if now - a.t <= w then before + [a] else before
  }

  function OfDevice(attempts: seq<Attempt>, device: nat): seq<Attempt>
    decreases |attempts|
  {
    if attempts == [] then []
    else
      var before, a := OfDevice(attempts[..|attempts| - 1], device), attempts[|attempts| - 1];
      if a.device == device then before + [a] else before
  }

  function Candidates(attempts: seq<Attempt>): nat
    decreases |attempts|
  {
    if attempts == [] then 0 else Candidates(attempts[..|attempts| - 1]) + attempts[|attempts| - 1].candidates
  }

  /** What snapshot() counts before dividing by the window lengths. */
  datatype Windows = Windows(cand15: nat, cand60: nat, n60: nat, dev15: seq<nat>, dev60: seq<nat>, devn60: seq<nat>)

  ghost predicate AreWindows(w: Windows, attempts: seq<Attempt>, now: int, devices: nat)
  {
    && w.cand15 == Candidates(Within(attempts, now, 15 * SECOND))
    && w.cand60 == Candidates(Within(attempts, now, 60 * SECOND))
    && w.n60 == |Within(attempts, now, 60 * SECOND)|
    && |w.dev15| == |w.dev60| == |w.devn60| == devices
    && forall d :: 0 <= d < devices ==>
         && w.dev15[d] == Candidates(OfDevice(Within(attempts, now, 15 * SECOND), d))
         && w.dev60[d] == Candidates(OfDevice(Within(attempts, now, 60 * SECOND), d))
         && w.devn60[d] == |OfDevice(Within(attempts, now, 60 * SECOND), d)|
  }

  /** Nothing attempted but this one: the effect of one loop round on a window and its totals. */
  lemma OneMore(attempts: seq<Attempt>, k: nat, now: int, w: int, d: nat)
    requires k < |attempts|
    ensures var before, after, a := Within(attempts[..k], now, w), Within(attempts[..k + 1], now, w), attempts[k];
      var inside := now - a.t <= w;
      && after == (if inside then before + [a] else before)
      && Candidates(after) == Candidates(before) + (if inside then a.candidates else 0)
      && OfDevice(after, d) == (if inside && a.device == d then OfDevice(before, d) + [a] else OfDevice(before, d))
      && Candidates(OfDevice(after, d)) == Candidates(OfDevice(before, d)) + (if inside && a.device == d then a.candidates else 0)
  {
    var before, a := Within(attempts[..k], now, w), attempts[k];
    assert attempts[..k + 1][..k] == attempts[..k];
    assert (before + [a])[..|before|] == before;
    assert (OfDevice(before, d) + [a])[..|OfDevice(before, d)|] == OfDevice(before, d);
  }

  // ---- the store ------------------------------------------------------------------------------

  class Stats {
    var attempts: seq<Attempt>
    var candidates: nat
    var submits: seq<Pending>
    var found: seq<Found>
    var accepted: nat
    var stale: nat
    var rejected: nat
    var banked: real
    var best: real
    var latency: int
    var jobId: string
    var jobUnits: real
    var devices: seq<Device>
    var feeAccepted: nat
    var feeStale: nat
    var feeRejected: nat
    var feeUnits: real

    function AsBook(): Book
      reads this
    {
      Book(attempts, candidates, submits, found, Verdicts(accepted, stale, rejected), banked, best, latency,
           jobId, jobUnits, devices, Verdicts(feeAccepted, feeStale, feeRejected), feeUnits)
    }

    constructor ()
      ensures AsBook() == Fresh()
    {
      attempts, candidates, submits, found := [], 0, [], [];
      accepted, stale, rejected, banked, best, latency := 0, 0, 0, 0.0, 0.0, -1;
      jobId, jobUnits := "", 0.0;
      devices := [NewDevice("GPU 0")];
      feeAccepted, feeStale, feeRejected, feeUnits := 0, 0, 0, 0.0;
    }

    method PruneAttempts(now: int)
      modifies `attempts
      ensures attempts == Pruned(old(attempts), now)
    {
      while attempts != [] && now - attempts[0].t > PRUNE_AGE
        invariant Pruned(attempts, now) == Pruned(old(attempts), now)
        decreases |attempts|
      {
        attempts := attempts[1..];
      }
    }

    method RecordAttempt(n: nat, device: nat, now: int)
      modifies this
      ensures AsBook() == Record(old(AsBook()), Solved(now, n, device))
    {
      attempts := attempts + [Attempt(now, n, device)];
      candidates := candidates + n;
      if device < |devices| {
        var d := devices[device];
        devices := devices[device := d.(candidates := d.candidates + n, attempts := d.attempts + 1)];
      }
      PruneAttempts(now);
    }

    method RecordSubmit(job: string, origin: Origin, device: nat, now: int)
      modifies this
      ensures AsBook() == Record(old(AsBook()), Submitted(job, now, origin, device))
    {
      hide Newest;
      var units := if origin.Dev? then feeUnits else jobUnits;
      submits := submits + [Pending(job, now, units, origin, device)];
      TrimSubmits();
    }

    method TrimSubmits()
      modifies `submits
      ensures submits == Newest(old(submits), SUBMIT_CAP)
    {
      while |submits| > SUBMIT_CAP
        invariant |submits| <= |old(submits)| && submits == old(submits)[|old(submits)| - |submits|..]
        invariant |old(submits)| <= SUBMIT_CAP ==> submits == old(submits)
        invariant |old(submits)| > SUBMIT_CAP ==> |submits| >= SUBMIT_CAP
        decreases |submits|
      {
        submits := submits[1..];
      }
    }

    method TrimFound()
      modifies `found
      ensures found == Newest(old(found), RECENT_SHARES)
    {
      while |found| > RECENT_SHARES
        invariant |found| <= |old(found)| && found == old(found)[|old(found)| - |found|..]
        invariant |old(found)| <= RECENT_SHARES ==> found == old(found)
        invariant |old(found)| > RECENT_SHARES ==> |found| >= RECENT_SHARES
        decreases |found|
      {
        found := found[1..];
      }
    }

    method RecordShareFound(units: real, origin: Origin, device: nat, now: int)
      modifies this
      ensures AsBook() == Record(old(AsBook()), ShareFound(units, now, origin, device))
    {
      hide Newest;
      var target := if origin.Dev? then feeUnits else jobUnits;
      found := found + [Found(now, units, target, origin.Dev?)];
      TrimFound();
      if !origin.Main? { return; }
      if units > best { best := units; }
      if device < |devices| && units > devices[device].best {
        devices := devices[device := devices[device].(best := units)];
      }
    }

    method CountVerdict(code: int, origin: Origin)
      modifies `accepted, `stale, `rejected, `feeAccepted, `feeStale, `feeRejected
      ensures AsBook() == if origin.Dev? then old(AsBook()).(fee := Counted(old(AsBook()).fee, code))
                          else old(AsBook()).(user := Counted(old(AsBook()).user, code))
    {
      if origin.Dev? {
        if code == 1 { feeAccepted := feeAccepted + 1; }
        else if code == 3 { feeStale := feeStale + 1; }
        else { feeRejected := feeRejected + 1; }
      } else {
        if code == 1 { accepted := accepted + 1; }
        else if code == 3 { stale := stale + 1; }
        else { rejected := rejected + 1; }
      }
    }

    method CountOnDevice(code: int, k: nat)
      requires k < |devices|
      modifies `devices
      ensures devices == CountedOn(old(devices), k, code)
    {
      var d := devices[k];
      if code == 1 { d := d.(accepted := d.accepted + 1); }
      else if code == 3 { d := d.(stale := d.stale + 1); }
      else { d := d.(rejected := d.rejected + 1); }
      devices := devices[k := d];
    }

    /** Remove and return the oldest pending submit of this origin. */
    method PopPending(origin: Origin) returns (popped: Option<Pending>)
      modifies `submits
      ensures var q, k := old(submits), FirstOf(old(submits), origin);
        if k == |q| then popped == None && submits == q
        else popped == Some(q[k]) && submits == q[..k] + q[k + 1..]
    {
      var it := 0;
      while it < |submits| && submits[it].origin != origin
        invariant 0 <= it <= |submits|
        invariant forall j :: 0 <= j < it ==> submits[j].origin != origin
      {
        it := it + 1;
      }
      assert it == FirstOf(submits, origin);
      if it == |submits| { return None; }
      popped := Some(submits[it]);
      submits := submits[..it] + submits[it + 1..];
    }

    method RecordResult(code: int, origin: Origin, now: int)
      modifies this
      ensures AsBook() == Record(old(AsBook()), Answered(code, now, origin))
    {
      hide Counted, CountedOn, FirstOf, Milliseconds;
      CountVerdict(code, origin);
      var popped := PopPending(origin);
      if popped.None? || origin.Dev? { return; }
      var p := popped.value;
      if code == 1 { banked := banked + p.units; }
      if p.device < |devices| {
        CountOnDevice(code, p.device);
      } else {
        NoSuchDevice(devices, p.device, code);
      }
      latency := Milliseconds(now - p.t);
    }

    method RecordJob(id: string, units: real, origin: Origin)
      modifies this
      ensures AsBook() == Record(old(AsBook()), JobSet(id, units, origin))
    {
      if origin.Dev? {
        feeUnits := units;
        return;
      }
      jobId, jobUnits := id, units;
    }

    method SetDeviceLabels(labels: seq<string>)
      modifies this
      ensures AsBook() == Record(old(AsBook()), Labelled(labels))
    {
      var ls := if labels == [] then ["GPU 0"] else labels;
      devices := [];
      for i := 0 to |ls|
        invariant |devices| == i && forall j :: 0 <= j < i ==> devices[j] == NewDevice(ls[j])
        modifies `devices
      {
        devices := devices + [NewDevice(ls[i])];
      }
      assert devices == NewDevices(ls);
    }

    method AttemptedWithin(age: int, now: int) returns (b: bool)
      ensures b <==> attempts != [] && now - attempts[|attempts| - 1].t <= age
    {
      if attempts == [] { return false; }
      return now - attempts[|attempts| - 1].t <= age;
    }

    /** The counting loop of snapshot(). */
    method CountWindows(now: int) returns (w: Windows)
      ensures AreWindows(w, attempts, now, |devices|)
    {
      hide Within, OfDevice, Candidates;
      var zeros := seq(|devices|, _ => 0);
      w := Windows(0, 0, 0, zeros, zeros, zeros);
      EmptyWindows(now);
      assert attempts[..0] == [];
      for k := 0 to |attempts|
        invariant AreWindows(w, attempts[..k], now, |devices|)
      {
        var a := attempts[k];
        ghost var before := w;
        var in60, in15 := now - a.t <= 60 * SECOND, now - a.t <= 15 * SECOND;
        if in60 { w := w.(cand60 := w.cand60 + a.candidates, n60 := w.n60 + 1); }
        if in15 { w := w.(cand15 := w.cand15 + a.candidates); }
        if a.device < |devices| {
          if in60 {
            w := w.(dev60 := w.dev60[a.device := w.dev60[a.device] + a.candidates],
                    devn60 := w.devn60[a.device := w.devn60[a.device] + 1]);
          }
          if in15 { w := w.(dev15 := w.dev15[a.device := w.dev15[a.device] + a.candidates]); }
        }
        OneMore(attempts, k, now, 15 * SECOND, 0);
        OneMore(attempts, k, now, 60 * SECOND, 0);
        forall d | 0 <= d < |devices|
          ensures w.dev15[d] == Candidates(OfDevice(Within(attempts[..k + 1], now, 15 * SECOND), d))
          ensures w.dev60[d] == Candidates(OfDevice(Within(attempts[..k + 1], now, 60 * SECOND), d))
          ensures w.devn60[d] == |OfDevice(Within(attempts[..k + 1], now, 60 * SECOND), d)|
        {
          OneMore(attempts, k, now, 15 * SECOND, d);
          OneMore(attempts, k, now, 60 * SECOND, d);
        }
      }
      assert attempts[..|attempts|] == attempts;
    }
  }

  lemma NoSuchDevice(devices: seq<Device>, k: nat, code: int)
    ensures k >= |devices| ==> CountedOn(devices, k, code) == devices
  {
  }

  lemma EmptyWindows(now: int)
    ensures forall w :: Within([], now, w) == []
    ensures forall d :: OfDevice([], d) == []
    ensures Candidates([]) == 0
  {
  }
}
