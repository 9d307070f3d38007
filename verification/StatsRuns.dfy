/** What the metrics store keeps over whole histories (src/miner/stats.cpp). */
module StatsRuns {
  import opened Stats

  /** Every attempt ever recorded. */
  function History(es: seq<Event>): seq<Attempt>
    decreases |es|
  {
    if es == [] then []
    else
      var before, e := History(es[..|es| - 1]), es[|es| - 1];
      if e.Solved? then before + [Attempt(e.now, e.candidates, e.device)] else before
  }

  // ---- the pruned deque against the full history ------------------------------------------------

  /** deque is history without some leading attempts, all of them too old at time now. */
  ghost predicate IsRecentPart(deque: seq<Attempt>, history: seq<Attempt>, now: int)
  {
    exists k :: 0 <= k <= |history| && CutAt(deque, history, now, k)
  }

  ghost predicate CutAt(deque: seq<Attempt>, history: seq<Attempt>, now: int, k: nat)
    requires k <= |history|
  {
    deque == history[k..] && forall i :: 0 <= i < k ==> now - history[i].t > PRUNE_AGE
  }

  lemma {:induction false} PrunedCut(attempts: seq<Attempt>, now: int)
    ensures IsRecentPart(Pruned(attempts, now), attempts, now)
    decreases |attempts|
  {
    if attempts != [] && now - attempts[0].t > PRUNE_AGE {
      PrunedCut(attempts[1..], now);
      var k :| 0 <= k <= |attempts[1..]| && CutAt(Pruned(attempts, now), attempts[1..], now, k);
      CutMoves(Pruned(attempts, now), attempts, now, k);
      assert CutAt(Pruned(attempts, now), attempts, now, k + 1);
    } else {
      assert CutAt(attempts, attempts, now, 0);
    }
  }

  lemma CutMoves(deque: seq<Attempt>, h: seq<Attempt>, now: int, k: nat)
    requires h != [] && k <= |h[1..]| && CutAt(deque, h[1..], now, k) && now - h[0].t > PRUNE_AGE
    ensures CutAt(deque, h, now, k + 1)
  {
    var rest := h[1..];
    forall i | 1 <= i < k + 1 ensures now - h[i].t > PRUNE_AGE {
      assert h[i] == rest[i - 1];
    }
    assert h[k + 1..] == rest[k..];
  }

  /** No recorded time is after now: the clock did not run backwards. */
  predicate ClockBelow(es: seq<Event>, now: int)
  {
    forall i :: 0 <= i < |es| && es[i].Solved? ==> es[i].now <= now
  }

  lemma {:induction false} DequeIsRecentPart(es: seq<Event>, now: int)
    requires ClockBelow(es, now)
    ensures IsRecentPart(Books(es).attempts, History(es), now)
    decreases |es|
  {
    hide Record, Pruned, IsRecentPart;
    if es == [] {
      WholeIsRecent([], now);
    } else {
      var pre, e := es[..|es| - 1], es[|es| - 1];
      DequeIsRecentPart(pre, now);
      RecordAttempts(Books(pre), e);
      if e.Solved? {
        RecentStep(History(pre), Books(pre).attempts, Attempt(e.now, e.candidates, e.device), now);
      }
    }
  }

  lemma WholeIsRecent(h: seq<Attempt>, now: int)
    ensures IsRecentPart(h, h, now)
  {
    assert CutAt(h, h, now, 0);
  }

  lemma RecentStep(h: seq<Attempt>, q: seq<Attempt>, a: Attempt, now: int)
    requires IsRecentPart(q, h, now) && a.t <= now
    ensures IsRecentPart(Pruned(q + [a], a.t), h + [a], now)
  {
    hide Pruned;
    var k :| 0 <= k <= |h| && CutAt(q, h, now, k);
    PrunedCut(q + [a], a.t);
    var j :| 0 <= j <= |q + [a]| && CutAt(Pruned(q + [a], a.t), q + [a], a.t, j);
    CutsCompose(h + [a], q + [a], now, a.t, k, j);
    assert CutAt(Pruned(q + [a], a.t), h + [a], now, k + j);
  }

  lemma CutsCompose(h: seq<Attempt>, q: seq<Attempt>, now: int, earlier: int, k: nat, j: nat)
    requires k <= |h| && CutAt(q, h, now, k) && j <= |q| && earlier <= now
    requires forall i :: 0 <= i < j ==> earlier - q[i].t > PRUNE_AGE
    ensures k + j <= |h| && CutAt(q[j..], h, now, k + j)
  {
    forall i | 0 <= i < k + j ensures now - h[i].t > PRUNE_AGE {
      assert i >= k ==> h[i] == q[i - k];
    }
  }

  lemma {:induction false} OldOnesAreOutside(h: seq<Attempt>, now: int, w: int, k: nat)
    requires k <= |h| && w <= PRUNE_AGE && forall i :: 0 <= i < k ==> now - h[i].t > PRUNE_AGE
    ensures Within(h, now, w) == Within(h[k..], now, w)
    decreases |h|
  {
    if |h| > k {
      var pre := h[..|h| - 1];
      OldOnesAreOutside(pre, now, w, k);
      assert h[k..][..|h| - k - 1] == pre[k..];
    } else if |h| > 0 {
      var pre := h[..|h| - 1];
      OldOnesAreOutside(pre, now, w, |pre|);
    }
  }

  /**
    Every window of up to 15 minutes holds the very attempts it would hold on the unpruned
    history, so every total snapshot() takes from it, rig-wide or per device, is the same.
   */
  lemma WindowsMatchFullHistory(es: seq<Event>, now: int, w: int)
    requires ClockBelow(es, now) && w <= 900 * 1_000_000_000
    ensures Within(Books(es).attempts, now, w) == Within(History(es), now, w)
  {
    DequeIsRecentPart(es, now);
    var h := History(es);
    var k :| 0 <= k <= |h| && CutAt(Books(es).attempts, h, now, k);
    OldOnesAreOutside(h, now, w, k);
  }

  predicate Monotone(h: seq<Attempt>) { forall i, j :: 0 <= i < j < |h| ==> h[i].t <= h[j].t }

  lemma RecordAttempts(b: Book, e: Event)
    ensures Record(b, e).attempts
         == if e.Solved? then Pruned(b.attempts + [Attempt(e.now, e.candidates, e.device)], e.now) else b.attempts
  {
  }

  /** The newest attempt is never pruned. */
  lemma {:induction false} NewestIsKept(es: seq<Event>)
    ensures var h, q := History(es), Books(es).attempts;
      && (h == [] ==> q == [])
      && (h != [] ==> q != [] && q[|q| - 1] == h[|h| - 1])
    decreases |es|
  {
    hide Record, Pruned;
    if es == [] {
    } else {
      var pre, e := es[..|es| - 1], es[|es| - 1];
      NewestIsKept(pre);
      RecordAttempts(Books(pre), e);
      if e.Solved? {
        PrunedKeepsLast(Books(pre).attempts + [Attempt(e.now, e.candidates, e.device)], e.now);
      }
    }
  }

  lemma {:induction false} PrunedKeepsLast(q: seq<Attempt>, now: int)
    requires q != [] && q[|q| - 1].t == now
    ensures Pruned(q, now) != [] && Pruned(q, now)[|Pruned(q, now)| - 1] == q[|q| - 1]
    decreases |q|
  {
    if now - q[0].t > PRUNE_AGE {
      PrunedKeepsLast(q[1..], now);
    }
  }

  /**
    attempted_within, of any age, asks only the newest entry, and with a monotone clock answers
    for the whole history: some attempt was made that recently.
   */
  lemma AttemptedWithinMeans(es: seq<Event>, now: int, age: int)
    requires Monotone(History(es))
    ensures var q := Books(es).attempts;
      (q != [] && now - q[|q| - 1].t <= age) <==> (exists i :: 0 <= i < |History(es)| && now - History(es)[i].t <= age)
  {
    NewestIsKept(es);
    var h, q := History(es), Books(es).attempts;
    if q != [] && now - q[|q| - 1].t <= age {
      assert now - h[|h| - 1].t <= age;
    }
  }

  // ---- candidates are conserved --------------------------------------------------------------------

  /** Attempts since the device rows were last reset. */
  function SinceLabels(es: seq<Event>): seq<Attempt>
    decreases |es|
  {
    if es == [] then []
    else
      var before, e := SinceLabels(es[..|es| - 1]), es[|es| - 1];
      if e.Labelled? then []
      else if e.Solved? then before + [Attempt(e.now, e.candidates, e.device)]
      else before
  }

  /** Attempts of devices that have no row. */
  function OutOfRange(h: seq<Attempt>, n: nat): seq<Attempt>
    decreases |h|
  {
    if h == [] then []
    else
      var before, a := OutOfRange(h[..|h| - 1], n), h[|h| - 1];
      if a.device >= n then before + [a] else before
  }

  /** Candidates over the first n rows, counted from the attempts. */
  function RowTotals(h: seq<Attempt>, n: nat): nat
  {
    if n == 0 then 0 else RowTotals(h, n - 1) + Candidates(OfDevice(h, n - 1))
  }

  lemma AppendedTotals(h: seq<Attempt>, a: Attempt, d: nat)
    ensures Candidates(h + [a]) == Candidates(h) + a.candidates
    ensures OfDevice(h + [a], d) == if a.device == d then OfDevice(h, d) + [a] else OfDevice(h, d)
    ensures OutOfRange(h + [a], d) == if a.device >= d then OutOfRange(h, d) + [a] else OutOfRange(h, d)
  {
    assert (h + [a])[..|h|] == h;
  }

  /** Each row counts exactly its own device's attempts and candidates since the last relabelling. */
  lemma {:induction false} RowsCountTheirDevice(es: seq<Event>, d: nat)
    requires d < |Books(es).devices|
    ensures var h := OfDevice(SinceLabels(es), d);
      Books(es).devices[d].candidates == Candidates(h) && Books(es).devices[d].attempts == |h|
    decreases |es|
  {
    hide OfDevice, Candidates;
    NoAttempts(d);
    if es == [] {
    } else {
      var pre, e := es[..|es| - 1], es[|es| - 1];
      if !e.Labelled? {
        SameRows(Books(pre), e);
        RowsCountTheirDevice(pre, d);
        if e.Solved? {
          var a := Attempt(e.now, e.candidates, e.device);
          AppendedTotals(SinceLabels(pre), a, d);
          AppendedTotals(OfDevice(SinceLabels(pre), d), a, d);
        }
      }
    }
  }

  lemma NoAttempts(d: nat)
    ensures OfDevice([], d) == [] && Candidates([]) == 0
  {
  }

  lemma SameRows(b: Book, e: Event)
    requires !e.Labelled?
    ensures |Record(b, e).devices| == |b.devices|
    ensures !e.Solved? ==> forall d :: 0 <= d < |b.devices| ==>
      Record(b, e).devices[d].candidates == b.devices[d].candidates && Record(b, e).devices[d].attempts == b.devices[d].attempts
  {
  }

  lemma {:induction false} Partition(h: seq<Attempt>, n: nat)
    ensures RowTotals(h, n) + Candidates(OutOfRange(h, n)) == Candidates(h)
    decreases |h|
  {
    hide OfDevice, Candidates, OutOfRange;
    if h == [] {
      EmptyRows(n);
      NoAttempts(n);
    } else {
      var pre, a := h[..|h| - 1], h[|h| - 1];
      assert pre + [a] == h;
      Partition(pre, n);
      AppendedTotals(pre, a, n);
      AppendedTotals(OutOfRange(pre, n), a, n);
      AppendedRows(pre, a, n);
    }
  }

  lemma {:induction false} EmptyRows(n: nat)
    ensures RowTotals([], n) == 0 && Candidates(OutOfRange([], n)) == 0
  {
    if n == 0 {
    } else {
      EmptyRows(n - 1);
      NoAttempts(n - 1);
    }
  }

  lemma {:induction false} AppendedRows(h: seq<Attempt>, a: Attempt, n: nat)
    ensures RowTotals(h + [a], n) == RowTotals(h, n) + if a.device < n then a.candidates else 0
  {
    hide OfDevice, Candidates;
    if n == 0 {
    } else {
      AppendedRows(h, a, n - 1);
      AppendedTotals(h, a, n - 1);
      AppendedTotals(OfDevice(h, n - 1), a, n - 1);
      assert RowTotals(h + [a], n) == RowTotals(h + [a], n - 1) + Candidates(OfDevice(h + [a], n - 1));
    }
  }

  function RowSum(devices: seq<Device>): nat
  {
    if devices == [] then 0 else RowSum(devices[..|devices| - 1]) + devices[|devices| - 1].candidates
  }

  lemma {:induction false} RowSumIs(es: seq<Event>, n: nat)
    requires n <= |Books(es).devices|
    ensures RowSum(Books(es).devices[..n]) == RowTotals(SinceLabels(es), n)
  {
    hide OfDevice, Candidates, Books, SinceLabels;
    if n == 0 {
    } else {
      RowSumIs(es, n - 1);
      RowsCountTheirDevice(es, n - 1);
      assert Books(es).devices[..n][..n - 1] == Books(es).devices[..n - 1];
    }
  }

  lemma {:induction false} RigTotal(es: seq<Event>)
    ensures Books(es).candidates == Candidates(History(es))
    decreases |es|
  {
    hide Candidates;
    NoAttempts(0);
    if es == [] {
    } else {
      var pre, e := es[..|es| - 1], es[|es| - 1];
      RigTotal(pre);
      if e.Solved? {
        AppendedTotals(History(pre), Attempt(e.now, e.candidates, e.device), 0);
      }
    }
  }

  /**
    Nothing goes missing: the rows' candidates plus those of out-of-range devices are all the
    candidates since the rows were labelled, and the rig total is all there ever were.
   */
  lemma CandidatesAreConserved(es: seq<Event>)
    ensures RowSum(Books(es).devices) + Candidates(OutOfRange(SinceLabels(es), |Books(es).devices|))
         == Candidates(SinceLabels(es))
    ensures Books(es).candidates == Candidates(History(es))
  {
    var n := |Books(es).devices|;
    assert Books(es).devices[..n] == Books(es).devices;
    RowSumIs(es, n);
    Partition(SinceLabels(es), n);
    RigTotal(es);
  }
}
