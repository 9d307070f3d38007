/**
  run_pipeline_rowbucket (src/gpu/round_pipeline.cpp) and what it should compute.

  Kernels are opaque functions of what is visible in the buffers the host binds; the host's
  choice of buffers, the order of fills and launches, the abort points and the throws are
  modelled as written.
 */
module Pipeline {
  import opened Numbers
  import opened RecordSets
  import opened Selections

  type PrePow = seq<nat>
  type Ref = nat
  type Candidate = seq<nat>

  datatype RoundOutput = RoundOutput(children: seq<Child>, refs: seq<Ref>)

  datatype FinalOutput = FinalOutput(survivors: seq<nat>, refs: seq<Ref>)

  datatype Kernels = Kernels(
    prepow: (seq<nat>, nat) -> PrePow,                     // BLAKE2b of (input, nonce)
    entry: (PrePow, nat) -> Child,                         // round1_mix_scatter_fat, one seed index
    round: (nat, PrePow, View) -> RoundOutput,             // round_fused_*, r = 1..4
    final: View -> FinalOutput,                            // round5_fused_lds
    recover: (seq<seq<Ref>>, View, seq<nat>) -> seq<Candidate>,
    valid: (seq<nat>, nat, Candidate) -> bool)             // bh3::is_valid_solution

  /**
    What alloc_pipeline settled: the geometry of set 0 and how many buckets of set 1 are in its
    first half, seed count, batch size, record format, spec set present.
   */
  datatype Config = Config(g: Geometry, half1: nat, total: nat, batch: nat, octo: bool, specOn: bool) {
    ghost predicate Valid() {
      // An octo rung is an arena rung and an arena rung allocates no spec set
      // (RowBucketAlloc.OctoNeverSpeculates).
      g.nb > 0 && batch > 0 && (octo ==> !specOn) && (specOn ==> g.pool == 0)
    }

    /** Geometry of ping-pong set i; each set is split on its own. */
    function G(i: nat): (s: Geometry)
      ensures s.nb == g.nb && s.pool == g.pool && s.cap == g.cap
    {
      if i == 0 then g else g.(half := half1)
    }
  }

  datatype Device = Device(sets: seq<RecordSet>, spec: RecordSet, rows: seq<seq<Ref>>)

  ghost predicate FitsDevice(cfg: Config, d: Device)
  {
    |d.sets| == 2 && |d.rows| == 5
    && Fits(cfg.G(0), d.sets[0]) && Fits(cfg.G(1), d.sets[1]) && Fits(cfg.G(0), d.spec)
  }

  // ---- the search itself: no buffers, no speculation ---------------------------------------

  function EntryChildren(k: Kernels, pp: PrePow, begin: nat, count: nat): (cs: seq<Child>)
    ensures |cs| == count
    ensures forall j :: 0 <= j < count ==> cs[j] == k.entry(pp, begin + j)
  {
    seq(count, j requires 0 <= j < count => k.entry(pp, begin + j))
  }

  /** Two batches back to back are one batch. */
  lemma EntryBatches(k: Kernels, pp: PrePow, begin: nat, count: nat)
    ensures EntryChildren(k, pp, 0, begin) + EntryChildren(k, pp, begin, count) == EntryChildren(k, pp, 0, begin + count)
  {
    var a, b, c := EntryChildren(k, pp, 0, begin), EntryChildren(k, pp, begin, count), EntryChildren(k, pp, 0, begin + count);
    forall j | 0 <= j < begin + count ensures (a + b)[j] == c[j] {
      if j >= begin {
        assert (a + b)[j] == b[j - begin];
      }
    }
  }

  /** The entry output of one prePow: all seeds scattered into an empty set. */
  function EntryView(k: Kernels, cfg: Config, pp: PrePow): (v: View)
    requires cfg.Valid()
    ensures |v| == cfg.g.nb
  {
    AppendAll(cfg.G(0), Empty(cfg.G(0)), EntryChildren(k, pp, 0, cfg.total))
  }

  /** What round r's output set shows. */
  function RoundView(k: Kernels, cfg: Config, pp: PrePow, r: nat): (v: View)
    requires cfg.Valid() && r <= 4
    ensures |v| == cfg.g.nb
  {
    if r == 0 then EntryView(k, cfg, pp)
    else AppendAll(cfg.G(r % 2), Empty(cfg.G(r % 2)), k.round(r, pp, RoundView(k, cfg, pp, r - 1)).children)
  }

  lemma RoundViewStep(k: Kernels, cfg: Config, pp: PrePow, r: nat)
    requires cfg.Valid() && 1 <= r <= 4
    ensures RoundView(k, cfg, pp, 0) == EntryView(k, cfg, pp)
    ensures RoundView(k, cfg, pp, r)
         == AppendAll(cfg.G(r % 2), Empty(cfg.G(r % 2)), k.round(r, pp, RoundView(k, cfg, pp, r - 1)).children)
  {
  }

  function RoundRefs(k: Kernels, cfg: Config, pp: PrePow, r: nat): seq<Ref>
    requires cfg.Valid() && 1 <= r <= 4
  {
    k.round(r, pp, RoundView(k, cfg, pp, r - 1)).refs
  }

  function FinalOf(k: Kernels, cfg: Config, pp: PrePow): FinalOutput
    requires cfg.Valid()
  {
    k.final(RoundView(k, cfg, pp, 4))
  }

  /** Back-reference rows as written by this prePow's search: octo builds keep rows 4 and 5 only. */
  function SearchRows(k: Kernels, cfg: Config, pp: PrePow): (rows: seq<seq<Ref>>)
    requires cfg.Valid()
    ensures |rows| == if cfg.octo then 2 else 5
  {
    if cfg.octo then [RoundRefs(k, cfg, pp, 4), FinalOf(k, cfg, pp).refs]
    else [RoundRefs(k, cfg, pp, 1), RoundRefs(k, cfg, pp, 2), RoundRefs(k, cfg, pp, 3),
          RoundRefs(k, cfg, pp, 4), FinalOf(k, cfg, pp).refs]
  }

  function Candidates(k: Kernels, cfg: Config, pp: PrePow): seq<Candidate>
    requires cfg.Valid()
  {
    k.recover(SearchRows(k, cfg, pp), if cfg.octo then RoundView(k, cfg, pp, 3) else [], FinalOf(k, cfg, pp).survivors)
  }

  /** What is_valid_solution says of each candidate of one attempt. */
  function Accepts(k: Kernels, input: seq<nat>, nonce: nat): Candidate -> bool
  {
    x => k.valid(input, nonce, x)
  }

  function Gated(k: Kernels, input: seq<nat>, nonce: nat, cand: seq<Candidate>): seq<Candidate>
  {
    Picked(cand, Accepts(k, input, nonce))
  }

  /** The gate returns the valid candidates and no others, as often and in the order recovered. */
  ghost predicate GateKeeps(k: Kernels, input: seq<nat>, nonce: nat, cand: seq<Candidate>, found: seq<Candidate>)
  {
    && (forall x :: multiset(found)[x] == if k.valid(input, nonce, x) then multiset(cand)[x] else 0)
    && IsSelection(cand, Accepts(k, input, nonce), found)
  }

  lemma GatedKeeps(k: Kernels, input: seq<nat>, nonce: nat, cand: seq<Candidate>)
    ensures GateKeeps(k, input, nonce, cand, Gated(k, input, nonce, cand))
  {
    hide Picked, IsSelection;
    PickedIsSelection(cand, Accepts(k, input, nonce));
    forall x ensures multiset(Gated(k, input, nonce, cand))[x] == if k.valid(input, nonce, x) then multiset(cand)[x] else 0 {
      PickedCounts(cand, Accepts(k, input, nonce), x);
    }
  }

  /**
    The whole search, stage by stage: every seed once into set 0; each round reads the level
    below and fills the other set; recovery sees every round's rows, or on an octo build the
    last two and level 3.
   */
  lemma SearchSpelledOut(k: Kernels, cfg: Config, pp: PrePow)
    requires cfg.Valid()
    ensures var g0, g1 := cfg.g, cfg.g.(half := cfg.half1);
      var v0 := AppendAll(g0, Empty(g0), seq(cfg.total, j requires 0 <= j < cfg.total => k.entry(pp, j)));
      var o1 := k.round(1, pp, v0);
      var v1 := AppendAll(g1, Empty(g1), o1.children);
      var o2 := k.round(2, pp, v1);
      var v2 := AppendAll(g0, Empty(g0), o2.children);
      var o3 := k.round(3, pp, v2);
      var v3 := AppendAll(g1, Empty(g1), o3.children);
      var o4 := k.round(4, pp, v3);
      var v4 := AppendAll(g0, Empty(g0), o4.children);
      var last := k.final(v4);
      && FinalOf(k, cfg, pp) == last
      && RoundView(k, cfg, pp, 0) == v0 && RoundView(k, cfg, pp, 3) == v3
      && Candidates(k, cfg, pp) ==
           (if cfg.octo then k.recover([o4.refs, last.refs], v3, last.survivors)
            else k.recover([o1.refs, o2.refs, o3.refs, o4.refs, last.refs], [], last.survivors))
  {
    hide AppendAll, Empty;
    assert EntryChildren(k, pp, 0, cfg.total) == seq(cfg.total, j requires 0 <= j < cfg.total => k.entry(pp, j));
    RoundViewStep(k, cfg, pp, 1);
    RoundViewStep(k, cfg, pp, 2);
    RoundViewStep(k, cfg, pp, 3);
    RoundViewStep(k, cfg, pp, 4);
  }

  /** What a solver that never speculates returns for one (input, nonce). */
  function Reference(k: Kernels, cfg: Config, input: seq<nat>, nonce: nat): seq<Candidate>
    requires cfg.Valid()
  {
    var pp := k.prepow(input, nonce);
    if FinalOf(k, cfg, pp).survivors == [] then []
    else Gated(k, input, nonce, Candidates(k, cfg, pp))
  }

  // ---- what can cut a call short -------------------------------------------------------------

  /** A throw from the runtime just before `stage`, leaving the device buffers in any state. */
  datatype Fault = NoFault | FaultAt(stage: nat, left: Device)

  /**
    One call. `aborts[r - 1]` is what the poll after round r reads; the flag is set by other
    threads at any moment, so every pattern is possible. Stages: 0 entry, 1..4 the rounds,
    5 the terminal round and its readback, 6 recovery. Recovery never binds the spec set,
    so a throw there leaves that set as it was.
   */
  datatype Call = Call(input: seq<nat>, nonce: nat, aborts: seq<bool>, fault: Fault) {
    predicate Throws(stage: nat) { fault.FaultAt? && fault.stage == stage }

    ghost predicate Valid(cfg: Config) {
      && |aborts| == 4 && nonce < TWO64
      && (fault.FaultAt? ==> FitsDevice(cfg, fault.left))
    }
  }

  datatype Fate = Finished | Aborted | Threw

  /** How a call that is about to run round r ends its pipeline. */
  function FateFrom(c: Call, r: nat): Fate
    requires |c.aborts| == 4 && 1 <= r <= 5
    decreases 5 - r
  {
    if c.Throws(r) then Threw
    else if r == 5 then Finished
    else if c.aborts[r - 1] then Aborted
    else FateFrom(c, r + 1)
  }

  function FateOf(c: Call): Fate
    requires |c.aborts| == 4
  {
    if c.Throws(0) then Threw else FateFrom(c, 1)
  }

  /** Round r's kernel is launched: nothing threw or aborted before it. */
  predicate Launches(c: Call, r: nat)
    requires |c.aborts| == 4 && 1 <= r <= 5
  {
    && !c.Throws(0)
    && (forall q :: 1 <= q <= r ==> !c.Throws(q))
    && (forall q :: 0 <= q < r - 1 ==> !c.aborts[q])
  }

  lemma LaunchesMeans(c: Call)
    requires |c.aborts| == 4
    ensures (forall q :: 0 <= q < 5 ==> !c.Throws(q)) && (forall q :: 0 <= q < 3 ==> !c.aborts[q]) ==> Launches(c, 4)
    ensures forall q :: 0 <= q < 5 && c.Throws(q) ==> !Launches(c, 4)
    ensures forall q :: 0 <= q < 3 && c.aborts[q] ==> !Launches(c, 4)
  {
  }

  /** Having launched round r, the rest of the fate is decided after it. */
  lemma {:induction false} FateAfter(c: Call, r: nat)
    requires |c.aborts| == 4 && 1 <= r <= 5
    requires forall q :: 0 <= q < r - 1 ==> !c.aborts[q]
    requires forall q :: 0 <= q < r ==> !c.Throws(q)
    ensures FateOf(c) == FateFrom(c, r)
  {
    if r > 1 {
      FateAfter(c, r - 1);
    }
  }

  lemma ThrewAt(c: Call, r: nat)
    requires |c.aborts| == 4 && r <= 5 && c.Throws(r)
    requires r > 0 ==> FateOf(c) == FateFrom(c, r)
    ensures FateOf(c) == Threw
  {
  }

  lemma AbortedAt(c: Call, r: nat)
    requires |c.aborts| == 4 && 1 <= r <= 4 && !c.Throws(r) && c.aborts[r - 1]
    requires FateOf(c) == FateFrom(c, r)
    ensures FateOf(c) == Aborted
  {
  }

  lemma FinishedAt(c: Call)
    requires |c.aborts| == 4 && !c.Throws(5)
    requires forall q :: 0 <= q < 5 ==> !c.Throws(q)
    requires forall q :: 0 <= q < 4 ==> !c.aborts[q]
    ensures FateOf(c) == Finished
  {
    FateAfter(c, 5);
  }

  /** The poll after round r is the first that reads a set flag, and nothing threw before it. */
  predicate CutAfter(c: Call, r: nat)
    requires |c.aborts| == 4 && 1 <= r <= 4
  {
    c.aborts[r - 1] && (forall q :: 0 <= q < r - 1 ==> !c.aborts[q]) && (forall q :: 0 <= q <= r ==> !c.Throws(q))
  }

  /** How a call ends, in terms of what the polls read and where the runtime threw. */
  lemma FateMeans(c: Call)
    requires |c.aborts| == 4
    ensures FateOf(c) == Finished <==> (forall q :: 0 <= q < 4 ==> !c.aborts[q]) && (forall q :: 0 <= q <= 5 ==> !c.Throws(q))
    ensures FateOf(c) == Aborted <==> exists r :: 1 <= r <= 4 && CutAfter(c, r)
    ensures FateOf(c) == Aborted ==> (Launches(c, 4) <==> CutAfter(c, 4))
  {
    assert FateFrom(c, 4) == if c.Throws(4) then Threw else if c.aborts[3] then Aborted else if c.Throws(5) then Threw else Finished;
    assert FateFrom(c, 2) == if c.Throws(2) then Threw else if c.aborts[1] then Aborted
                             else if c.Throws(3) then Threw else if c.aborts[2] then Aborted else FateFrom(c, 4);
    if exists r :: 1 <= r <= 4 && CutAfter(c, r) {
    } else {
      assert !CutAfter(c, 1) && !CutAfter(c, 2) && !CutAfter(c, 3) && !CutAfter(c, 4);
    }
  }
}
