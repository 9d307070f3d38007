/**
  GpuSolver::solve (src/gpu/gpu_solver.cpp): the speculative entry cache.

  Round 4 of one solve seeds the entry output of the nonce the engine is expected to try
  next; the next solve skips its own entry pass when the guess was right. The solver below
  is the imperative original; the theorem is that no call can tell whether it speculates.
 */
module GpuSolver {
  import opened Numbers
  import opened RecordSets
  import opened Pipeline
  import opened Selections

  datatype Outcome = Solutions(found: seq<Candidate>) | Exception

  /** What a call must return, whatever happened in the calls before it. */
  ghost function Expected(k: Kernels, cfg: Config, c: Call): Outcome
    requires cfg.Valid() && c.Valid(cfg)
  {
    match FateOf(c)
    case Threw => Exception
    case Aborted => Solutions([])
    case Finished =>
      if FinalOf(k, cfg, k.prepow(c.input, c.nonce)).survivors != [] && c.Throws(6) then Exception
      else Solutions(Reference(k, cfg, c.input, c.nonce))
  }

  /**
    The answer in terms of the search: a throw anywhere is an exception; an abort finds
    nothing; otherwise every recovered candidate the verifier accepts is returned, and no other.
   */
  lemma ExpectedMeans(k: Kernels, cfg: Config, c: Call)
    requires cfg.Valid() && c.Valid(cfg)
    ensures var pp, out := k.prepow(c.input, c.nonce), Expected(k, cfg, c);
      && (out.Exception? <==> FateOf(c) == Threw || (FateOf(c) == Finished && FinalOf(k, cfg, pp).survivors != [] && c.Throws(6)))
      && (out.Solutions? ==> forall x :: x in out.found ==> k.valid(c.input, c.nonce, x))
      && (out.Solutions? && (FateOf(c) == Aborted || FinalOf(k, cfg, pp).survivors == []) ==> out.found == [])
      && (out.Solutions? && FateOf(c) == Finished && FinalOf(k, cfg, pp).survivors != [] ==>
            GateKeeps(k, c.input, c.nonce, Candidates(k, cfg, pp), out.found))
  {
    hide FateOf, FinalOf, Candidates, Gated;
    var pp, out := k.prepow(c.input, c.nonce), Expected(k, cfg, c);
    var cand := Candidates(k, cfg, pp);
    GatedKeeps(k, c.input, c.nonce, cand);
    forall x | out.Solutions? && x in out.found ensures k.valid(c.input, c.nonce, x) {
      assert multiset(out.found)[x] > 0;
    }
  }

  /** The solver's own fields, apart from device memory. */
  datatype Host = Host(
    specValid: bool, specHit: bool, haveLast: bool, haveDelta: bool,
    specNonce: nat, lastNonce: nat, learnedDelta: nat,
    specInput: seq<nat>, lastInput: seq<nat>)

  /** Subtraction and addition of 64-bit nonces. */
  function Sub64(a: nat, b: nat): nat { (a - b) % TWO64 }

  function Add64(a: nat, b: nat): nat { (a + b) % TWO64 }

  predicate Hits(h: Host, c: Call)
  {
    h.specValid && h.specNonce == c.nonce && h.specInput == c.input
  }

  /** The fields once the call has learned the stride and consumed the previous prediction. */
  function Predicted(cfg: Config, h: Host, c: Call): Host
  {
    var sameJob := h.haveLast && h.lastInput == c.input;
    Host(false, Hits(h, c) && cfg.specOn, true, h.haveDelta || sameJob, h.specNonce, c.nonce,
         if sameJob then Sub64(c.nonce, h.lastNonce) else h.learnedDelta, h.specInput, c.input)
  }

  /** The state machine of one call, on the host fields alone. */
  function NextHost(cfg: Config, h: Host, c: Call): Host
    requires |c.aborts| == 4
  {
    var p := Predicted(cfg, h, c);
    if cfg.specOn && p.haveDelta && Launches(c, 4) && FateOf(c) != Threw then
      p.(specValid := true, specNonce := Add64(c.nonce, p.learnedDelta), specInput := c.input)
    else p
  }

  const INITIAL_HOST := Host(false, false, false, false, 0, 0, 0, [], [])

  function WriteRow(row: seq<Ref>, refs: seq<Ref>): (row': seq<Ref>)
    ensures |refs| <= |row'| && row'[..|refs|] == refs
  {
    refs + if |row| > |refs| then row[|refs|..] else []
  }

  /** The written part of each back-reference row, all that a recovery walk reaches. */
  function ReadRows(rows: seq<seq<Ref>>, lens: seq<nat>): (r: seq<seq<Ref>>)
    requires |lens| <= |rows| && forall i :: 0 <= i < |lens| ==> lens[i] <= |rows[i]|
    ensures |r| == |lens| && forall i :: 0 <= i < |lens| ==> r[i] == rows[i][..lens[i]]
  {
    seq(|lens|, i requires 0 <= i < |lens| => rows[i][..lens[i]])
  }

  class Solver {
    const k: Kernels
    const cfg: Config

    var dev: Device
    var specValid: bool
    var specHit: bool
    var haveLast: bool
    var haveDelta: bool
    var specNonce: nat
    var lastNonce: nat
    var learnedDelta: nat
    var specInput: seq<nat>
    var lastInput: seq<nat>

    function AsHost(): Host
      reads this
    {
      Host(specValid, specHit, haveLast, haveDelta, specNonce, lastNonce, learnedDelta, specInput, lastInput)
    }

    /** A valid prediction names exactly what the spec set shows. */
    ghost predicate Inv()
      reads this
    {
      && cfg.Valid() && FitsDevice(cfg, dev)
      && (specValid ==> cfg.specOn && Visible(cfg.G(0), dev.spec) == EntryView(k, cfg, k.prepow(specInput, specNonce)))
    }

    constructor (k: Kernels, cfg: Config, dev: Device)
      requires cfg.Valid() && FitsDevice(cfg, dev)
      ensures Inv() && this.k == k && this.cfg == cfg && AsHost() == INITIAL_HOST
    {
      this.k, this.cfg, this.dev := k, cfg, dev;
      specValid, specHit, haveLast, haveDelta := false, false, false, false;
      specNonce, lastNonce, learnedDelta := 0, 0, 0;
      specInput, lastInput := [], [];
    }

    /** The entry pass into `s`, in batches of the seed range. */
    method Entry(pp: PrePow, s0: RecordSet) returns (s: RecordSet)
      requires cfg.Valid() && Fits(cfg.G(0), s0)
      ensures Fits(cfg.G(0), s) && Visible(cfg.G(0), s) == EntryView(k, cfg, pp)
    {
      hide AppendAll, Visible, Clear, Link, Scatter, EntryChildren, Fits, Empty;
      FreshScatterVisible(cfg.G(0), s0, EntryChildren(k, pp, 0, cfg.total));
      s := Clear(cfg.G(0), s0);
      ghost var cleared := s;
      NothingEnteredYet(pp, cleared);
      var begin := 0;
      while begin < cfg.total
        invariant begin <= cfg.total && Fits(cfg.G(0), s)
        invariant s == Scatter(cfg.G(0), cleared, EntryChildren(k, pp, 0, begin))
        decreases cfg.total - begin
      {
        var count := if cfg.total - begin < cfg.batch then cfg.total - begin else cfg.batch;
        OneMoreBatch(pp, cleared, begin, count);
        s := Scatter(cfg.G(0), s, EntryChildren(k, pp, begin, count));
        begin := begin + count;
      }
      s := Link(cfg.G(0), s);
    }

    lemma NothingEnteredYet(pp: PrePow, s: RecordSet)
      requires cfg.Valid() && Fits(cfg.G(0), s)
      ensures Scatter(cfg.G(0), s, EntryChildren(k, pp, 0, 0)) == s
    {
    }

    lemma OneMoreBatch(pp: PrePow, s: RecordSet, begin: nat, count: nat)
      requires cfg.Valid() && Fits(cfg.G(0), s)
      ensures Scatter(cfg.G(0), Scatter(cfg.G(0), s, EntryChildren(k, pp, 0, begin)), EntryChildren(k, pp, begin, count))
           == Scatter(cfg.G(0), s, EntryChildren(k, pp, 0, begin + count))
    {
      hide Scatter, Fits, EntryChildren;
      EntryBatches(k, pp, begin, count);
      ScatterConcat(cfg.G(0), s, EntryChildren(k, pp, 0, begin), EntryChildren(k, pp, begin, count));
    }

    /**
      The rows the finished rounds wrote: round q's at q - 1, or, on an octo build, round 4's
      at 0 and no others.
     */
    ghost predicate RowsWritten(pp: PrePow, lens: seq<nat>, r: nat)
      requires cfg.Valid() && FitsDevice(cfg, dev) && 1 <= r <= 5
      reads this
    {
      && |lens| == (if cfg.octo then (if r == 5 then 1 else 0) else r - 1)
      && forall i :: 0 <= i < |lens| ==>
           && lens[i] <= |dev.rows[i]|
           && dev.rows[i][..lens[i]] == RoundRefs(k, cfg, pp, if cfg.octo then 4 else i + 1)
    }

    /** Round r: zero the output set's counters, launch, flip; round 4 may host the next entry. */
    method RunRound(pp: PrePow, r: nat, inSet: nat, cob: bool, nextPp: PrePow, lens0: seq<nat>) returns (lens: seq<nat>)
      requires cfg.Valid() && FitsDevice(cfg, dev) && 1 <= r <= 4 && inSet == (r - 1) % 2
      requires Visible(cfg.G(inSet), if r == 1 && cfg.specOn then dev.spec else dev.sets[inSet]) == RoundView(k, cfg, pp, r - 1)
      requires cob ==> r == 4 && cfg.specOn
      requires RowsWritten(pp, lens0, r)
      modifies this`dev
      ensures FitsDevice(cfg, dev)
      ensures Visible(cfg.G(1 - inSet), dev.sets[1 - inSet]) == RoundView(k, cfg, pp, r)
      ensures dev.sets[inSet] == old(dev.sets[inSet])
      ensures RowsWritten(pp, lens, r + 1)
      ensures if cob then Visible(cfg.G(0), dev.spec) == EntryView(k, cfg, nextPp) else dev.spec == old(dev.spec)
    {
      hide RoundView, Visible, AppendAll, Scatter, Clear, Link, ZeroCounts, EntryChildren, Empty, Fits;
      var outSet := 1 - inSet;
      var src := if r == 1 && cfg.specOn then dev.spec else dev.sets[inSet];
      RoundViewStep(k, cfg, pp, r);
      var out := k.round(r, pp, Visible(cfg.G(inSet), src));
      FreshScatterVisible(cfg.G(outSet), dev.sets[outSet], out.children);
      var cleared := Clear(cfg.G(outSet), dev.sets[outSet]);
      var spec := dev.spec;
      if cob {
        // After round 1 read the counters on the in-order queue, before the co-blocks refill them.
        FreshScatterVisible(cfg.G(0), dev.spec, EntryChildren(k, nextPp, 0, cfg.total));
        NoPool(cfg.G(0), dev.spec);
        spec := ZeroCounts(spec);
      }
      var sets := dev.sets[outSet := Link(cfg.G(outSet), Scatter(cfg.G(outSet), cleared, out.children))];
      var rows := dev.rows;
      lens := lens0;
      if !cfg.octo || r == 4 {
        var row := if cfg.octo then 0 else r - 1;
        rows := rows[row := WriteRow(rows[row], out.refs)];
        lens := lens + [|out.refs|];
      }
      if cob {
        spec := Scatter(cfg.G(0), spec, EntryChildren(k, nextPp, 0, cfg.total));
        NoPool(cfg.G(0), spec);
      }
      dev := Device(sets, spec, rows);
    }

    /** Before round r: its input set shows the level below, and the rows so far are written. */
    ghost predicate Before(pp: PrePow, r: nat, inSet: nat, lens: seq<nat>)
      reads this
    {
      && cfg.Valid() && FitsDevice(cfg, dev) && 1 <= r <= 5 && inSet == (r - 1) % 2
      && Visible(cfg.G(inSet), if r == 1 && cfg.specOn then dev.spec else dev.sets[inSet]) == RoundView(k, cfg, pp, r - 1)
      && (r >= 4 ==> Visible(cfg.G(1), dev.sets[1]) == RoundView(k, cfg, pp, 3))
      && RowsWritten(pp, lens, r)
    }

    /** The entry pass, unless the spec set already holds its output. */
    method EnterSeeds(pp: PrePow, hit: bool)
      requires cfg.Valid() && FitsDevice(cfg, dev)
      requires cfg.specOn && hit ==> Visible(cfg.G(0), dev.spec) == EntryView(k, cfg, pp)
      modifies this`dev
      ensures Before(pp, 1, 0, [])
    {
      hide Visible, EntryView, Fits, RoundView, RowsWritten;
      // The entry's destination is the spec set under speculation, set 0 otherwise.
      if !(cfg.specOn && hit) {
        if cfg.specOn {
          var s := Entry(pp, dev.spec);
          dev := dev.(spec := s);
        } else {
          var s := Entry(pp, dev.sets[0]);
          dev := dev.(sets := dev.sets[0 := s]);
        }
      }
      RoundViewStep(k, cfg, pp, 1);
      NoRowsYet(pp);
    }

    method Advance(pp: PrePow, r: nat, inSet: nat, cob: bool, nextPp: PrePow, lens0: seq<nat>) returns (lens: seq<nat>)
      requires Before(pp, r, inSet, lens0) && r <= 4 && (cob ==> r == 4 && cfg.specOn)
      modifies this`dev
      ensures FitsDevice(cfg, dev) && Before(pp, r + 1, 1 - inSet, lens)
      ensures cob ==> Visible(cfg.G(0), dev.spec) == EntryView(k, cfg, nextPp)
    {
      hide Visible, EntryView, Fits, RoundView, RowsWritten;
      lens := RunRound(pp, r, inSet, cob, nextPp, lens0);
    }

    /** The terminal round reads the last level and writes its own back-reference row. */
    method TerminalRound(pp: PrePow, lens0: seq<nat>) returns (survivors: seq<nat>, lens: seq<nat>)
      requires Before(pp, 5, 0, lens0)
      modifies this`dev
      ensures FitsDevice(cfg, dev) && dev.spec == old(dev.spec)
      ensures survivors == FinalOf(k, cfg, pp).survivors
      ensures |lens| <= |dev.rows| && forall i :: 0 <= i < |lens| ==> lens[i] <= |dev.rows[i]|
      ensures ReadRows(dev.rows, lens) == SearchRows(k, cfg, pp)
      ensures Visible(cfg.G(1), dev.sets[1]) == RoundView(k, cfg, pp, 3)
    {
      hide RoundView, Visible, SearchRows, ReadRows, RowsWritten, Fits, FinalOf;
      var last := k.final(Visible(cfg.G(0), dev.sets[0]));
      LastRow(pp, lens0, last.refs);
      var row := if cfg.octo then 1 else 4;
      dev := dev.(rows := dev.rows[row := WriteRow(dev.rows[row], last.refs)]);
      survivors, lens := last.survivors, lens0 + [|last.refs|];
    }

    method RunPipeline(pp: PrePow, hit: bool, seedNext: bool, nextPp: PrePow, c: Call)
      returns (fate: Fate, seeded: bool, survivors: seq<nat>, lens: seq<nat>)
      requires cfg.Valid() && FitsDevice(cfg, dev) && c.Valid(cfg)
      requires cfg.specOn && hit ==> Visible(cfg.G(0), dev.spec) == EntryView(k, cfg, pp)
      modifies this`dev
      ensures FitsDevice(cfg, dev)
      ensures fate == FateOf(c)
      ensures fate != Threw ==> (seeded <==> cfg.specOn && seedNext && Launches(c, 4))
      ensures fate != Threw && seeded ==> Visible(cfg.G(0), dev.spec) == EntryView(k, cfg, nextPp)
      ensures fate == Finished ==>
        && survivors == FinalOf(k, cfg, pp).survivors
        && |lens| <= |dev.rows| && (forall i :: 0 <= i < |lens| ==> lens[i] <= |dev.rows[i]|)
        && ReadRows(dev.rows, lens) == SearchRows(k, cfg, pp)
        && Visible(cfg.G(1), dev.sets[1]) == RoundView(k, cfg, pp, 3)
    {
      hide RoundView, EntryView, Visible, FateFrom, FateOf, Launches, SearchRows, ReadRows, Before, Fits, FinalOf;
      seeded, survivors, lens := false, [], [];
      LaunchesMeans(c);
      if c.Throws(0) {
        ThrewAt(c, 0);
        dev := c.fault.left;
        fate := Threw;
        return;
      }
      EnterSeeds(pp, hit);
      BeforeFits(pp, 1, 0, []);

      var inSet := 0;
      var r := 1;
      while r <= 4
        invariant 1 <= r <= 5 && FitsDevice(cfg, dev) && inSet == (r - 1) % 2 && Before(pp, r, inSet, lens)
        invariant seeded <==> r == 5 && cfg.specOn && seedNext
        invariant seeded ==> Visible(cfg.G(0), dev.spec) == EntryView(k, cfg, nextPp)
        invariant forall q :: 0 <= q < r ==> !c.Throws(q)
        invariant forall q :: 0 <= q < r - 1 ==> !c.aborts[q]
        decreases 5 - r
      {
        FateAfter(c, r);
        if c.Throws(r) {
          ThrewAt(c, r);
          dev := c.fault.left;
          fate, seeded := Threw, false;
          return;
        }
        var cob := r == 4 && cfg.specOn && seedNext;
        lens := Advance(pp, r, inSet, cob, nextPp, lens);
        seeded := seeded || cob;
        inSet := 1 - inSet;
        if c.aborts[r - 1] {
          AbortedAt(c, r);
          fate := Aborted;
          return;
        }
        r := r + 1;
      }

      FateAfter(c, 5);
      if c.Throws(5) {
        ThrewAt(c, 5);
        dev := c.fault.left;
        fate, seeded := Threw, false;
        return;
      }
      FinishedAt(c);
      survivors, lens := TerminalRound(pp, lens);
      fate := Finished;
    }

    lemma BeforeFits(pp: PrePow, r: nat, inSet: nat, lens: seq<nat>)
      requires Before(pp, r, inSet, lens)
      ensures FitsDevice(cfg, dev)
    {
    }

    lemma NoRowsYet(pp: PrePow)
      requires cfg.Valid() && FitsDevice(cfg, dev)
      ensures RowsWritten(pp, [], 1)
    {
    }

    /** With the terminal round's row written too, recovery reads exactly this search's rows. */
    lemma LastRow(pp: PrePow, lens: seq<nat>, refs: seq<Ref>)
      requires cfg.Valid() && FitsDevice(cfg, dev) && RowsWritten(pp, lens, 5)
      requires refs == k.final(RoundView(k, cfg, pp, 4)).refs
      ensures FinalOf(k, cfg, pp) == k.final(RoundView(k, cfg, pp, 4))
      ensures var row := if cfg.octo then 1 else 4;
        var rows, lens' := dev.rows[row := WriteRow(dev.rows[row], refs)], lens + [|refs|];
        && |lens'| <= |rows| && (forall i :: 0 <= i < |lens'| ==> lens'[i] <= |rows[i]|)
        && ReadRows(rows, lens') == SearchRows(k, cfg, pp)
    {
      hide RoundView, RoundRefs;
      var row := if cfg.octo then 1 else 4;
      var rows, lens' := dev.rows[row := WriteRow(dev.rows[row], refs)], lens + [|refs|];
      forall i | 0 <= i < |lens'| ensures lens'[i] <= |rows[i]| && rows[i][..lens'[i]] == SearchRows(k, cfg, pp)[i] {
      }
    }

    /** Learn the stride from the last call, and consume the prediction made in it. */
    method Predict(c: Call) returns (hit: bool)
      modifies this
      ensures dev == old(dev)
      ensures hit == Hits(old(AsHost()), c)
      ensures AsHost() == Predicted(cfg, old(AsHost()), c)
    {
      var sameJob := haveLast && lastInput == c.input;
      if sameJob {
        learnedDelta, haveDelta := Sub64(c.nonce, lastNonce), true;
      }
      haveLast, lastNonce, lastInput := true, c.nonce, c.input;
      hit := specValid && specNonce == c.nonce && specInput == c.input;
      specHit := hit && cfg.specOn;
      specValid := false;
    }

    method Solve(c: Call) returns (out: Outcome)
      requires Inv() && c.Valid(cfg)
      modifies this
      ensures Inv()
      // The result is the reference search's, hit or miss.
      ensures out == Expected(k, cfg, c)
      // Whatever is returned passed the CPU verifier, and nothing that passes it is dropped.
      ensures out.Solutions? ==> forall x :: x in out.found ==> k.valid(c.input, c.nonce, x)
      ensures var pp := k.prepow(c.input, c.nonce);
        FateOf(c) == Finished && !c.Throws(6) && FinalOf(k, cfg, pp).survivors != [] ==>
          out.Solutions? && GateKeeps(k, c.input, c.nonce, Candidates(k, cfg, pp), out.found)
      ensures AsHost() == NextHost(cfg, old(AsHost()), c)
      // A hit is taken only when the spec set already held this call's entry output.
      ensures specHit ==> old(Visible(cfg.G(0), dev.spec)) == EntryView(k, cfg, k.prepow(c.input, c.nonce))
    {
      hide EntryView, Visible, FateOf, Launches, SearchRows, RoundView, FinalOf, ReadRows, Fits, Gated, GateKeeps, Sub64, Add64;
      ExpectedMeans(k, cfg, c);
      var pp := k.prepow(c.input, c.nonce);
      var hit := Predict(c);
      var seedNext := haveDelta;
      var nextNonce := Add64(c.nonce, learnedDelta);
      var nextPp := if seedNext then k.prepow(c.input, nextNonce) else [];

      var fate, seeded, survivors, lens := RunPipeline(pp, hit, seedNext, nextPp, c);
      if fate == Threw {
        return Exception;
      }
      if seeded {
        specValid, specNonce, specInput := true, nextNonce, c.input;
      }
      if fate == Aborted || survivors == [] {
        return Solutions([]);
      }
      if c.Throws(6) {
        dev := c.fault.left.(spec := dev.spec);
        return Exception;
      }
      var cand := k.recover(ReadRows(dev.rows, lens), if cfg.octo then Visible(cfg.G(1), dev.sets[1]) else [], survivors);
      var found := Gate(c, cand);
      return Solutions(found);
    }

    /** The CPU verify gate: no candidate is exempted, and none that passes is dropped or moved. */
    method Gate(c: Call, cand: seq<Candidate>) returns (found: seq<Candidate>)
      ensures forall x :: multiset(found)[x] == if k.valid(c.input, c.nonce, x) then multiset(cand)[x] else 0
      ensures IsSelection(cand, Accepts(k, c.input, c.nonce), found)
      ensures found == Gated(k, c.input, c.nonce, cand)
    {
      hide IsSelection;
      found := [];
      for i := 0 to |cand|
        invariant found == Gated(k, c.input, c.nonce, cand[..i])
      {
        assert cand[..i + 1][..i] == cand[..i];
        if k.valid(c.input, c.nonce, cand[i]) {
          found := found + [cand[i]];
        }
      }
      assert cand[..|cand|] == cand;
      GatedKeeps(k, c.input, c.nonce, cand);
    }
  }
}
