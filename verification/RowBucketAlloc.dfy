/**
  The OpenCL backend's use of the ladder (src/gpu/round_pipeline.cpp): picking a rung,
  checking it, and allocating its buffers. The claim is that the three agree.
 */
module RowBucketAlloc {
  import opened Numbers
  import opened RowBucketGeom

  function Sum(s: seq<nat>): nat { if s == [] then 0 else Sum(s[..|s| - 1]) + s[|s| - 1] }

  ghost predicate AllAtMost(s: seq<nat>, m: nat) { forall i :: 0 <= i < |s| ==> s[i] <= m }

  lemma {:induction false} SumConcat(s: seq<nat>, t: seq<nat>)
    ensures Sum(s + t) == Sum(s) + Sum(t)
    decreases |t|
  {
    if t == [] {
      assert s + t == s;
    } else {
      assert (s + t)[..|s + t| - 1] == s + t[..|t| - 1];
      SumConcat(s, t[..|t| - 1]);
    }
  }

  lemma SumOfFew(a: nat, b: nat, c: nat, d: nat)
    ensures Sum([]) == 0 && Sum([a]) == a && Sum([a, b]) == a + b && Sum([a, b, c, d]) == a + b + c + d
  {
    assert [a][..0] == [] && [a, b][..1] == [a] && [a, b, c][..2] == [a, b] && [a, b, c, d][..3] == [a, b, c];
  }

  lemma AllAtMostConcat(s: seq<nat>, t: seq<nat>, m: nat)
    ensures AllAtMost(s + t, m) <==> AllAtMost(s, m) && AllAtMost(t, m)
  {
    assert forall i :: 0 <= i < |s| ==> (s + t)[i] == s[i];
    assert forall i :: 0 <= i < |t| ==> (s + t)[|s| + i] == t[i];
  }

  /** rb_pick_geometry's question, with the environment overrides unset. */
  function OpenClAsk(capacity: nat, maxAlloc: nat, globalMem: nat, usable: nat): Ask
  {
    Ask(capacity, maxAlloc, if usable != 0 then usable else globalMem, true, 0, true,
        if usable != 0 then 0 else 0x4000_0000, true, true, true, false)
  }

  datatype Alloc = Refused | Allocated(requests: seq<nat>, split0: bool, split1: bool)

  function RecordStride(which: nat, quad: bool, impb: bool, octo: bool): nat
    requires which < 2
  {
    if which == 0 && !quad then 8 else SetStride(which, quad, impb, octo)
  }

  /** Bytes of one set when it goes in whole, and whether the driver's ceiling splits it. */
  function WholeSet(nslots: nat, stride: nat, arenaCap: nat): nat
  {
    MulNonNeg(nslots, stride);
    MulNonNeg(arenaCap, stride);
    nslots * stride * 8 + arenaCap * stride * 8
  }

  function HalfSet(nslots: nat, stride: nat, arenaCap: nat): nat
  {
    WholeSet(nslots / 2, stride, arenaCap)
  }

  /** Footprint bytes the allocation leaves unused. */
  function Spare(r: Rung, split0: bool, split1: bool): nat
  {
    var impb := ImpbOk(r.bb, r.sm, r.quad);
    (if r.arena then 32 else 44)
    + (if split0 then 0 else PoolHalf(r.arena, RecordStride(0, r.quad, impb, r.octo)))
    + (if split1 then 0 else PoolHalf(r.arena, RecordStride(1, r.quad, impb, r.octo)))
  }

  /** One half's share of the overflow pool, in bytes. */
  function PoolHalf(arena: bool, stride: nat): nat { if arena then 32768 * stride * 8 else 0 }

  lemma HalvesMakeWhole(nslots: nat, stride: nat, arenaCap: nat)
    requires nslots % 2 == 0
    ensures WholeSet(nslots, stride, arenaCap) == 8 * (stride * nslots) + 8 * (stride * arenaCap)
    ensures 2 * HalfSet(nslots, stride, arenaCap) == WholeSet(nslots, stride, arenaCap) + 8 * (stride * arenaCap)
  {
    var h := nslots / 2;
    Assoc(2, h, stride);
    Assoc(nslots, stride, 1);
    Assoc(h, stride, 1);
    Assoc(arenaCap, stride, 1);
  }

  // ---- the buffers asked for ------------------------------------------------------------------

  /** One ping-pong set: in halves when the driver's ceiling is below the whole, counters, chain metadata. */
  function SetRequests(nslots: nat, stride: nat, arenaCap: nat, nb: nat, arena: bool, maxAlloc: nat): seq<nat>
  {
    var whole, half := WholeSet(nslots, stride, arenaCap), HalfSet(nslots, stride, arenaCap);
    (if Splits(nslots, stride, arenaCap, maxAlloc) then [half, half] else [whole])
    + ([nb * 4]
       + if arena then [nb * 4, arenaCap * 2 * 4, arenaCap * 2 * 4, 8] else [])
  }

  predicate Splits(nslots: nat, stride: nat, arenaCap: nat, maxAlloc: nat)
  {
    maxAlloc != 0 && WholeSet(nslots, stride, arenaCap) > maxAlloc
  }

  /** Bytes of the side plane that holds what the packed record has no room for. */
  function SidePlane(r: Rung, nslots: nat): nat { if !r.quad && !ImpbOk(r.bb, r.sm, r.quad) then nslots * 8 else 0 }

  function BackrefRows(r: Rung, capacity: nat): nat { ((if r.octo then 1 else 4) * capacity + 1024) * 4 }

  /** Everything that is allocated once. */
  function RestRequests(capacity: nat, r: Rung, nslots: nat): seq<nat>
  {
    (if r.arena then [4] else [])
    + ([4]
       + ((if !r.quad && !ImpbOk(r.bb, r.sm, r.quad) then [nslots * 8] else [])
          + [BackrefRows(r, capacity), BackrefRows(r, capacity)]
          + [16]))
  }

  function Allocation(capacity: nat, r: Rung, maxAlloc: nat): Alloc
  {
    var impb := ImpbOk(r.bb, r.sm, r.quad);
    if r.arena && !r.quad && !impb then Refused
    else
      var n, half := BucketSlots(capacity, r.bb, r.arena), if r.arena then 32768 else 0;
      var s0, s1 := RecordStride(0, r.quad, impb, r.octo), RecordStride(1, r.quad, impb, r.octo);
      Allocated(SetRequests(n, s0, half, Pow2(r.bb), r.arena, maxAlloc)
                + SetRequests(n, s1, half, Pow2(r.bb), r.arena, maxAlloc)
                + RestRequests(capacity, r, n),
                Splits(n, s0, half, maxAlloc), Splits(n, s1, half, maxAlloc))
  }

  /** try_alloc_rowbucket: the buffers are asked for one by one. */
  method TryAllocRowbucket(capacity: nat, r: Rung, maxAlloc: nat) returns (res: Alloc)
    requires 14 <= r.bb <= 17 && (r.octo ==> r.quad)
    ensures res == Allocation(capacity, r, maxAlloc)
    // Refused only for a packed arena rung whose side plane the implicit-bits pack did not fold away.
    ensures res.Refused? <==> r.arena && !r.quad && !ImpbOk(r.bb, r.sm, r.quad)
    // The buffers are the footprint, to the byte, less the spare.
    ensures var fp := RowbucketBytes(capacity, r.bb, r.quad, ImpbOk(r.bb, r.sm, r.quad), r.arena, r.octo, false);
      res.Allocated? ==>
        && Sum(res.requests) + Spare(r, res.split0, res.split1) == fp.total
        && (maxAlloc != 0 && fp.single / 2 <= maxAlloc ==> AllAtMost(res.requests, maxAlloc))
        && (maxAlloc == 0 || fp.single <= maxAlloc ==> !res.split0 && !res.split1)
  {
    hide Pow2, BucketSlots, Isqrt, WholeSet, HalfSet, RowbucketBytes, RecordStride, ImpbOk, SetRequests, Sum, AllAtMost, Spare;
    if Allocation(capacity, r, maxAlloc).Allocated? {
      AllocationIsFootprint(capacity, r, maxAlloc);
      AllocationIsWithin(capacity, r, maxAlloc);
      LargerHalfIsHalfTheSingle(capacity, r);
    }
    var impb := ImpbOk(r.bb, r.sm, r.quad);
    if r.arena && !r.quad && !impb {
      return Refused;
    }
    var nb := Pow2(r.bb);
    var arenaCap := if r.arena then ARENA_SLOTS / 2 else 0;
    var nslots := BucketSlots(capacity, r.bb, r.arena);
    var requests: seq<nat> := [];

    var split0, set0 := AllocSet(nslots, RecordStride(0, r.quad, impb, r.octo), arenaCap, nb, r.arena, maxAlloc);
    var split1, set1 := AllocSet(nslots, RecordStride(1, r.quad, impb, r.octo), arenaCap, nb, r.arena, maxAlloc);
    requests := set0 + set1;
    if r.arena {
      requests := requests + [4];                                    // fb_spill
    }
    requests := requests + [4];                                      // fb_gictr
    if !r.quad && !impb {
      requests := requests + [nslots * 8];                           // fb_side
    }
    var backrefs := ((if r.octo then 1 else 4) * capacity + 1024) * 4;
    requests := requests + [backrefs];                               // left
    requests := requests + [backrefs];                               // right
    requests := requests + [16];                                     // counters
    assert requests == set0 + set1 + RestRequests(capacity, r, nslots);
    res := Allocated(requests, split0, split1);
  }

  /** One ping-pong set with its counters and, on an arena rung, its chain metadata. */
  method AllocSet(nslots: nat, stride: nat, arenaCap: nat, nb: nat, arena: bool, maxAlloc: nat)
    returns (split: bool, requests: seq<nat>)
    ensures split <==> Splits(nslots, stride, arenaCap, maxAlloc)
    ensures requests == SetRequests(nslots, stride, arenaCap, nb, arena, maxAlloc)
  {
    hide WholeSet, HalfSet;
    var bytes := WholeSet(nslots, stride, arenaCap);
    split := maxAlloc != 0 && bytes > maxAlloc;
    if split {
      requests := [HalfSet(nslots, stride, arenaCap)];
      requests := requests + [HalfSet(nslots, stride, arenaCap)];
    } else {
      requests := [bytes];
    }
    requests := requests + [nb * 4];                                 // fb_counts
    if arena {
      requests := requests + [nb * 4];                               // fb_ahead
      requests := requests + [arenaCap * 2 * 4];                     // fb_anext
      requests := requests + [arenaCap * 2 * 4];                     // fb_atag
      requests := requests + [8];                                    // fb_actr
    }
  }

  lemma SetRequestsMean(nslots: nat, stride: nat, arenaCap: nat, nb: nat, arena: bool, maxAlloc: nat)
    ensures Sum(SetRequests(nslots, stride, arenaCap, nb, arena, maxAlloc))
         == (if Splits(nslots, stride, arenaCap, maxAlloc) then 2 * HalfSet(nslots, stride, arenaCap) else WholeSet(nslots, stride, arenaCap))
            + nb * 4 + (if arena then nb * 4 + 2 * (arenaCap * 2 * 4) + 8 else 0)
  {
    hide WholeSet, HalfSet, Sum;
    var whole, half := WholeSet(nslots, stride, arenaCap), HalfSet(nslots, stride, arenaCap);
    var body := if Splits(nslots, stride, arenaCap, maxAlloc) then [half, half] else [whole];
    var meta := if arena then [nb * 4, arenaCap * 2 * 4, arenaCap * 2 * 4, 8] else [];
    SumOfFew(whole, 0, 0, 0);
    SumOfFew(half, half, 0, 0);
    SumOfFew(nb * 4, arenaCap * 2 * 4, arenaCap * 2 * 4, 8);
    SumConcat([nb * 4], meta);
    SumConcat(body, [nb * 4] + meta);
  }

  lemma SetRequestsAtMost(nslots: nat, stride: nat, arenaCap: nat, nb: nat, arena: bool, maxAlloc: nat, m: nat)
    ensures AllAtMost(SetRequests(nslots, stride, arenaCap, nb, arena, maxAlloc), m) <==>
      && (if Splits(nslots, stride, arenaCap, maxAlloc) then HalfSet(nslots, stride, arenaCap) else WholeSet(nslots, stride, arenaCap)) <= m
      && nb * 4 <= m && (arena ==> arenaCap * 2 * 4 <= m && 8 <= m)
  {
    hide WholeSet, HalfSet;
    var whole, half := WholeSet(nslots, stride, arenaCap), HalfSet(nslots, stride, arenaCap);
    var body := if Splits(nslots, stride, arenaCap, maxAlloc) then [half, half] else [whole];
    var meta := if arena then [nb * 4, arenaCap * 2 * 4, arenaCap * 2 * 4, 8] else [];
    assert body[0] == if Splits(nslots, stride, arenaCap, maxAlloc) then half else whole;
    assert arena ==> meta[0] == nb * 4 && meta[1] == arenaCap * 2 * 4 && meta[3] == 8;
    AllAtMostConcat([nb * 4], meta, m);
    AllAtMostConcat(body, [nb * 4] + meta, m);
    assert [nb * 4][0] == nb * 4;
  }

  lemma RestRequestsMean(capacity: nat, r: Rung, nslots: nat)
    ensures Sum(RestRequests(capacity, r, nslots))
         == (if r.arena then 4 else 0) + 4 + SidePlane(r, nslots) + 2 * BackrefRows(r, capacity) + 16
  {
    hide Sum, BackrefRows, ImpbOk;
    var b := BackrefRows(r, capacity);
    var side := if !r.quad && !ImpbOk(r.bb, r.sm, r.quad) then [nslots * 8] else [];
    SumOfFew(4, 0, 0, 0);
    SumOfFew(16, 0, 0, 0);
    SumOfFew(nslots * 8, 0, 0, 0);
    SumOfFew(b, b, 0, 0);
    SumConcat(side, [b, b]);
    SumConcat(side + [b, b], [16]);
    SumConcat([4], side + [b, b] + [16]);
    SumConcat(if r.arena then [4] else [], [4] + (side + [b, b] + [16]));
  }

  lemma RestRequestsAtMost(capacity: nat, r: Rung, nslots: nat, m: nat)
    ensures AllAtMost(RestRequests(capacity, r, nslots), m)
       <==> 16 <= m && SidePlane(r, nslots) <= m && BackrefRows(r, capacity) <= m
  {
    hide BackrefRows, ImpbOk;
    var b := BackrefRows(r, capacity);
    var side := if !r.quad && !ImpbOk(r.bb, r.sm, r.quad) then [nslots * 8] else [];
    AllAtMostConcat(side, [b, b], m);
    AllAtMostConcat(side + [b, b], [16], m);
    AllAtMostConcat([4], side + [b, b] + [16], m);
    AllAtMostConcat(if r.arena then [4] else [], [4] + (side + [b, b] + [16]), m);
    assert [b, b][0] == b && [16][0] == 16;
    assert side != [] ==> side[0] == nslots * 8;
  }

  /** What the requests of a rung sum to, in terms of its sets. */
  lemma AllocationSum(capacity: nat, r: Rung, maxAlloc: nat)
    requires Allocation(capacity, r, maxAlloc).Allocated?
    ensures var impb, n, half := ImpbOk(r.bb, r.sm, r.quad), BucketSlots(capacity, r.bb, r.arena), if r.arena then 32768 else 0;
      var s0, s1, res := RecordStride(0, r.quad, impb, r.octo), RecordStride(1, r.quad, impb, r.octo), Allocation(capacity, r, maxAlloc);
      Sum(res.requests)
           == (if res.split0 then 2 * HalfSet(n, s0, half) else WholeSet(n, s0, half))
              + (if res.split1 then 2 * HalfSet(n, s1, half) else WholeSet(n, s1, half))
              + 2 * (Pow2(r.bb) * 4 + if r.arena then Pow2(r.bb) * 4 + 2 * (half * 2 * 4) + 8 else 0)
              + (if r.arena then 4 else 0) + 4 + SidePlane(r, n) + 2 * BackrefRows(r, capacity) + 16
  {
    hide Pow2, BucketSlots, WholeSet, HalfSet, RecordStride, ImpbOk, SetRequests, RestRequests, Sum, SidePlane, BackrefRows, Splits;
    var impb, n, half := ImpbOk(r.bb, r.sm, r.quad), BucketSlots(capacity, r.bb, r.arena), if r.arena then 32768 else 0;
    var s0, s1 := RecordStride(0, r.quad, impb, r.octo), RecordStride(1, r.quad, impb, r.octo);
    var a, b := SetRequests(n, s0, half, Pow2(r.bb), r.arena, maxAlloc), SetRequests(n, s1, half, Pow2(r.bb), r.arena, maxAlloc);
    SetRequestsMean(n, s0, half, Pow2(r.bb), r.arena, maxAlloc);
    SetRequestsMean(n, s1, half, Pow2(r.bb), r.arena, maxAlloc);
    RestRequestsMean(capacity, r, n);
    SumConcat(a, b);
    SumConcat(a + b, RestRequests(capacity, r, n));
  }

  /** When every request of a rung is within m. */
  lemma AllocationAtMost(capacity: nat, r: Rung, maxAlloc: nat, m: nat)
    requires Allocation(capacity, r, maxAlloc).Allocated?
    ensures var impb, n, half := ImpbOk(r.bb, r.sm, r.quad), BucketSlots(capacity, r.bb, r.arena), if r.arena then 32768 else 0;
      var s0, s1, res := RecordStride(0, r.quad, impb, r.octo), RecordStride(1, r.quad, impb, r.octo), Allocation(capacity, r, maxAlloc);
      AllAtMost(res.requests, m) <==>
           && (if res.split0 then HalfSet(n, s0, half) else WholeSet(n, s0, half)) <= m
           && (if res.split1 then HalfSet(n, s1, half) else WholeSet(n, s1, half)) <= m
           && Pow2(r.bb) * 4 <= m && (r.arena ==> half * 2 * 4 <= m && 8 <= m)
           && 16 <= m && SidePlane(r, n) <= m && BackrefRows(r, capacity) <= m
  {
    hide Pow2, BucketSlots, WholeSet, HalfSet, RecordStride, ImpbOk, SetRequests, RestRequests, AllAtMost, SidePlane, BackrefRows, Splits;
    var impb, n, half := ImpbOk(r.bb, r.sm, r.quad), BucketSlots(capacity, r.bb, r.arena), if r.arena then 32768 else 0;
    var s0, s1 := RecordStride(0, r.quad, impb, r.octo), RecordStride(1, r.quad, impb, r.octo);
    var a, b := SetRequests(n, s0, half, Pow2(r.bb), r.arena, maxAlloc), SetRequests(n, s1, half, Pow2(r.bb), r.arena, maxAlloc);
    SetRequestsAtMost(n, s0, half, Pow2(r.bb), r.arena, maxAlloc, m);
    SetRequestsAtMost(n, s1, half, Pow2(r.bb), r.arena, maxAlloc, m);
    RestRequestsAtMost(capacity, r, n, m);
    AllAtMostConcat(a, b, m);
    AllAtMostConcat(a + b, RestRequests(capacity, r, n), m);
  }

  /** A set's halves with half its share of the side plane: what the ceiling has to hold at least. */
  function LargerHalf(capacity: nat, r: Rung): nat
  {
    var impb, n, half := ImpbOk(r.bb, r.sm, r.quad), BucketSlots(capacity, r.bb, r.arena), if r.arena then 32768 else 0;
    var h0 := HalfSet(n, RecordStride(0, r.quad, impb, r.octo), half) + SidePlane(r, n) / 2;
    var h1 := HalfSet(n, RecordStride(1, r.quad, impb, r.octo), half);
    if h0 > h1 then h0 else h1
  }

  /** The footprint's largest-buffer figure is twice the larger half. */
  lemma LargerHalfIsHalfTheSingle(capacity: nat, r: Rung)
    requires 14 <= r.bb <= 17 && (r.octo ==> r.quad)
    requires !(r.arena && !r.quad && !ImpbOk(r.bb, r.sm, r.quad))
    ensures RowbucketBytes(capacity, r.bb, r.quad, ImpbOk(r.bb, r.sm, r.quad), r.arena, r.octo, false).single == 2 * LargerHalf(capacity, r)
  {
    hide Pow2, BucketSlots, Isqrt, HalfSet, WholeSet, RowbucketBytes, ImpbOk;
    var nslots, arenaCap := BucketSlots(capacity, r.bb, r.arena), if r.arena then 32768 else 0;
    SlotsCoverCapacity(capacity, r.bb, r.arena);
    PlainBytes(capacity, r.bb, r.quad, ImpbOk(r.bb, r.sm, r.quad), r.arena, r.octo);
    if !r.quad {
      HalvesMakeWhole(nslots, 8, arenaCap);
    } else if !r.octo {
      HalvesMakeWhole(nslots, 3, arenaCap);
      HalvesMakeWhole(nslots, 8, arenaCap);
    } else {
      HalvesMakeWhole(nslots, 2, arenaCap);
      HalvesMakeWhole(nslots, 4, arenaCap);
    }
  }

  /** What the allocation adds up to. */
  lemma AllocationIsFootprint(capacity: nat, r: Rung, maxAlloc: nat)
    requires 14 <= r.bb <= 17 && (r.octo ==> r.quad)
    requires Allocation(capacity, r, maxAlloc).Allocated?
    ensures var res, fp := Allocation(capacity, r, maxAlloc),
                           RowbucketBytes(capacity, r.bb, r.quad, ImpbOk(r.bb, r.sm, r.quad), r.arena, r.octo, false);
      Sum(res.requests) + Spare(r, res.split0, res.split1) == fp.total
  {
    hide Pow2, BucketSlots, Isqrt, WholeSet, HalfSet, Sum, RowbucketBytes, RecordStride, ImpbOk, PoolHalf, Splits;
    var nslots := BucketSlots(capacity, r.bb, r.arena);
    BucketCounts();
    SlotsCoverCapacity(capacity, r.bb, r.arena);
    TotalOfSets(capacity, r, nslots);
    SetsFitTheSingle(capacity, r, nslots);
    AllocationSum(capacity, r, maxAlloc);
  }

  /** When its buffers are within the driver's ceiling. */
  lemma AllocationIsWithin(capacity: nat, r: Rung, maxAlloc: nat)
    requires 14 <= r.bb <= 17 && (r.octo ==> r.quad)
    requires Allocation(capacity, r, maxAlloc).Allocated?
    ensures var res, half := Allocation(capacity, r, maxAlloc), LargerHalf(capacity, r);
      && (maxAlloc != 0 && half <= maxAlloc ==> AllAtMost(res.requests, maxAlloc))
      && (maxAlloc == 0 || 2 * half <= maxAlloc ==> !res.split0 && !res.split1)
      && (maxAlloc != 0 && (r.quad || ImpbOk(r.bb, r.sm, r.quad)) && AllAtMost(res.requests, maxAlloc) ==> half <= maxAlloc)
  {
    hide Pow2, BucketSlots, Isqrt, WholeSet, HalfSet, AllAtMost, RowbucketBytes, RecordStride, ImpbOk;
    var nslots := BucketSlots(capacity, r.bb, r.arena);
    BucketCounts();
    SlotsCoverCapacity(capacity, r.bb, r.arena);
    SetsFitTheSingle(capacity, r, nslots);
    SmallBuffersFitTheSingle(capacity, r, nslots);
    LargerHalfIsHalfTheSingle(capacity, r);
    AllocationAtMost(capacity, r, maxAlloc, maxAlloc);
    PoolIsPart(nslots, RecordStride(0, r.quad, ImpbOk(r.bb, r.sm, r.quad), r.octo), r.arena);
    PoolIsPart(nslots, RecordStride(1, r.quad, ImpbOk(r.bb, r.sm, r.quad), r.octo), r.arena);
  }

  lemma PoolIsPart(nslots: nat, stride: nat, arena: bool)
    ensures PoolHalf(arena, stride) <= WholeSet(nslots, stride, if arena then 32768 else 0)
  {
    MulNonNeg(nslots, stride);
  }

  /** The footprint and the set sizes in the same terms. */
  lemma TotalOfSets(capacity: nat, r: Rung, nslots: nat)
    requires 14 <= r.bb <= 17 && (r.octo ==> r.quad)
    requires nslots == BucketSlots(capacity, r.bb, r.arena) && nslots % 2 == 0
    requires !(r.arena && !r.quad && !ImpbOk(r.bb, r.sm, r.quad))
    ensures var impb := ImpbOk(r.bb, r.sm, r.quad);
      var arenaCap := if r.arena then 32768 else 0;
      var s0, s1 := RecordStride(0, r.quad, impb, r.octo), RecordStride(1, r.quad, impb, r.octo);
      RowbucketBytes(capacity, r.bb, r.quad, impb, r.arena, r.octo, false).total
        == WholeSet(nslots, s0, arenaCap) + PoolHalf(r.arena, s0) + WholeSet(nslots, s1, arenaCap) + PoolHalf(r.arena, s1)
           + (if !r.quad && !impb then nslots * 8 else 0)
           + 2 * (Pow2(r.bb) * 4) + 2 * (((if r.octo then 1 else 4) * capacity + 1024) * 4)
           + (if r.arena then 2 * (Pow2(r.bb) * 4 + 2 * 65536 * 4 + 4) else 0) + 64
  {
    hide Pow2, BucketSlots, Isqrt, HalfSet, WholeSet, RowbucketBytes, ImpbOk;
    var arenaCap := if r.arena then 32768 else 0;
    PlainBytes(capacity, r.bb, r.quad, ImpbOk(r.bb, r.sm, r.quad), r.arena, r.octo);
    if !r.quad {
      HalvesMakeWhole(nslots, 8, arenaCap);
    } else if !r.octo {
      HalvesMakeWhole(nslots, 3, arenaCap);
      HalvesMakeWhole(nslots, 8, arenaCap);
    } else {
      HalvesMakeWhole(nslots, 2, arenaCap);
      HalvesMakeWhole(nslots, 4, arenaCap);
    }
  }

  lemma SetsFitTheSingle(capacity: nat, r: Rung, nslots: nat)
    requires 14 <= r.bb <= 17 && (r.octo ==> r.quad)
    requires nslots == BucketSlots(capacity, r.bb, r.arena) && nslots % 2 == 0
    requires nslots >= capacity + 31 * Pow2(r.bb)
    requires !(r.arena && !r.quad && !ImpbOk(r.bb, r.sm, r.quad))
    ensures var impb := ImpbOk(r.bb, r.sm, r.quad);
      var arenaCap := if r.arena then 32768 else 0;
      var s0, s1 := RecordStride(0, r.quad, impb, r.octo), RecordStride(1, r.quad, impb, r.octo);
      var single := RowbucketBytes(capacity, r.bb, r.quad, impb, r.arena, r.octo, false).single;
      && 2 * HalfSet(nslots, s0, arenaCap) == WholeSet(nslots, s0, arenaCap) + PoolHalf(r.arena, s0)
      && 2 * HalfSet(nslots, s1, arenaCap) == WholeSet(nslots, s1, arenaCap) + PoolHalf(r.arena, s1)
      && WholeSet(nslots, s0, arenaCap) + PoolHalf(r.arena, s0) <= single
      && WholeSet(nslots, s1, arenaCap) + PoolHalf(r.arena, s1) <= single
  {
    hide Pow2, BucketSlots, Isqrt, HalfSet, WholeSet, RowbucketBytes, ImpbOk;
    BucketCounts();
    PlainBytes(capacity, r.bb, r.quad, ImpbOk(r.bb, r.sm, r.quad), r.arena, r.octo);
    var arenaCap := if r.arena then 32768 else 0;
    if !r.quad {
      HalvesMakeWhole(nslots, 8, arenaCap);
    } else if !r.octo {
      HalvesMakeWhole(nslots, 3, arenaCap);
      HalvesMakeWhole(nslots, 8, arenaCap);
    } else {
      HalvesMakeWhole(nslots, 2, arenaCap);
      HalvesMakeWhole(nslots, 4, arenaCap);
    }
  }

  /** The buffers that never split: the side plane, a back-reference row, counters and arena metadata. */
  lemma SmallBuffersFitTheSingle(capacity: nat, r: Rung, nslots: nat)
    requires 14 <= r.bb <= 17 && (r.octo ==> r.quad)
    requires nslots == BucketSlots(capacity, r.bb, r.arena)
    requires nslots >= capacity + 31 * Pow2(r.bb)
    ensures var impb := ImpbOk(r.bb, r.sm, r.quad);
      var single := RowbucketBytes(capacity, r.bb, r.quad, impb, r.arena, r.octo, false).single;
      && (!r.quad && !impb ==> nslots * 8 <= single / 2)
      && ((if r.octo then 1 else 4) * capacity + 1024) * 4 <= single / 2
      && Pow2(r.bb) * 4 <= single / 2 && 16 <= single / 2
      && (r.arena ==> 65536 * 4 <= single / 2)
  {
    hide Pow2, BucketSlots, Isqrt, RowbucketBytes, ImpbOk;
    BucketCounts();
    PlainBytes(capacity, r.bb, r.quad, ImpbOk(r.bb, r.sm, r.quad), r.arena, r.octo);
  }

  // ---- ladder, check and allocator --------------------------------------------------------------

  /**
    The device can hold the rung's buffers with `slack` bytes to spare: no half of a set, with
    half its side plane, is above the ceiling for one buffer, and all of them together with the
    spare are within the memory. 0 means no such limit.
   */
  predicate BuffersFit(capacity: nat, r: Rung, maxAlloc: nat, memory: nat, slack: nat)
  {
    var res := Allocation(capacity, r, maxAlloc);
    && res.Allocated?
    && (maxAlloc == 0 || LargerHalf(capacity, r) <= maxAlloc)
    && (memory == 0 || Sum(res.requests) + Spare(r, res.split0, res.split1) + slack <= memory)
  }

  /** The ladder's arithmetic accepts a rung exactly when the buffers the allocator would ask for fit. */
  lemma RungFitsIffBuffersFit(capacity: nat, maxAlloc: nat, globalMem: nat, usable: nat, r: Rung)
    requires r in RUNGS && Allocation(capacity, r, maxAlloc).Allocated?
    ensures RungFits(OpenClAsk(capacity, maxAlloc, globalMem, usable), r)
       <==> (if usable != 0 then BuffersFit(capacity, r, maxAlloc, usable, 0)
             else BuffersFit(capacity, r, maxAlloc, globalMem, 0x4000_0000))
  {
    hide RungFootprint, BindingSingle, RowbucketBytes, Sum, Allocation, LargerHalf, Spare, ImpbOk;
    var a := OpenClAsk(capacity, maxAlloc, globalMem, usable);
    RungShape(r);
    FootprintOf(a, r);
    HalfSetBinds(a, r);
    AllocatedMeans(capacity, r, maxAlloc);
    LargerHalfIsHalfTheSingle(capacity, r);
    AllocationIsFootprint(capacity, r, maxAlloc);
  }

  lemma AllocatedMeans(capacity: nat, r: Rung, maxAlloc: nat)
    ensures Allocation(capacity, r, maxAlloc).Refused? <==> r.arena && !r.quad && !ImpbOk(r.bb, r.sm, r.quad)
  {
  }

  /** The first n rungs of the ladder that the allocator accepts at all do not fit the device. */
  ghost predicate NoBuffersFit(capacity: nat, maxAlloc: nat, memory: nat, slack: nat, n: nat)
    requires n <= |RUNGS|
  {
    forall i :: 0 <= i < n && Allocation(capacity, RUNGS[i], maxAlloc).Allocated? ==>
      !BuffersFit(capacity, RUNGS[i], maxAlloc, memory, slack)
  }

  lemma NothingFitsOnBuffers(capacity: nat, maxAlloc: nat, globalMem: nat, usable: nat, n: nat)
    requires n <= |RUNGS| && NothingFits(OpenClAsk(capacity, maxAlloc, globalMem, usable), n)
    ensures if usable != 0 then NoBuffersFit(capacity, maxAlloc, usable, 0, n)
            else NoBuffersFit(capacity, maxAlloc, globalMem, 0x4000_0000, n)
  {
    hide RungFits, BuffersFit, Allocation;
    var a := OpenClAsk(capacity, maxAlloc, globalMem, usable);
    forall i | 0 <= i < n && Allocation(capacity, RUNGS[i], maxAlloc).Allocated?
      ensures !(if usable != 0 then BuffersFit(capacity, RUNGS[i], maxAlloc, usable, 0)
                else BuffersFit(capacity, RUNGS[i], maxAlloc, globalMem, 0x4000_0000))
    {
      assert Offered(a, RUNGS[i]);
      RungFitsIffBuffersFit(capacity, maxAlloc, globalMem, usable, RUNGS[i]);
    }
  }

  /**
    rb_pick_geometry: the first rung, from the top of the ladder, whose buffers the device can
    hold -- against the usable figure as it is, or the card's total less a gigabyte.
   */
  method PickGeometry(capacity: nat, maxAlloc: nat, globalMem: nat, usable: nat) returns (g: RbGeometry)
    ensures var a := OpenClAsk(capacity, maxAlloc, globalMem, usable);
      if g.viable then exists i :: 0 <= i < |RUNGS| && g.rung == RUNGS[i] && IsFirstFit(a, i)
      else g.rung == RUNGS[6] && NothingFits(a, |RUNGS|)
    ensures var memory, slack := if usable != 0 then usable else globalMem, if usable != 0 then 0 else 0x4000_0000;
      && (g.viable ==> exists i :: 0 <= i < |RUNGS| && g.rung == RUNGS[i] && NoBuffersFit(capacity, maxAlloc, memory, slack, i))
      && (g.viable && Allocation(capacity, g.rung, maxAlloc).Allocated? ==> BuffersFit(capacity, g.rung, maxAlloc, memory, slack))
      && (!g.viable ==> NoBuffersFit(capacity, maxAlloc, memory, slack, |RUNGS|))
  {
    hide RungFits, BuffersFit, Allocation, NoBuffersFit, NothingFits;
    var a := OpenClAsk(capacity, maxAlloc, globalMem, usable);
    g := RbGeometryFor(a);
    if g.viable {
      ghost var i :| 0 <= i < |RUNGS| && g.rung == RUNGS[i] && IsFirstFit(a, i);
      NothingFitsOnBuffers(capacity, maxAlloc, globalMem, usable, i);
      if Allocation(capacity, g.rung, maxAlloc).Allocated? {
        RungFitsIffBuffersFit(capacity, maxAlloc, globalMem, usable, g.rung);
      }
    } else {
      NothingFitsOnBuffers(capacity, maxAlloc, globalMem, usable, |RUNGS|);
    }
  }

  /** rowbucket_viable: the picked rung checked once more, slack-free, against the same figures. */
  method RowbucketViable(capacity: nat, maxAlloc: nat, globalMem: nat, usable: nat) returns (ok: bool, g: RbGeometry)
    ensures ok <==> (
      && capacity != 0 && globalMem != 0 && maxAlloc != 0
      && BindingSingle(OpenClAsk(capacity, maxAlloc, globalMem, usable), g.rung) <= maxAlloc
      && RungFootprint(OpenClAsk(capacity, maxAlloc, globalMem, usable), g.rung).total <= if usable != 0 then usable else globalMem)
    // On the buffers: yes exactly when those of the picked rung fit, with nothing held back.
    ensures capacity != 0 && globalMem != 0 && maxAlloc != 0 && Allocation(capacity, g.rung, maxAlloc).Allocated? ==>
      (ok <==> BuffersFit(capacity, g.rung, maxAlloc, if usable != 0 then usable else globalMem, 0))
    // Whenever the ladder has an answer the check agrees with it.
    ensures capacity != 0 && globalMem != 0 && maxAlloc != 0 && g.viable ==> ok
    ensures g.rung in RUNGS
    ensures g.viable ==> exists i :: 0 <= i < |RUNGS| && g.rung == RUNGS[i]
                                  && IsFirstFit(OpenClAsk(capacity, maxAlloc, globalMem, usable), i)
  {
    hide RungFootprint, SingleSplit, Allocation, LargerHalf, Sum, Spare, RowbucketBytes, ImpbOk, NoBuffersFit, NothingFits, BuffersFit;
    var a := OpenClAsk(capacity, maxAlloc, globalMem, usable);
    g := PickGeometry(capacity, maxAlloc, globalMem, usable);
    if capacity == 0 || globalMem == 0 || maxAlloc == 0 {
      return false, g;
    }
    var limit := if usable != 0 then usable else globalMem;
    ok := BindingSingle(a, g.rung) <= maxAlloc && RungFootprint(a, g.rung).total <= limit;
    if Allocation(capacity, g.rung, maxAlloc).Allocated? {
      FiguresAreBuffers(a, g.rung, limit);
    }
  }

  lemma FiguresAreBuffers(a: Ask, r: Rung, limit: nat)
    requires r in RUNGS && Allocation(a.capacity, r, a.maxAlloc).Allocated?
    requires a.split && a.impb && !a.replay && a.maxAlloc != 0 && limit != 0
    ensures BindingSingle(a, r) <= a.maxAlloc && RungFootprint(a, r).total <= limit
       <==> BuffersFit(a.capacity, r, a.maxAlloc, limit, 0)
  {
    hide RungFootprint, BindingSingle, RowbucketBytes, Sum, Allocation, LargerHalf, Spare, ImpbOk;
    RungShape(r);
    FootprintOf(a, r);
    HalfSetBinds(a, r);
    AllocatedMeans(a.capacity, r, a.maxAlloc);
    LargerHalfIsHalfTheSingle(a.capacity, r);
    AllocationIsFootprint(a.capacity, r, a.maxAlloc);
  }

  /**
    Ladder and allocator agree: the buffers of an accepted rung sum to at most the total the
    arithmetic promised the device has, and none is larger than the driver's single-allocation
    ceiling -- half-splits, side plane, back-reference rows and arena metadata included.
   */
  method AcceptedRungAllocates(capacity: nat, maxAlloc: nat, globalMem: nat, usable: nat)
    returns (ok: bool, res: Alloc, g: RbGeometry)
    ensures ok && capacity >= 0x200_0000 && g.viable ==> res.Allocated?
    ensures ok && res.Allocated? ==>
      && Sum(res.requests) <= (if usable != 0 then usable else globalMem)
      && AllAtMost(res.requests, maxAlloc)
  {
    hide RungFits, RungFootprint, BindingSingle, RowbucketBytes, Sum, AllAtMost, Allocation, LargerHalf;
    ok, g := RowbucketViable(capacity, maxAlloc, globalMem, usable);
    RungShape(g.rung);
    res := TryAllocRowbucket(capacity, g.rung, maxAlloc);
    ghost var a := OpenClAsk(capacity, maxAlloc, globalMem, usable);
    if ok && res.Allocated? {
      AllocationIsWithin(capacity, g.rung, maxAlloc);
    }
    if ok && capacity >= 0x200_0000 && g.viable {
      ghost var i :| 0 <= i < |RUNGS| && g.rung == RUNGS[i] && IsFirstFit(a, i);
      RefusedRungIsUnreachable(a, i);
    }
  }

  lemma FootprintOf(a: Ask, r: Rung)
    requires a.impb && !a.replay
    ensures RungFootprint(a, r)
         == RowbucketBytes(a.capacity, r.bb, r.quad, ImpbOk(r.bb, r.sm, r.quad), r.arena, r.octo, false)
  {
  }

  /** alloc_spec_entry: no spec set on an arena rung, and none when the driver has no room. */
  function SpecOn(r: Rung, granted: bool): bool { !r.arena && granted }

  /** So an octo build never speculates, and round 4 never has to be both. */
  lemma OctoNeverSpeculates(r: Rung, granted: bool)
    requires r in RUNGS && r.octo
    ensures !SpecOn(r, granted)
  {
    RungShape(r);
  }
}
