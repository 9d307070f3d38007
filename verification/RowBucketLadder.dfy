/**
  Where the ladder's order by time is not an order by size (src/gpu/rowbucket_geom.cpp,
  rb_rungs; src/gpu/round_pipeline.cpp, the walk after a refusal), for every full seed layer.
 */
module RowBucketLadder {
  import opened Numbers
  import opened RowBucketGeom

  // ---- square roots of bucket means ---------------------------------------------------------------

  lemma RootAtLeast(n: nat, r: nat)
    requires r * r <= n
    ensures r <= Isqrt(n)
  {
    IsqrtAtLeast(n, r);
  }

  lemma SquareOfProduct(k: nat, x: nat)
    ensures (k * x) * (k * x) == k * (k * (x * x))
  {
    hide *;
    Assoc(k * x, k, x);
    Assoc(k, x, x);
    Assoc(k, x, 1);
    Assoc(k, k * x, x);
    Assoc(k, k, x);
    Assoc(k * x, k, 1);
  }

  lemma RootScales(n: nat, n': nat, k: nat)
    requires k * (k * n) <= n'
    ensures k * Isqrt(n) <= Isqrt(n')
  {
    hide *;
    var x := Isqrt(n);
    assert x * x <= n;
    MulMono(x * x, n, k);
    MulNonNeg(k, x * x);
    MulNonNeg(k, n);
    MulMono(k * (x * x), k * n, k);
    MulNonNeg(k, x);
    SquareOfProduct(k, x);
    RootAtLeast(n', k * x);
  }

  /** Four times the number has at most twice the root and one. */
  lemma RootDoubles(n: nat, n': nat)
    requires n' <= 4 * n
    ensures Isqrt(n') <= 2 * Isqrt(n) + 1
  {
    hide Isqrt;
    var r := 2 * (Isqrt(n) + 1);
    assert r * r == 4 * ((Isqrt(n) + 1) * (Isqrt(n) + 1));
    IsqrtAtLeast(n', r);
  }

  /** The tangent at k² bounds the root from above. */
  lemma RootTangent(n: nat, k: nat)
    ensures 2 * k * Isqrt(n) <= n + k * k
  {
    hide Isqrt;
    SquareGap(Isqrt(n), k);
  }

  /** The means of the three bucket counts on a full layer. */
  predicate Means(c: nat, m16: nat, m15: nat, m14: nat)
  {
    && m16 == c / 65536 && m15 == c / 32768 && m14 == c / 16384
    && 2 * m16 <= m15 <= 2 * m16 + 1 && 2 * m15 <= m14 <= 2 * m15 + 1
    && 512 <= m16
  }

  lemma MeansOf(c: nat)
    requires c >= 0x200_0000
    ensures Means(c, c / 65536, c / 32768, c / 16384)
  {
  }

  /** The plain rungs' roots exceed the dense ones by at least four times. */
  lemma PlainRoots(m16: nat, m15: nat, m14: nat)
    requires 512 <= m16 && 2 * m16 <= m15 && 2 * m15 <= m14
    ensures 4 * Isqrt(4 * m16) <= Isqrt(64 * m16) && 45 <= Isqrt(4 * m16)
    ensures 4 * Isqrt(4 * m15) <= Isqrt(64 * m15) && 64 <= Isqrt(4 * m15)
    ensures 4 * Isqrt(4 * m14) <= Isqrt(64 * m14) && 90 <= Isqrt(4 * m14)
  {
    hide Isqrt;
    RootScales(4 * m16, 64 * m16, 4);
    RootScales(4 * m15, 64 * m15, 4);
    RootScales(4 * m14, 64 * m14, 4);
    RootAtLeast(4 * m16, 45);
    RootAtLeast(4 * m15, 64);
    RootAtLeast(4 * m14, 90);
  }

  /** Roots across bucket counts. */
  lemma CrossRoots(m16: nat, m15: nat, m14: nat)
    requires 512 <= m16 && 2 * m16 <= m15 <= 2 * m16 + 1 && 2 * m15 <= m14 <= 2 * m15 + 1
    ensures 5 * Isqrt(4 * m16) <= Isqrt(64 * m15) && 5 * Isqrt(4 * m15) <= Isqrt(64 * m14)
    ensures 8 * Isqrt(4 * m16) <= Isqrt(64 * m14)
    ensures Isqrt(64 * m15) <= Isqrt(64 * m14)
    ensures 2 * Isqrt(4 * m16) <= Isqrt(4 * m14)
    ensures Isqrt(4 * m15) <= 2 * Isqrt(4 * m16) + 1 && Isqrt(4 * m14) <= 2 * Isqrt(4 * m15) + 1
  {
    hide Isqrt;
    RootScales(4 * m16, 64 * m15, 5);
    RootScales(4 * m15, 64 * m14, 5);
    RootScales(4 * m16, 64 * m14, 8);
    RootScales(64 * m15, 64 * m14, 1);
    RootScales(4 * m16, 4 * m14, 2);
    RootDoubles(4 * m16, 4 * m15);
    RootDoubles(4 * m15, 4 * m14);
  }

  /** Roots against the means themselves. */
  lemma RootLines(m16: nat, m15: nat)
    ensures 362 * Isqrt(64 * m16) <= 64 * m16 + 32761
    ensures 512 * Isqrt(64 * m15) <= 64 * m15 + 65536
    ensures 92 * Isqrt(4 * m16) <= 4 * m16 + 2116
  {
    hide Isqrt;
    RootTangent(64 * m16, 181);
    RootTangent(64 * m15, 256);
    RootTangent(4 * m16, 46);
  }

  // ---- the rungs as linear figures -----------------------------------------------------------------

  /** Slots of a set over the bucket count: mean, root and constant, with the pool on an arena rung. */
  lemma PoolSlotsOf(c: nat)
    ensures PoolSlots(c, 16, false) == 65536 * (c / 65536) + 65536 * Isqrt(64 * (c / 65536)) + 2097152
    ensures PoolSlots(c, 15, false) == 32768 * (c / 32768) + 32768 * Isqrt(64 * (c / 32768)) + 1048576
    ensures PoolSlots(c, 14, false) == 16384 * (c / 16384) + 16384 * Isqrt(64 * (c / 16384)) + 524288
    ensures PoolSlots(c, 16, true) == 65536 * (c / 65536) + 65536 * Isqrt(4 * (c / 65536)) + 2162688
    ensures PoolSlots(c, 15, true) == 32768 * (c / 32768) + 32768 * Isqrt(4 * (c / 32768)) + 1114112
    ensures PoolSlots(c, 14, true) == 16384 * (c / 16384) + 16384 * Isqrt(4 * (c / 16384)) + 589824
  {
    hide Pow2, Isqrt, BucketSlots, FbCapFor;
    SlotsAt(c, true);
    SlotsAt(c, false);
    DenseCap(c / 65536);
    DenseCap(c / 32768);
    DenseCap(c / 16384);
  }

  /** An OpenCL request: every format, implicit bits where they apply, no replay. */
  predicate FullAsk(a: Ask) { a.capacity >= 0x200_0000 && a.impb && !a.replay }

  /** Total and largest buffer of rung i. */
  function Total(a: Ask, i: nat): nat requires i < 14 { RungFootprint(a, RUNGS[i]).total }

  function Single(a: Ask, i: nat): nat requires i < 14 { RungFootprint(a, RUNGS[i]).single }

  lemma PackedRungs(a: Ask)
    requires FullAsk(a)
    ensures var c := a.capacity;
      && Total(a, 0) == 128 * PoolSlots(c, 16, false) + 32 * c + 532544 && Single(a, 0) == 64 * PoolSlots(c, 16, false)
      && Total(a, 1) == 128 * PoolSlots(c, 16, true) + 32 * c + 2105416 && Single(a, 1) == 64 * PoolSlots(c, 16, true)
      && Total(a, 2) == 136 * PoolSlots(c, 15, false) + 32 * c + 270400 && Single(a, 2) == 72 * PoolSlots(c, 15, false)
      && Total(a, 3) == 136 * PoolSlots(c, 15, true) + 32 * c + 1581128 && Single(a, 3) == 72 * PoolSlots(c, 15, true)
      && Total(a, 6) == 136 * PoolSlots(c, 14, false) + 32 * c + 139328 && Single(a, 6) == 72 * PoolSlots(c, 14, false)
  {
    hide Pow2, PoolSlots, RowbucketBytes;
    BucketCounts();
    PlainBytes(a.capacity, 16, false, true, false, false);
    PlainBytes(a.capacity, 16, false, true, true, false);
    PlainBytes(a.capacity, 15, false, false, false, false);
    PlainBytes(a.capacity, 15, false, false, true, false);
    PlainBytes(a.capacity, 14, false, false, false, false);
  }

  lemma QuadRungs(a: Ask)
    requires FullAsk(a)
    ensures var c := a.capacity;
      && Total(a, 4) == 88 * PoolSlots(c, 16, false) + 32 * c + 532544 && Single(a, 4) == 64 * PoolSlots(c, 16, false)
      && Total(a, 5) == 88 * PoolSlots(c, 16, true) + 32 * c + 2105416 && Single(a, 5) == 64 * PoolSlots(c, 16, true)
      && Total(a, 7) == 88 * PoolSlots(c, 15, false) + 32 * c + 270400 && Single(a, 7) == 64 * PoolSlots(c, 15, false)
      && Total(a, 8) == 88 * PoolSlots(c, 15, true) + 32 * c + 1581128 && Single(a, 8) == 64 * PoolSlots(c, 15, true)
      && Total(a, 9) == 88 * PoolSlots(c, 14, false) + 32 * c + 139328 && Single(a, 9) == 64 * PoolSlots(c, 14, false)
      && Total(a, 10) == 88 * PoolSlots(c, 14, true) + 32 * c + 1318984 && Single(a, 10) == 64 * PoolSlots(c, 14, true)
  {
    hide Pow2, PoolSlots, RowbucketBytes;
    BucketCounts();
    PlainBytes(a.capacity, 16, true, false, false, false);
    PlainBytes(a.capacity, 16, true, false, true, false);
    PlainBytes(a.capacity, 15, true, false, false, false);
    PlainBytes(a.capacity, 15, true, false, true, false);
    PlainBytes(a.capacity, 14, true, false, false, false);
    PlainBytes(a.capacity, 14, true, false, true, false);
  }

  lemma OctoRungs(a: Ask)
    requires FullAsk(a)
    ensures var c := a.capacity;
      && Total(a, 11) == 48 * PoolSlots(c, 16, true) + 8 * c + 2105416 && Single(a, 11) == 32 * PoolSlots(c, 16, true)
      && Total(a, 12) == 48 * PoolSlots(c, 15, true) + 8 * c + 1581128 && Single(a, 12) == 32 * PoolSlots(c, 15, true)
      && Total(a, 13) == 48 * PoolSlots(c, 14, true) + 8 * c + 1318984 && Single(a, 13) == 32 * PoolSlots(c, 14, true)
  {
    hide Pow2, PoolSlots, RowbucketBytes;
    BucketCounts();
    PlainBytes(a.capacity, 16, true, false, true, true);
    PlainBytes(a.capacity, 15, true, false, true, true);
    PlainBytes(a.capacity, 14, true, false, true, true);
  }

  // ---- the steps -------------------------------------------------------------------------------------

  /** Dense is smaller than plain at the same bucket count: steps 0, 2, 4, 7 and 9. */
  lemma DenseShrinks(a: Ask)
    requires FullAsk(a)
    ensures Total(a, 1) < Total(a, 0) && Total(a, 3) < Total(a, 2) && Total(a, 5) < Total(a, 4)
    ensures Total(a, 8) < Total(a, 7) && Total(a, 10) < Total(a, 9)
    ensures Single(a, 1) < Single(a, 0) && Single(a, 3) < Single(a, 2) && Single(a, 5) < Single(a, 4)
    ensures Single(a, 8) < Single(a, 7) && Single(a, 10) < Single(a, 9)
  {
    hide Isqrt, PoolSlots, Total, Single;
    var c := a.capacity;
    MeansOf(c);
    PlainRoots(c / 65536, c / 32768, c / 16384);
    PoolSlotsOf(c);
    PackedRungs(a);
    QuadRungs(a);
  }

  /** From a dense rung to a plain one with fewer buckets: steps 1, 5 and 8. */
  lemma PlainGrows(a: Ask)
    requires FullAsk(a)
    ensures Total(a, 2) > Total(a, 1) && Total(a, 6) > Total(a, 5) && Total(a, 9) > Total(a, 8)
    ensures Single(a, 2) > Single(a, 1) && Single(a, 6) > Single(a, 5) && Single(a, 9) > Single(a, 8)
  {
    hide Isqrt, PoolSlots, Total, Single;
    var c := a.capacity;
    MeansOf(c);
    PlainRoots(c / 65536, c / 32768, c / 16384);
    CrossRoots(c / 65536, c / 32768, c / 16384);
    PoolSlotsOf(c);
    PackedRungs(a);
    QuadRungs(a);
  }

  /** From one record format to a narrower one: steps 3, 6 and 10. */
  lemma NarrowerShrinks(a: Ask)
    requires FullAsk(a)
    ensures Total(a, 4) < Total(a, 3) && Total(a, 7) < Total(a, 6) && Total(a, 11) < Total(a, 10)
    ensures Single(a, 7) < Single(a, 6) && Single(a, 11) < Single(a, 10)
  {
    hide Isqrt, PoolSlots, Total, Single;
    var c := a.capacity;
    MeansOf(c);
    PlainRoots(c / 65536, c / 32768, c / 16384);
    CrossRoots(c / 65536, c / 32768, c / 16384);
    RootLines(c / 65536, c / 32768);
    PoolSlotsOf(c);
    PackedRungs(a);
    QuadRungs(a);
    OctoRungs(a);
  }

  /** Fewer buckets, both dense: steps 11 and 12. */
  lemma OctoShrinks(a: Ask)
    requires FullAsk(a)
    ensures Total(a, 12) < Total(a, 11) && Total(a, 13) < Total(a, 12)
    ensures Single(a, 12) < Single(a, 11) && Single(a, 13) < Single(a, 12)
  {
    hide Isqrt, PoolSlots, Total, Single;
    var c := a.capacity;
    MeansOf(c);
    CrossRoots(c / 65536, c / 32768, c / 16384);
    PoolSlotsOf(c);
    OctoRungs(a);
  }

  /**
    When the driver refuses a rung the walk goes on down the table, which is ordered by time.
    On every full layer the next rung needs more memory than the refused one exactly after
    rungs 1, 5 and 8: dense (16,1) packed, dense (16,1) quad and dense (15,2) quad.
   */
  lemma NextRungIsLargerIff(a: Ask, i: nat)
    requires FullAsk(a) && i < 13
    ensures RungFootprint(a, RUNGS[i + 1]).total > RungFootprint(a, RUNGS[i]).total <==> i == 1 || i == 5 || i == 8
  {
    hide RungFootprint;
    DenseShrinks(a);
    PlainGrows(a);
    NarrowerShrinks(a);
    OctoShrinks(a);
    assert i in [0, 1, 2, 3, 4, 5, 6, 7, 8, 9, 10, 11, 12];
  }

  /** The same of its largest buffer, but for the step from dense (15,2) packed to (16,1) quad. */
  lemma NextSingleIsLargerIff(a: Ask, i: nat)
    requires FullAsk(a) && i < 13 && i != 3
    ensures RungFootprint(a, RUNGS[i + 1]).single > RungFootprint(a, RUNGS[i]).single <==> i == 1 || i == 5 || i == 8
  {
    hide RungFootprint;
    DenseShrinks(a);
    PlainGrows(a);
    NarrowerShrinks(a);
    OctoShrinks(a);
    assert i in [0, 1, 2, 4, 5, 6, 7, 8, 9, 10, 11, 12];
  }

  // ---- the one step whose direction depends on the capacity --------------------------------------------

  /** That buffer grows below 2^27 elements, the shipping capacity included, and shrinks from 2^28 on. */
  lemma QuadSingleDependsOnCapacity(a: Ask)
    requires FullAsk(a)
    ensures a.capacity < 0x800_0000 ==> RungFootprint(a, RUNGS[4]).single > RungFootprint(a, RUNGS[3]).single
    ensures a.capacity >= 0x1000_0000 ==> RungFootprint(a, RUNGS[4]).single < RungFootprint(a, RUNGS[3]).single
  {
    hide Isqrt, PoolSlots, RungFootprint;
    var c := a.capacity;
    MeansOf(c);
    PoolSlotsOf(c);
    PackedRungs(a);
    QuadRungs(a);
    if c < 0x800_0000 {
      SmallLayer(c / 65536, c / 32768);
    }
    if c >= 0x1000_0000 {
      LargeLayer(c / 65536, c / 32768);
    }
  }

  lemma SmallLayer(m16: nat, m15: nat)
    requires 512 <= m16 < 2048 && 2 * m16 <= m15 <= 2 * m16 + 1
    ensures 64 * Isqrt(64 * m16) + 800 > 8 * m16 + 36 * (m15 - 2 * m16) + 36 * Isqrt(4 * m15)
  {
    hide Isqrt;
    var y := Isqrt(64 * m16) + 1;
    assert 64 * m16 < y * y;
    IsqrtAtLeast(64 * m16, 181);
    IsqrtAtLeast(64 * m16, 362);
    MulMono(y, 363, y);
    RootTangent(4 * m15, 100);
  }

  lemma LargeLayer(m16: nat, m15: nat)
    requires 4096 <= m16 && 2 * m16 <= m15
    ensures 64 * Isqrt(64 * m16) + 824 < 8 * m16 + 36 * (m15 - 2 * m16) + 36 * Isqrt(4 * m15)
  {
    hide Isqrt;
    RootTangent(64 * m16, 512);
    RootAtLeast(4 * m15, 181);
  }
}
