/**
  Row-bucket footprint arithmetic and the geometry ladder (src/gpu/rowbucket_geom.h and
  src/gpu/rowbucket_geom.cpp). Environment overrides are taken as unset.
 */
module RowBucketGeom {
  import opened Numbers

  const KFB_STRIDE := [0, 1, 2, 9, 8, 2]
  const CAP_SIGMA := 8
  const DENSE_SIGMA := 2
  const ARENA_SLOTS := 65536
  const LOW_POWER_W := 130
  const CAPACITY := 34603008      // 2^25 + 2^25 / 32

  // ---- bucket capacity -------------------------------------------------------------------

  /** Largest r with r² <= n. */
  function Isqrt(n: nat): (r: nat)
    ensures r * r <= n < (r + 1) * (r + 1)
  {
    if n == 0 then 0
    else
      var r := Isqrt(n - 1);
      if (r + 1) * (r + 1) <= n then NextSquare(r, n); r + 1 else r
  }

  lemma NextSquare(r: nat, n: nat)
    requires n - 1 < (r + 1) * (r + 1)
    ensures n < (r + 2) * (r + 2)
  {
    Distribute(r + 1, 1, r + 2);
    Distribute(r + 1, 1, r + 1);
  }

  /** r <= sqrt(n) exactly when r <= Isqrt(n). */
  lemma IsqrtAtLeast(n: nat, r: nat)
    ensures r <= Isqrt(n) <==> r * r <= n
  {
    var s := Isqrt(n);
    if r <= s {
      MulMono(r, s, r);
      MulMono(r, s, s);
    } else {
      MulMono(s + 1, r, r);
      MulMono(s + 1, r, s + 1);
    }
  }

  /** (uint32_t)(mean + sigma·sqrt(mean) + 32): the whole parts add exactly, the root is cut. */
  function FbCapFor(mean: nat, sigma: nat): (cap: nat)
    ensures cap >= mean + 32
  {
    mean + Isqrt(sigma * sigma * mean) + 32
  }

  /** Past the mean and 32, it is the integer r with r² <= sigma²·mean < (r + 1)². */
  lemma CapIsMeanPlusRoot(mean: nat, sigma: nat)
    ensures var r := FbCapFor(mean, sigma) - mean - 32;
      0 <= r && r * r <= sigma * (sigma * mean) < (r + 1) * (r + 1)
  {
    Assoc(sigma * mean, sigma, 1);
    Assoc(sigma, sigma, mean);
  }

  // ---- record strides ----------------------------------------------------------------------

  function FbRoundStride(r: nat, quad: bool, impb: bool, octo: bool): nat
    requires r <= 4
  {
    if r == 2 then (if quad then (if octo then 2 else 3) else if impb then 8 else 9)
    else if r == 3 then (if octo then 4 else KFB_STRIDE[4])
    else KFB_STRIDE[r + 1]
  }

  /** The widest record a set ever holds: the entry and rounds 2 and 4 write set 0, 1 and 3 set 1. */
  function SetStride(which: nat, quad: bool, impb: bool, octo: bool): nat
    requires which < 2
  {
    if which == 0 then (if quad then (if octo then 2 else 3) else if impb then 8 else 9)
    else (if octo then 4 else 8)
  }

  /** fb_set_stride: a running maximum over the rounds that write the set. */
  method FbSetStride(which: nat, quad: bool, impb: bool, octo: bool) returns (m: nat)
    requires which < 2
    ensures m == SetStride(which, quad, impb, octo)
    ensures forall r :: 1 <= r <= 4 && r % 2 == which ==> FbRoundStride(r, quad, impb, octo) <= m
    ensures which == 0 ==> KFB_STRIDE[1] <= m
    ensures (which == 0 && m == KFB_STRIDE[1])
         || exists r :: 1 <= r <= 4 && r % 2 == which && FbRoundStride(r, quad, impb, octo) == m
  {
    m := if which == 0 then KFB_STRIDE[1] else 0;
    var r := 1;
    while r <= 4
      invariant 1 <= r <= 5
      invariant forall q :: 1 <= q < r && q % 2 == which ==> FbRoundStride(q, quad, impb, octo) <= m
      invariant which == 0 ==> KFB_STRIDE[1] <= m
      invariant (m == if which == 0 then KFB_STRIDE[1] else 0)
             || exists q :: 1 <= q < r && q % 2 == which && FbRoundStride(q, quad, impb, octo) == m
      decreases 5 - r
    {
      if r % 2 == which && FbRoundStride(r, quad, impb, octo) > m {
        m := FbRoundStride(r, quad, impb, octo);
      }
      r := r + 1;
    }
    assert FbRoundStride(2, quad, impb, octo) == SetStride(0, quad, impb, octo);
    assert FbRoundStride(3, quad, impb, octo) == SetStride(1, quad, impb, octo);
    assert FbRoundStride(1, quad, impb, octo) == 2 && FbRoundStride(4, quad, impb, octo) == 2;
  }

  predicate ImpbOk(bb: nat, sm: nat, quad: bool)
  {
    !quad && 16 <= bb <= 17 && 24 - bb >= 7 + sm
  }

  // ---- footprint ------------------------------------------------------------------------------

  datatype Footprint = Footprint(total: nat, single: nat)

  /** Record slots of one set's buckets. */
  function BucketSlots(capacity: nat, bb: nat, arena: bool): nat
  {
    var nb := Pow2(bb);
    DivNonNeg(capacity, nb);
    MulNonNeg(nb, FbCapFor(capacity / nb, if arena then DENSE_SIGMA else CAP_SIGMA));
    nb * FbCapFor(capacity / nb, if arena then DENSE_SIGMA else CAP_SIGMA)
  }

  function RowbucketBytes(capacity: nat, bb: nat, quad: bool, impb: bool, arena: bool, octo: bool, replay: bool): Footprint
  {
    var nb := Pow2(bb);
    var nslots := BucketSlots(capacity, bb, arena) + if arena then ARENA_SLOTS else 0;
    var s0, s1 := SetStride(0, quad, impb, octo), SetStride(1, quad, impb, octo);
    var backrefs :=
      if octo then (capacity + 1024) * 4 * 2
      else if !replay then (4 * capacity + 1024) * 4 * 2
      else if impb then 0
      else 3 * capacity * 4 * 2;
    var plane := !octo && replay && impb;
    var sets := if plane then 3 else 2;           // counters and arena metadata are per record set
    var r4plane := if plane then nslots * 8 else 0;
    var arenaMeta := if arena then sets * (nb * 4 + 2 * ARENA_SLOTS * 4 + 4) else 0;
    var widest := if s0 > s1 then s0 else s1;
    MulNonNeg(nslots, s0 + s1);
    MulNonNeg(nslots, widest);
    Footprint(nslots * (s0 + s1) * 8 + r4plane + sets * nb * 4 + backrefs + arenaMeta + 64, nslots * widest * 8)
  }

  function SingleSplit(capacity: nat, bb: nat, quad: bool, impb: bool, arena: bool, octo: bool, replay: bool): nat
  {
    var half := RowbucketBytes(capacity, bb, quad, impb, arena, octo, replay).single / 2;
    var rows := if octo then 1 else if !replay then 4 else if impb then 0 else 3;
    var backrefs := (rows * capacity + 1024) * 4;
    if half > backrefs then half else backrefs
  }

  // ---- the ladder --------------------------------------------------------------------------------

  datatype Rung = Rung(bb: nat, sm: nat, quad: bool, arena: bool, octo: bool)

  const RUNGS: seq<Rung> := [
    Rung(16, 1, false, false, false),
    Rung(16, 1, false, true, false),
    Rung(15, 2, false, false, false),
    Rung(15, 2, false, true, false),
    Rung(16, 1, true, false, false),
    Rung(16, 1, true, true, false),
    Rung(14, 3, false, false, false),
    Rung(15, 2, true, false, false),
    Rung(15, 2, true, true, false),
    Rung(14, 3, true, false, false),
    Rung(14, 3, true, true, false),
    Rung(16, 1, true, true, true),
    Rung(15, 2, true, true, true),
    Rung(14, 3, true, true, true)]

  /** What a backend can do and what the device offers; 0 means no such limit. */
  datatype Ask = Ask(capacity: nat, maxAlloc: nat, globalMem: nat, quad: bool, powerW: nat, split: bool,
                     slack: nat, impb: bool, arena: bool, octo: bool, replay: bool)

  function RungFootprint(a: Ask, r: Rung): Footprint
  {
    RowbucketBytes(a.capacity, r.bb, r.quad, a.impb && ImpbOk(r.bb, r.sm, r.quad), r.arena, r.octo, a.replay)
  }

  /** The figure max_alloc binds on. */
  function BindingSingle(a: Ask, r: Rung): nat
  {
    var single := RungFootprint(a, r).single;
    var s := SingleSplit(a.capacity, r.bb, r.quad, a.impb && ImpbOk(r.bb, r.sm, r.quad), r.arena, r.octo, a.replay);
    if !a.split then single else if s < single then s else single
  }

  predicate RungFits(a: Ask, r: Rung)
  {
    && (a.maxAlloc == 0 || BindingSingle(a, r) <= a.maxAlloc)
    && (a.globalMem == 0 || RungFootprint(a, r).total + a.slack <= a.globalMem)
  }

  predicate Offered(a: Ask, r: Rung)
  {
    (r.quad ==> a.quad) && (r.arena ==> a.arena) && (r.octo ==> a.octo)
  }

  datatype RbGeometry = RbGeometry(rung: Rung, viable: bool)

  const LOW_POWER_RUNG := Rung(17, 0, false, false, false)

  /**
    rb_geometry_for: first fit down the ladder, with the low-power exception in front.
    The fallback names (14,3) but says no rung fits.
   */
  method RbGeometryFor(a: Ask) returns (g: RbGeometry)
    ensures LowPower(a) && RungFits(a, LOW_POWER_RUNG) ==> g == RbGeometry(LOW_POWER_RUNG, true)
    ensures !(LowPower(a) && RungFits(a, LOW_POWER_RUNG)) ==>
      if g.viable then
        exists i :: 0 <= i < |RUNGS| && g.rung == RUNGS[i] && IsFirstFit(a, i)
      else
        g.rung == RUNGS[6] && NothingFits(a, |RUNGS|)
    // The low-power rung is for a cap below 130 W, and no rung comes up that needs what the backend lacks.
    ensures g.viable && g.rung == Rung(17, 0, false, false, false) <==> 0 < a.powerW < 130 && RungFits(a, LOW_POWER_RUNG)
    ensures g.viable ==> (g.rung.quad ==> a.quad) && (g.rung.arena ==> a.arena) && (g.rung.octo ==> a.octo)
    // One that it has all of, passed over or all of them when nothing fits, does not fit.
    ensures !(g.viable && g.rung == LOW_POWER_RUNG) ==> forall j :: 0 <= j < |RUNGS| && HasFormats(a, RUNGS[j]) && RungFits(a, RUNGS[j]) ==>
      g.viable && exists i :: 0 <= i <= j && g.rung == RUNGS[i]
  {
    hide RungFits;
    if LowPower(a) && RungFits(a, LOW_POWER_RUNG) {
      return RbGeometry(LOW_POWER_RUNG, true);
    }
    for i := 0 to |RUNGS|
      invariant NothingFits(a, i)
    {
      if Offered(a, RUNGS[i]) && RungFits(a, RUNGS[i]) {
        return RbGeometry(RUNGS[i], true);
      }
    }
    return RbGeometry(RUNGS[6], false);
  }

  /** The backend has every format the rung needs. */
  predicate HasFormats(a: Ask, r: Rung) { (a.quad || !r.quad) && (a.arena || !r.arena) && (a.octo || !r.octo) }

  predicate LowPower(a: Ask) { a.powerW != 0 && a.powerW < LOW_POWER_W }

  ghost predicate NothingFits(a: Ask, n: nat)
    requires n <= |RUNGS|
  {
    forall i :: 0 <= i < n && Offered(a, RUNGS[i]) ==> !RungFits(a, RUNGS[i])
  }

  ghost predicate IsFirstFit(a: Ask, i: nat)
    requires i < |RUNGS|
  {
    Offered(a, RUNGS[i]) && RungFits(a, RUNGS[i]) && NothingFits(a, i)
  }

  // ---- facts about the ladder ---------------------------------------------------------------------

  /** Every rung is on the bb + sm == 17 line; octo rungs are quad rungs and arena rungs. */
  lemma RungShape(r: Rung)
    requires r in RUNGS
    ensures r.bb + r.sm == 17 && 14 <= r.bb <= 16
    ensures r.octo ==> r.quad && r.arena
  {
  }

  /** The implicit-bits pack is for the packed rungs of 16 bucket bits and the low-power one. */
  lemma ImplicitBitsRungs(r: Rung)
    requires r in RUNGS || r == LOW_POWER_RUNG
    ensures ImpbOk(r.bb, r.sm, r.quad) <==> !r.quad && (r.bb == 16 || r.bb == 17)
  {
  }

  lemma BucketCounts()
    ensures Pow2(14) == 16384 && Pow2(15) == 32768 && Pow2(16) == 65536 && Pow2(17) == 131072
  {
    Pow2Values();
    Pow2Add(8, 6);
    assert Pow2(6) == 64;
    Pow2Add(14, 1);
  }

  /** The slot counts with the bucket counts written out. */
  lemma SlotsAt(capacity: nat, arena: bool)
    ensures var sigma := if arena then DENSE_SIGMA else CAP_SIGMA;
      && BucketSlots(capacity, 14, arena) == 16384 * FbCapFor(capacity / 16384, sigma)
      && BucketSlots(capacity, 15, arena) == 32768 * FbCapFor(capacity / 32768, sigma)
      && BucketSlots(capacity, 16, arena) == 65536 * FbCapFor(capacity / 65536, sigma)
      && BucketSlots(capacity, 17, arena) == 131072 * FbCapFor(capacity / 131072, sigma)
  {
    hide Pow2, Isqrt, FbCapFor;
    BucketCounts();
  }

  /** The slots of a set cover every element, with 31 to spare per bucket. */
  lemma SlotsCoverCapacity(capacity: nat, bb: nat, arena: bool)
    requires 14 <= bb <= 17
    ensures BucketSlots(capacity, bb, arena) >= capacity + 31 * Pow2(bb)
    ensures BucketSlots(capacity, bb, arena) % 2 == 0
  {
    hide Pow2, FbCapFor, BucketSlots;
    BucketCounts();
    SlotsAt(capacity, arena);
    if bb == 14 {
    } else if bb == 15 {
    } else if bb == 16 {
    } else {
    }
  }

  /** Bytes that do not depend on the record widths: counters, arena metadata, alignment slack. */
  function Fixed(nb: nat, arena: bool): nat { 8 * nb + (if arena then 8 * nb + 1048584 else 0) + 64 }

  function PoolSlots(capacity: nat, bb: nat, arena: bool): nat { BucketSlots(capacity, bb, arena) + if arena then 65536 else 0 }

  lemma OctoBytes(capacity: nat, bb: nat, impb: bool, arena: bool)
    ensures RowbucketBytes(capacity, bb, true, impb, arena, true, false)
         == Footprint(48 * PoolSlots(capacity, bb, arena) + 8 * (capacity + 1024) + Fixed(Pow2(bb), arena),
                      32 * PoolSlots(capacity, bb, arena))
  {
    hide Pow2, Isqrt, BucketSlots;
  }

  lemma QuadBytes(capacity: nat, bb: nat, impb: bool, arena: bool)
    ensures RowbucketBytes(capacity, bb, true, impb, arena, false, false)
         == Footprint(88 * PoolSlots(capacity, bb, arena) + 8 * (4 * capacity + 1024) + Fixed(Pow2(bb), arena),
                      64 * PoolSlots(capacity, bb, arena))
  {
    hide Pow2, Isqrt, BucketSlots;
  }

  lemma PackedBytes(capacity: nat, bb: nat, arena: bool)
    ensures RowbucketBytes(capacity, bb, false, true, arena, false, false)
         == Footprint(128 * PoolSlots(capacity, bb, arena) + 8 * (4 * capacity + 1024) + Fixed(Pow2(bb), arena),
                      64 * PoolSlots(capacity, bb, arena))
    ensures RowbucketBytes(capacity, bb, false, false, arena, false, false)
         == Footprint(136 * PoolSlots(capacity, bb, arena) + 8 * (4 * capacity + 1024) + Fixed(Pow2(bb), arena),
                      72 * PoolSlots(capacity, bb, arena))
  {
    hide Pow2, Isqrt, BucketSlots;
  }

  /** The footprint of an allocation with every buffer of its own (no replay), as linear figures. */
  lemma PlainBytes(capacity: nat, bb: nat, quad: bool, impb: bool, arena: bool, octo: bool)
    requires octo ==> quad
    ensures var n := PoolSlots(capacity, bb, arena);
      var rest := Fixed(Pow2(bb), arena);
      var f := RowbucketBytes(capacity, bb, quad, impb, arena, octo, false);
      && (octo ==> f == Footprint(48 * n + 8 * (capacity + 1024) + rest, 32 * n))
      && (quad && !octo ==> f == Footprint(88 * n + 8 * (4 * capacity + 1024) + rest, 64 * n))
      && (!quad && impb ==> f == Footprint(128 * n + 8 * (4 * capacity + 1024) + rest, 64 * n))
      && (!quad && !impb ==> f == Footprint(136 * n + 8 * (4 * capacity + 1024) + rest, 72 * n))
  {
    hide Pow2, Fixed, PoolSlots, RowbucketBytes;
    OctoBytes(capacity, bb, impb, arena);
    QuadBytes(capacity, bb, impb, arena);
    PackedBytes(capacity, bb, arena);
  }

  lemma OctoReplays(capacity: nat, bb: nat, impb: bool, arena: bool)
    ensures RowbucketBytes(capacity, bb, true, impb, arena, true, true)
         == Footprint(48 * PoolSlots(capacity, bb, arena) + 8 * (capacity + 1024) + Fixed(Pow2(bb), arena),
                      32 * PoolSlots(capacity, bb, arena))
  {
    hide Pow2, Isqrt, BucketSlots;
  }

  lemma QuadReplays(capacity: nat, bb: nat, arena: bool)
    ensures RowbucketBytes(capacity, bb, true, false, arena, false, true)
         == Footprint(88 * PoolSlots(capacity, bb, arena) + 24 * capacity + Fixed(Pow2(bb), arena),
                      64 * PoolSlots(capacity, bb, arena))
  {
    hide Pow2, Isqrt, BucketSlots;
  }

  lemma PackedReplays(capacity: nat, bb: nat, arena: bool)
    ensures RowbucketBytes(capacity, bb, false, true, arena, false, true)
         == Footprint(136 * PoolSlots(capacity, bb, arena) + Fixed(Pow2(bb), arena) + Fixed(Pow2(bb), arena) / 2 - 32,
                      64 * PoolSlots(capacity, bb, arena))
    ensures RowbucketBytes(capacity, bb, false, false, arena, false, true)
         == Footprint(136 * PoolSlots(capacity, bb, arena) + 24 * capacity + Fixed(Pow2(bb), arena),
                      72 * PoolSlots(capacity, bb, arena))
  {
    hide Pow2, Isqrt, BucketSlots;
  }

  /**
    The footprint of a backend that reconstructs pairings at recovery. On an implicit-bits rung
    no reference row is left; round 4's output gets a plane with counters and arena metadata of
    its own instead. (No rung is quad and implicit-bits at once.)
   */
  lemma ReplayBytes(capacity: nat, bb: nat, quad: bool, impb: bool, arena: bool, octo: bool)
    requires (octo ==> quad) && !(quad && impb)
    ensures var n := PoolSlots(capacity, bb, arena);
      var rest := Fixed(Pow2(bb), arena);
      var f := RowbucketBytes(capacity, bb, quad, impb, arena, octo, true);
      && (octo ==> f == Footprint(48 * n + 8 * (capacity + 1024) + rest, 32 * n))
      && (quad && !octo ==> f == Footprint(88 * n + 24 * capacity + rest, 64 * n))
      && (!quad && impb ==> f == Footprint(136 * n + rest + rest / 2 - 32, 64 * n))
      && (!quad && !impb ==> f == Footprint(136 * n + 24 * capacity + rest, 72 * n))
  {
    hide Pow2, Fixed, PoolSlots, RowbucketBytes;
    OctoReplays(capacity, bb, impb, arena);
    QuadReplays(capacity, bb, arena);
    PackedReplays(capacity, bb, arena);
  }

  /** Half the larger set is always bigger than a back-reference row, so it is what max_alloc binds on. */
  lemma HalfSetBinds(a: Ask, r: Rung)
    requires r in RUNGS && a.split && !a.replay
    ensures BindingSingle(a, r) == RungFootprint(a, r).single / 2
  {
    hide Pow2, Isqrt, BucketSlots, RowbucketBytes, ImpbOk;
    RungShape(r);
    BucketCounts();
    SlotsCoverCapacity(a.capacity, r.bb, r.arena);
    PlainBytes(a.capacity, r.bb, r.quad, a.impb && ImpbOk(r.bb, r.sm, r.quad), r.arena, r.octo);
  }

  /** On a full seed layer, dense (16,1) with the implicit-bits pack undercuts dense packed (15,2). */
  lemma DenseSixteenIsSmaller(a: Ask)
    requires a.capacity >= 0x200_0000 && a.impb && !a.replay
    ensures RungFootprint(a, RUNGS[1]).total <= RungFootprint(a, RUNGS[3]).total
    ensures RungFootprint(a, RUNGS[1]).single <= RungFootprint(a, RUNGS[3]).single
  {
    hide Pow2, Isqrt, BucketSlots, RowbucketBytes;
    BucketCounts();
    PlainBytes(a.capacity, 16, false, true, true, false);
    PlainBytes(a.capacity, 15, false, false, true, false);
    var c := a.capacity;
    var m, m2 := c / 65536, c / 32768;
    assert 2 * m <= m2 <= 2 * m + 1 && m >= 512;
    RootsOfMeans(m, m2);
    SlotsOfDense(c);
  }

  /** Twice the mean has a root at least 11/8 of the mean's, itself at most (4m + 46²) / 92. */
  lemma RootsOfMeans(m: nat, m2: nat)
    requires 2 * m <= m2
    ensures 8 * Isqrt(4 * m2) + 7 >= 11 * Isqrt(4 * m)
    ensures 92 * Isqrt(4 * m) <= 4 * m + 2116
  {
    hide Isqrt;
    var x := Isqrt(4 * m);
    var t := 11 * x / 8;
    SquareOfEighths(x, t);
    IsqrtAtLeast(4 * m2, t);
    SquareGap(x, 46);
  }

  lemma DenseCap(mean: nat)
    ensures FbCapFor(mean, DENSE_SIGMA) == mean + Isqrt(4 * mean) + 32
    ensures FbCapFor(mean, CAP_SIGMA) == mean + Isqrt(64 * mean) + 32
  {
    hide Isqrt;
  }

  lemma SlotsOfDense(c: nat)
    ensures BucketSlots(c, 16, true) == 65536 * (c / 65536 + Isqrt(4 * (c / 65536)) + 32)
    ensures BucketSlots(c, 15, true) == 32768 * (c / 32768 + Isqrt(4 * (c / 32768)) + 32)
    ensures BucketSlots(c, 14, false) == 16384 * (c / 16384 + Isqrt(64 * (c / 16384)) + 32)
  {
    hide Pow2, Isqrt, BucketSlots, FbCapFor;
    SlotsAt(c, true);
    SlotsAt(c, false);
    DenseCap(c / 65536);
    DenseCap(c / 32768);
    DenseCap(c / 16384);
  }

  lemma SquareOfEighths(x: nat, t: nat)
    requires t == 11 * x / 8
    ensures t * t <= 2 * (x * x)
  {
    assert 8 * t <= 11 * x;
    MulMono(8 * t, 11 * x, 8 * t);
    MulMono(8 * t, 11 * x, 11 * x);
    Assoc(8 * t, 8, t);
    Assoc(11 * x, 11, x);
    assert 64 * (t * t) <= 121 * (x * x);
    MulNonNeg(x, x);
  }

  lemma SquareGap(x: nat, k: nat)
    ensures 2 * k * x <= x * x + k * k
  {
    var d: int := x - k;
    assert d * d >= 0;
    assert d * d == x * x - 2 * k * x + k * k;
  }

  /**
    So the OpenCL backend, on a full seed layer, is never handed the one rung its allocator
    refuses: a packed arena rung without the implicit-bits pack.
   */
  lemma RefusedRungIsUnreachable(a: Ask, i: nat)
    requires i < |RUNGS| && IsFirstFit(a, i)
    requires a.capacity >= 0x200_0000 && a.impb && a.arena && a.split && !a.replay
    ensures var r := RUNGS[i]; r.arena && !r.quad ==> ImpbOk(r.bb, r.sm, r.quad)
  {
    hide RungFits, RungFootprint, BindingSingle;
    assert i == 3 ==> Offered(a, RUNGS[1]) && !RungFits(a, RUNGS[1]) && RungFits(a, RUNGS[3]);
    if i == 3 {
      DenseSixteenIsSmaller(a);
      HalfSetBinds(a, RUNGS[1]);
      HalfSetBinds(a, RUNGS[3]);
      SmallerFits(a, RUNGS[1], RUNGS[3]);
      assert false;
    }
  }

  lemma SmallerFits(a: Ask, r: Rung, r': Rung)
    requires RungFits(a, r')
    requires RungFootprint(a, r).total <= RungFootprint(a, r').total
    requires BindingSingle(a, r) <= BindingSingle(a, r')
    ensures RungFits(a, r)
  {
    hide RungFootprint, BindingSingle;
  }

  /** The comment beside the ladder: packed (14,3) is unreachable where quad and dense rungs are on offer. */
  lemma PackedFourteenIsUnreachable(a: Ask, i: nat)
    requires i < |RUNGS| && IsFirstFit(a, i)
    requires a.capacity >= 0x200_0000 && a.quad && a.arena && a.split && !a.replay
    ensures RUNGS[i] != Rung(14, 3, false, false, false)
  {
    hide RungFits, RungFootprint, BindingSingle;
    assert i == 6 ==> Offered(a, RUNGS[5]) && !RungFits(a, RUNGS[5]) && RungFits(a, RUNGS[6]);
    if i == 6 {
      QuadDenseIsSmaller(a);
      HalfSetBinds(a, RUNGS[5]);
      HalfSetBinds(a, RUNGS[6]);
      SmallerFits(a, RUNGS[5], RUNGS[6]);
      assert false;
    }
  }

  lemma QuadDenseIsSmaller(a: Ask)
    requires a.capacity >= 0x200_0000 && !a.replay
    ensures RungFootprint(a, RUNGS[5]).total <= RungFootprint(a, RUNGS[6]).total
    ensures RungFootprint(a, RUNGS[5]).single <= RungFootprint(a, RUNGS[6]).single
  {
    hide Pow2, Isqrt, BucketSlots, RowbucketBytes;
    BucketCounts();
    var c := a.capacity;
    PlainBytes(c, 16, true, false, true, false);
    PlainBytes(c, 14, false, false, false, false);
    var m, m4 := c / 65536, c / 16384;
    var x, y := Isqrt(4 * m), Isqrt(64 * m4);
    assert m >= 512 && m4 >= 4 * m;
    Assoc(8 * x, 8, x);
    Assoc(8, x, x);
    assert (8 * x) * (8 * x) == 64 * (x * x);
    IsqrtAtLeast(64 * m4, 8 * x);
    SlotsOfDense(c);
  }
}
