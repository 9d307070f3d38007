/**
  Record sets of the fused row-bucket pipeline (src/gpu/round_pipeline.h).

  A set is an arrival counter per bucket and `cap` record slots per bucket. Producers bump
  the counter and write the slot it named. On an arena rung a full bucket appends to the pool
  of its half of the set, under a cursor, tagged with the bucket; a link pass threads the pool
  onto per-bucket chains before the set is read. Without a pool, or past its end, the record
  is dropped. Nothing ever clears slots or pools: the host zeroes the counters and cursors and
  empties the chains, so a set always holds stale records, and what a consumer may see is the
  part in front of the counters and along the chains.
 */
module RecordSets {

  type Rec = seq<nat>

  datatype Child = Child(bucket: nat, rec: Rec)

  /** Buckets, slots per bucket, buckets in the first half (all of them on an unsplit set), pool slots per half. */
  datatype Geometry = Geometry(nb: nat, cap: nat, half: nat, pool: nat)

  datatype PoolSlot = PoolSlot(tag: nat, rec: Rec)

  datatype RecordSet = RecordSet(counts: seq<nat>, slots: seq<seq<Rec>>,
                                 cursors: seq<nat>, pools: seq<seq<PoolSlot>>, chains: seq<seq<nat>>)

  /** Per bucket, the records in front of its arrival counter and then those along its chain. */
  type View = seq<seq<Rec>>

  ghost predicate Fits(g: Geometry, s: RecordSet)
  {
    && g.nb > 0
    && |s.counts| == |s.slots| == |s.chains| == g.nb
    && (forall b :: 0 <= b < g.nb ==> |s.slots[b]| == g.cap)
    && |s.cursors| == |s.pools| == 2
    && |s.pools[0]| == |s.pools[1]| == g.pool
    && (forall b :: 0 <= b < g.nb ==> InPool(g, s.chains[b]))
  }

  predicate InPool(g: Geometry, chain: seq<nat>) { forall k :: 0 <= k < |chain| ==> chain[k] < g.pool }

  function Min(a: nat, b: nat): nat { if a < b then a else b }

  function HalfOf(g: Geometry, b: nat): (h: nat) ensures h < 2 { if b < g.half then 0 else 1 }

  /** The pool records a chain leads to. */
  function Walk(pool: seq<PoolSlot>, chain: seq<nat>): (rs: seq<Rec>)
    requires forall k :: 0 <= k < |chain| ==> chain[k] < |pool|
    ensures |rs| == |chain| && forall k :: 0 <= k < |rs| ==> rs[k] == pool[chain[k]].rec
  {
    seq(|chain|, k requires 0 <= k < |chain| => pool[chain[k]].rec)
  }

  function Visible(g: Geometry, s: RecordSet): (v: View)
    requires Fits(g, s)
    ensures |v| == g.nb
    ensures forall b :: 0 <= b < g.nb ==>
      v[b] == s.slots[b][..Min(s.counts[b], g.cap)] + Walk(s.pools[HalfOf(g, b)], s.chains[b])
  {
    seq(g.nb, b requires 0 <= b < g.nb =>
      s.slots[b][..Min(s.counts[b], g.cap)] + Walk(s.pools[HalfOf(g, b)], s.chains[b]))
  }

  function Empty(g: Geometry): (v: View)
    ensures |v| == g.nb
    ensures forall b :: 0 <= b < g.nb ==> v[b] == []
  {
    seq(g.nb, b => [])
  }

  function Zeroes(n: nat): (z: seq<nat>)
    ensures |z| == n
    ensures forall b :: 0 <= b < n ==> z[b] == 0
  {
    seq(n, b => 0)
  }

  function NoChains(n: nat): (c: seq<seq<nat>>)
    ensures |c| == n
    ensures forall b :: 0 <= b < n ==> c[b] == []
  {
    seq(n, b => [])
  }

  /** The host's fill of the arrival counters with zero. */
  function ZeroCounts(s: RecordSet): RecordSet
  {
    s.(counts := Zeroes(|s.counts|))
  }

  /** ARENA_RESET: the pool cursors and chain heads; nothing off the arena rungs. */
  function ResetArena(g: Geometry, s: RecordSet): RecordSet
  {
    if g.pool == 0 then s else s.(cursors := [0, 0], chains := NoChains(|s.chains|))
  }

  /** What the host does to a set before a producer writes it. */
  function Clear(g: Geometry, s: RecordSet): (s': RecordSet)
    requires Fits(g, s)
    ensures Fits(g, s')
  {
    ResetArena(g, ZeroCounts(s))
  }

  function Arrive(g: Geometry, s: RecordSet, c: Child): (s': RecordSet)
    requires Fits(g, s)
    ensures Fits(g, s') && s'.chains == s.chains
  {
    var b := c.bucket % g.nb;
    var slot, h := s.counts[b], HalfOf(g, b);
    var counted := s.(counts := s.counts[b := slot + 1]);
    if slot < g.cap then counted.(slots := s.slots[b := s.slots[b][slot := c.rec]])
    else if g.pool == 0 then counted
    else
      var a := s.cursors[h];
      var moved := counted.(cursors := s.cursors[h := a + 1]);
      if a < g.pool then moved.(pools := s.pools[h := s.pools[h][a := PoolSlot(b, c.rec)]]) else moved
  }

  /** A kernel's scatter: every child it emits arrives once. */
  function Scatter(g: Geometry, s: RecordSet, cs: seq<Child>): (s': RecordSet)
    requires Fits(g, s)
    ensures Fits(g, s') && s'.chains == s.chains
    decreases |cs|
  {
    if cs == [] then s else Scatter(g, Arrive(g, s, cs[0]), cs[1..])
  }

  /** The first n pool slots that carry tag b, in order. */
  function Tagged(pool: seq<PoolSlot>, n: nat, b: nat): (chain: seq<nat>)
    requires n <= |pool|
    ensures forall k :: 0 <= k < |chain| ==> chain[k] < n
  {
    if n == 0 then []
    else if pool[n - 1].tag == b then Tagged(pool, n - 1, b) + [n - 1]
    else Tagged(pool, n - 1, b)
  }

  /** Bucket b's entries among the pool slots written so far. */
  function Spill(g: Geometry, s: RecordSet, b: nat): (chain: seq<nat>)
    requires Fits(g, s)
    ensures InPool(g, chain)
  {
    var h := HalfOf(g, b);
    Tagged(s.pools[h], Min(s.cursors[h], g.pool), b)
  }

  /** ARENA_LINK: every written pool slot in front of its bucket's chain. */
  function Link(g: Geometry, s: RecordSet): (s': RecordSet)
    requires Fits(g, s)
    ensures Fits(g, s')
  {
    if g.pool == 0 then s
    else s.(chains := seq(g.nb, b requires 0 <= b < g.nb => Spill(g, s, b) + s.chains[b]))
  }

  // ---- the same on what is visible, with no memory behind it ---------------------------------------

  /** Records of half h, among the first n buckets, that are past their bucket's capacity. */
  function Spilled(g: Geometry, v: View, h: nat, n: nat): nat
    requires n <= |v|
  {
    if n == 0 then 0
    else Spilled(g, v, h, n - 1) + if HalfOf(g, n - 1) == h && |v[n - 1]| > g.cap then |v[n - 1]| - g.cap else 0
  }

  /** A record joins its bucket while the bucket, or else the pool of its half, has room. */
  function Append(g: Geometry, v: View, c: Child): (v': View)
    requires g.nb > 0 && |v| == g.nb
    ensures |v'| == g.nb
  {
    var b := c.bucket % g.nb;
    if |v[b]| < g.cap || Spilled(g, v, HalfOf(g, b), g.nb) < g.pool then v[b := v[b] + [c.rec]] else v
  }

  function AppendAll(g: Geometry, v: View, cs: seq<Child>): (v': View)
    requires g.nb > 0 && |v| == g.nb
    ensures |v'| == g.nb
    decreases |cs|
  {
    if cs == [] then v else AppendAll(g, Append(g, v, cs[0]), cs[1..])
  }

  // ---- stale records never show -----------------------------------------------------------------------

  /** What a set will show once linked: the chains as the pool stands. */
  function Shown(g: Geometry, s: RecordSet): (v: View)
    requires Fits(g, s)
    ensures |v| == g.nb
    ensures forall b :: 0 <= b < g.nb ==>
      v[b] == s.slots[b][..Min(s.counts[b], g.cap)] + Walk(s.pools[HalfOf(g, b)], Spill(g, s, b))
  {
    seq(g.nb, b requires 0 <= b < g.nb =>
      s.slots[b][..Min(s.counts[b], g.cap)] + Walk(s.pools[HalfOf(g, b)], Spill(g, s, b)))
  }

  /** Only full buckets spill, and a pool holds exactly what its half has spilled. */
  ghost predicate InStep(g: Geometry, s: RecordSet)
    requires Fits(g, s)
  {
    && (forall b :: 0 <= b < g.nb && Spill(g, s, b) != [] ==> s.counts[b] >= g.cap)
    && (forall h :: 0 <= h < 2 ==> Spilled(g, Shown(g, s), h, g.nb) == Min(s.cursors[h], g.pool))
  }

  lemma {:induction false} TaggedUnchanged(pool: seq<PoolSlot>, pool': seq<PoolSlot>, n: nat, b: nat)
    requires n <= |pool| == |pool'| && forall a :: 0 <= a < n ==> pool[a] == pool'[a]
    ensures Tagged(pool, n, b) == Tagged(pool', n, b)
  {
    if n == 0 {
    } else {
      TaggedUnchanged(pool, pool', n - 1, b);
    }
  }

  lemma {:induction false} SpilledUpdate(g: Geometry, v: View, b: nat, r: Rec, h: nat, n: nat)
    requires n <= |v| && b < |v|
    ensures Spilled(g, v[b := v[b] + [r]], h, n)
         == Spilled(g, v, h, n) + if b < n && HalfOf(g, b) == h && |v[b]| >= g.cap then 1 else 0
  {
    if n == 0 {
    } else {
      SpilledUpdate(g, v, b, r, h, n - 1);
    }
  }

  lemma {:induction false} NothingSpilled(g: Geometry, h: nat, n: nat)
    requires n <= g.nb
    ensures Spilled(g, Empty(g), h, n) == 0
  {
    if n == 0 {
    } else {
      NothingSpilled(g, h, n - 1);
    }
  }

  lemma ClearedIsEmpty(g: Geometry, s: RecordSet)
    requires Fits(g, s)
    ensures Shown(g, Clear(g, s)) == Empty(g) && InStep(g, Clear(g, s))
    ensures g.pool > 0 ==> Clear(g, s).chains == NoChains(g.nb)
  {
    NothingSpilled(g, 0, g.nb);
    NothingSpilled(g, 1, g.nb);
    assert Shown(g, Clear(g, s)) == Empty(g);
  }

  /** The pools' written parts did not move, so no chain did. */
  lemma SpillUnchanged(g: Geometry, s: RecordSet, s': RecordSet, i: nat)
    requires Fits(g, s) && Fits(g, s') && i < g.nb
    requires s.pools == s'.pools && s.cursors == s'.cursors
    ensures Spill(g, s', i) == Spill(g, s, i)
  {
  }

  /** An arrival within the bucket's own slots. */
  lemma ArriveInBucket(g: Geometry, s: RecordSet, c: Child)
    requires Fits(g, s) && InStep(g, s) && s.counts[c.bucket % g.nb] < g.cap
    ensures Shown(g, Arrive(g, s, c)) == Append(g, Shown(g, s), c)
    ensures InStep(g, Arrive(g, s, c))
  {
    hide Spilled, Spill, Visible;
    var b := c.bucket % g.nb;
    var s', v := Arrive(g, s, c), Shown(g, s);
    var w := v[b := v[b] + [c.rec]];
    assert Spill(g, s, b) == [];
    assert v[b] == s.slots[b][..s.counts[b]];
    forall i | 0 <= i < g.nb ensures Spill(g, s', i) == Spill(g, s, i) && Shown(g, s')[i] == w[i] {
      SpillUnchanged(g, s, s', i);
      if i == b {
        assert s'.slots[b][..s.counts[b] + 1] == s.slots[b][..s.counts[b]] + [c.rec];
      }
    }
    assert Shown(g, s') == w;
    SpilledUpdate(g, v, b, c.rec, 0, g.nb);
    SpilledUpdate(g, v, b, c.rec, 1, g.nb);
  }

  /** An arrival at a full bucket with no pool. */
  lemma ArriveNowhere(g: Geometry, s: RecordSet, c: Child)
    requires Fits(g, s) && InStep(g, s) && s.counts[c.bucket % g.nb] >= g.cap && g.pool == 0
    ensures Shown(g, Arrive(g, s, c)) == Append(g, Shown(g, s), c)
    ensures InStep(g, Arrive(g, s, c))
  {
    hide Spilled, Spill, Visible;
    var s', v := Arrive(g, s, c), Shown(g, s);
    forall i | 0 <= i < g.nb ensures Spill(g, s', i) == Spill(g, s, i) && Shown(g, s')[i] == v[i] {
      SpillUnchanged(g, s, s', i);
    }
    assert Shown(g, s') == v;
  }

  /** How an arrival at a full bucket moves the chains. */
  lemma SpillOfArrival(g: Geometry, s: RecordSet, c: Child, i: nat)
    requires Fits(g, s) && s.counts[c.bucket % g.nb] >= g.cap && g.pool > 0 && i < g.nb
    ensures var b := c.bucket % g.nb;
      var a := s.cursors[HalfOf(g, b)];
      Spill(g, Arrive(g, s, c), i) == if i == b && a < g.pool then Spill(g, s, i) + [a] else Spill(g, s, i)
  {
    hide Visible, Shown;
    var h, s' := HalfOf(g, i), Arrive(g, s, c);
    TaggedUnchanged(s.pools[h], s'.pools[h], Min(s.cursors[h], g.pool), i);
  }

  lemma WalkOfArrival(g: Geometry, s: RecordSet, c: Child, i: nat)
    requires Fits(g, s) && s.counts[c.bucket % g.nb] >= g.cap && g.pool > 0 && i < g.nb
    ensures var s', h := Arrive(g, s, c), HalfOf(g, i);
      && Walk(s'.pools[h], Spill(g, s, i)) == Walk(s.pools[h], Spill(g, s, i))
      && (s.cursors[h] < g.pool && i == c.bucket % g.nb ==>
            Walk(s'.pools[h], Spill(g, s, i) + [s.cursors[h]]) == Walk(s.pools[h], Spill(g, s, i)) + [c.rec])
  {
    hide Visible, Shown, Tagged;
    var s', h := Arrive(g, s, c), HalfOf(g, i);
    forall k | 0 <= k < |Spill(g, s, i)| ensures s'.pools[h][Spill(g, s, i)[k]] == s.pools[h][Spill(g, s, i)[k]] {
    }
  }

  lemma ShownOfArrival(g: Geometry, s: RecordSet, c: Child)
    requires Fits(g, s) && InStep(g, s) && s.counts[c.bucket % g.nb] >= g.cap && g.pool > 0
    ensures var b, v := c.bucket % g.nb, Shown(g, s);
      Shown(g, Arrive(g, s, c)) == if s.cursors[HalfOf(g, b)] < g.pool then v[b := v[b] + [c.rec]] else v
  {
    hide Spilled, Spill, Visible, Walk, InStep;
    var b := c.bucket % g.nb;
    var s', v := Arrive(g, s, c), Shown(g, s);
    var w := if s.cursors[HalfOf(g, b)] < g.pool then v[b := v[b] + [c.rec]] else v;
    forall i | 0 <= i < g.nb ensures Shown(g, s')[i] == w[i] {
      SpillOfArrival(g, s, c, i);
      WalkOfArrival(g, s, c, i);
    }
    assert Shown(g, s') == w;
  }

  /** Only full buckets spill, after it as before. */
  lemma FullBucketsSpill(g: Geometry, s: RecordSet, c: Child, i: nat)
    requires Fits(g, s) && InStep(g, s) && s.counts[c.bucket % g.nb] >= g.cap && g.pool > 0 && i < g.nb
    ensures Spill(g, Arrive(g, s, c), i) != [] ==> Arrive(g, s, c).counts[i] >= g.cap
  {
    hide Spilled, Spill, Visible, Walk, Shown;
    SpillOfArrival(g, s, c, i);
  }

  /** An arrival at a full bucket, into the pool or past its end. */
  lemma ArriveInPool(g: Geometry, s: RecordSet, c: Child)
    requires Fits(g, s) && InStep(g, s) && s.counts[c.bucket % g.nb] >= g.cap && g.pool > 0
    ensures Shown(g, Arrive(g, s, c)) == Append(g, Shown(g, s), c)
    ensures InStep(g, Arrive(g, s, c))
  {
    hide Spilled, Spill, Visible, Walk, Shown, Tagged;
    var b := c.bucket % g.nb;
    var s', v := Arrive(g, s, c), Shown(g, s);
    ShownOfArrival(g, s, c);
    forall i | 0 <= i < g.nb ensures Spill(g, s', i) != [] ==> s'.counts[i] >= g.cap {
      FullBucketsSpill(g, s, c, i);
    }
    SpilledUpdate(g, v, b, c.rec, 0, g.nb);
    SpilledUpdate(g, v, b, c.rec, 1, g.nb);
  }

  /** A scatter is seen only through counters and cursors: stale slots behind them never show. */
  lemma {:induction false} ScatterShown(g: Geometry, s: RecordSet, cs: seq<Child>)
    requires Fits(g, s) && InStep(g, s)
    ensures Shown(g, Scatter(g, s, cs)) == AppendAll(g, Shown(g, s), cs)
    decreases |cs|
  {
    hide Arrive, Append, InStep;
    if cs == [] {
    } else {
      if s.counts[cs[0].bucket % g.nb] < g.cap {
        ArriveInBucket(g, s, cs[0]);
      } else if g.pool == 0 {
        ArriveNowhere(g, s, cs[0]);
      } else {
        ArriveInPool(g, s, cs[0]);
      }
      ScatterShown(g, Arrive(g, s, cs[0]), cs[1..]);
    }
  }

  lemma ChainIsEmpty(g: Geometry, chain: seq<nat>)
    requires InPool(g, chain)
    ensures chain != [] ==> g.pool > 0
  {
    assert chain != [] ==> chain[0] < g.pool;
  }

  /** Linking shows what is there, when the chains were emptied before. */
  lemma LinkShows(g: Geometry, s: RecordSet)
    requires Fits(g, s) && (g.pool > 0 ==> s.chains == NoChains(g.nb))
    ensures Visible(g, Link(g, s)) == Shown(g, s)
  {
    forall b | 0 <= b < g.nb ensures Visible(g, Link(g, s))[b] == Shown(g, s)[b] {
      if g.pool == 0 {
        ChainIsEmpty(g, s.chains[b]);
        ChainIsEmpty(g, Spill(g, s, b));
      } else {
        assert Spill(g, s, b) + s.chains[b] == Spill(g, s, b);
      }
    }
  }

  /** Clear, scatter, link, and what is visible depends on the children alone. */
  lemma FreshScatterVisible(g: Geometry, s: RecordSet, cs: seq<Child>)
    requires Fits(g, s)
    ensures Visible(g, Link(g, Scatter(g, Clear(g, s), cs))) == AppendAll(g, Empty(g), cs)
  {
    hide InStep, Visible, Shown, AppendAll, Scatter, Clear, Link;
    ClearedIsEmpty(g, s);
    ScatterShown(g, Clear(g, s), cs);
    LinkShows(g, Scatter(g, Clear(g, s), cs));
  }

  /** Without a pool there is nothing to reset or to link. */
  lemma NoPool(g: Geometry, s: RecordSet)
    requires Fits(g, s) && g.pool == 0
    ensures Clear(g, s) == ZeroCounts(s) && Link(g, s) == s
  {
  }

  /** Two launches in queue order are one launch over both ranges. */
  lemma {:induction false} ScatterConcat(g: Geometry, s: RecordSet, a: seq<Child>, b: seq<Child>)
    requires Fits(g, s)
    ensures Scatter(g, Scatter(g, s, a), b) == Scatter(g, s, a + b)
    decreases |a|
  {
    hide Arrive, Fits;
    if a == [] {
      assert a + b == b;
    } else {
      assert (a + b)[1..] == a[1..] + b && (a + b)[0] == a[0];
      ScatterConcat(g, Arrive(g, s, a[0]), a[1..], b);
    }
  }

  // ---- which records a scatter keeps ---------------------------------------------------------------

  /** The records of the children that belong in bucket b, in order. */
  function Emitted(g: Geometry, cs: seq<Child>, b: nat): seq<Rec>
    requires g.nb > 0
    decreases |cs|
  {
    if cs == [] then [] else (if cs[0].bucket % g.nb == b then [cs[0].rec] else []) + Emitted(g, cs[1..], b)
  }

  /** Every child's record behind what v holds of its bucket. */
  function WithAll(g: Geometry, v: View, cs: seq<Child>): (w: View)
    requires g.nb > 0 && |v| == g.nb
    ensures |w| == g.nb
    ensures forall b :: 0 <= b < g.nb ==> w[b] == v[b] + Emitted(g, cs, b)
  {
    seq(g.nb, b requires 0 <= b < g.nb => v[b] + Emitted(g, cs, b))
  }

  lemma WithAllStep(g: Geometry, v: View, cs: seq<Child>)
    requires g.nb > 0 && |v| == g.nb && cs != []
    ensures var b := cs[0].bucket % g.nb;
      WithAll(g, v[b := v[b] + [cs[0].rec]], cs[1..]) == WithAll(g, v, cs)
  {
    var b := cs[0].bucket % g.nb;
    var v' := v[b := v[b] + [cs[0].rec]];
    forall i | 0 <= i < g.nb ensures v'[i] + Emitted(g, cs[1..], i) == v[i] + Emitted(g, cs, i) {
      if i == b {
        assert v[i] + [cs[0].rec] + Emitted(g, cs[1..], i) == v[i] + ([cs[0].rec] + Emitted(g, cs[1..], i));
      }
    }
    assert WithAll(g, v', cs[1..]) == WithAll(g, v, cs);
  }

  lemma {:induction false} SpilledGrows(g: Geometry, v: View, w: View, h: nat, n: nat)
    requires n <= |v| == |w| && forall b :: 0 <= b < n ==> |v[b]| <= |w[b]|
    ensures Spilled(g, v, h, n) <= Spilled(g, w, h, n)
  {
    if n == 0 {
    } else {
      SpilledGrows(g, v, w, h, n - 1);
    }
  }

  /** What buckets lo..hi hold beyond their capacity. */
  function Excess(g: Geometry, v: View, lo: nat, hi: nat): nat
    requires lo <= hi <= |v|
    decreases hi
  {
    if lo == hi then 0
    else Excess(g, v, lo, hi - 1) + if |v[hi - 1]| > g.cap then |v[hi - 1]| - g.cap else 0
  }

  /** The first half is the buckets below `half`, the second the others; each has a pool of its own. */
  lemma {:induction false} HalvesAreRanges(g: Geometry, v: View, n: nat)
    requires n <= |v|
    ensures n <= g.half ==> Spilled(g, v, 0, n) == Excess(g, v, 0, n) && Spilled(g, v, 1, n) == 0
    ensures n >= g.half ==> Spilled(g, v, 0, n) == Excess(g, v, 0, g.half) && Spilled(g, v, 1, n) == Excess(g, v, g.half, n)
  {
    if n == 0 {
    } else {
      HalvesAreRanges(g, v, n - 1);
    }
  }

  /** A scatter whose overflow fits the pools of both halves loses nothing and moves nothing. */
  lemma {:induction false} NothingDropped(g: Geometry, v: View, cs: seq<Child>)
    requires g.nb > 0 && |v| == g.nb
    requires forall h :: 0 <= h < 2 ==> Spilled(g, WithAll(g, v, cs), h, g.nb) <= g.pool
    ensures AppendAll(g, v, cs) == WithAll(g, v, cs)
    decreases |cs|
  {
    hide Spilled, Emitted;
    if cs == [] {
      NothingEmitted(g, v);
    } else {
      var b := cs[0].bucket % g.nb;
      var v' := v[b := v[b] + [cs[0].rec]];
      WithAllStep(g, v, cs);
      SpilledGrows(g, v', WithAll(g, v', cs[1..]), HalfOf(g, b), g.nb);
      SpilledUpdate(g, v, b, cs[0].rec, HalfOf(g, b), g.nb);
      NothingDropped(g, v', cs[1..]);
    }
  }

  lemma NothingEmitted(g: Geometry, v: View)
    requires g.nb > 0 && |v| == g.nb
    ensures WithAll(g, v, []) == v
  {
    forall b | 0 <= b < g.nb ensures v[b] + Emitted(g, [], b) == v[b] {
    }
  }

  /** Whatever overflows, a bucket keeps its first `cap` records; without a pool it keeps just those. */
  lemma {:induction false} FirstCapSurvive(g: Geometry, v: View, cs: seq<Child>, b: nat)
    requires g.nb > 0 && |v| == g.nb && b < g.nb && |v[b]| <= g.cap
    ensures var all, w := v[b] + Emitted(g, cs, b), AppendAll(g, v, cs);
      all[..Min(|all|, g.cap)] <= w[b] && (g.pool == 0 ==> w[b] == all[..Min(|all|, g.cap)])
    decreases |cs|
  {
    hide Spilled;
    if cs == [] {
    } else {
      var v' := Append(g, v, cs[0]);
      var e := Emitted(g, cs[1..], b);
      if cs[0].bucket % g.nb != b {
        FirstCapSurvive(g, v', cs[1..], b);
      } else {
        assert v[b] + ([cs[0].rec] + e) == v[b] + [cs[0].rec] + e;
        if |v[b]| < g.cap {
          FirstCapSurvive(g, v', cs[1..], b);
        } else {
          assert (v[b] + [cs[0].rec] + e)[..g.cap] == v[b];
          FullStaysFull(g, v', cs[1..], b);
        }
      }
    }
  }

  /** Records already there stay in front, and a full bucket takes no more without a pool. */
  lemma {:induction false} FullStaysFull(g: Geometry, v: View, cs: seq<Child>, b: nat)
    requires g.nb > 0 && |v| == g.nb && b < g.nb && |v[b]| >= g.cap
    ensures v[b] <= AppendAll(g, v, cs)[b]
    ensures g.pool == 0 ==> AppendAll(g, v, cs)[b] == v[b]
    decreases |cs|
  {
    hide Spilled;
    if cs == [] {
    } else {
      FullStaysFull(g, Append(g, v, cs[0]), cs[1..], b);
    }
  }
}
