/**
  The CPU verify gate (src/beamhash/bh3_verify.cpp).

  `ClassifySolution` runs the five rounds in place, pair by pair, with early returns. It
  is specified against the recursive definition of a valid five-level index tree; the two
  hash functions stay opaque.
 */
module BeamVerify {
  import opened Numbers
  import opened Digits
  import opened BeamPrimitives
  import opened IndexPacking

  /** BLAKE2b over (input, nonce, extraNonce) and SipHash over (prePow, counter). */
  datatype Hashes = Hashes(
    prepow: (seq<nat>, seq<nat>, seq<nat>) -> seq<nat>,
    siphash: (seq<nat>, nat) -> Word64)

  datatype Kind = None | Collision | DupIndex | Order | NonZero

  datatype VerifyReason = VerifyReason(kind: Kind, round: nat)

  function SeedElement(h: Hashes, pp: seq<nat>, index: nat): Elem
  {
    seq(WORK_WORDS, k requires 0 <= k < WORK_WORDS => SeedWord(h, pp, index, k))
  }

  function SeedWord(h: Hashes, pp: seq<nat>, index: nat, k: nat): (w: nat)
    ensures w < Pow2(64)
  {
    h.siphash(pp, 8 * index + k)
  }

  /**
    Word k of an index's element is the hash at counter 8·index + k: the seven words of an index
    take consecutive counters, no two words of any two indices share one, and all fit 64 bits.
   */
  lemma SeedCounters(h: Hashes, pp: seq<nat>, index: nat, k: nat, index': nat, k': nat)
    requires k < WORK_WORDS && k' < WORK_WORDS && index < Pow2(32)
    ensures SeedElement(h, pp, index)[k] == h.siphash(pp, 8 * index + k)
    ensures 8 * index + k == 8 * index' + k' <==> index == index' && k == k'
    ensures 8 * index + k < Pow2(64)
  {
    hide Pow2;
    Pow2Mono(36, 64);
    Pow2Add(4, 32);
    assert Pow2(4) == 16 by {
      Pow2Small();
    }
  }

  lemma Pow2Small()
    ensures Pow2(4) == 16
  {
  }

  function Lmix(round: nat): (l: nat)
    requires 1 <= round <= 5
    ensures l <= 512
  {
    if round == 5 then 448 - (round - 1) * 24 - 64 else 448 - (round - 1) * 24
  }

  function Lout(round: nat): nat
    requires 1 <= round <= 5
  {
    if round == 5 then 24 else if round == 4 then 448 - round * 24 - 64 else 448 - round * 24
  }

  // ---- the recursive definition --------------------------------------------------------

  ghost predicate IsTree(leaves: seq<nat>, level: nat)
  {
    level <= 5 && |leaves| == Pow2(level) && AreLeaves(leaves)
  }

  function Left(leaves: seq<nat>): seq<nat> { leaves[..|leaves| / 2] }

  function Right(leaves: seq<nat>): seq<nat> { leaves[|leaves| / 2..] }

  lemma SubtreesAreTrees(leaves: seq<nat>, level: nat)
    requires IsTree(leaves, level) && level > 0
    ensures IsTree(Left(leaves), level - 1) && IsTree(Right(leaves), level - 1)
    ensures Left(leaves) != [] && Right(leaves) != []
  {
  }

  /** The element at the root of a subtree, after `level` rounds. */
  ghost function Build(h: Hashes, pp: seq<nat>, leaves: seq<nat>, level: nat): Elem
    requires IsTree(leaves, level)
    decreases |leaves|, 0
  {
    if level == 0 then SeedElement(h, pp, leaves[0])
    else
      SubtreesAreTrees(leaves, level);
      Combined(Mixed(h, pp, Left(leaves), level - 1), Mixed(h, pp, Right(leaves), level - 1), Lout(level))
  }

  /** The same element once the next round has mixed its leaves in. */
  ghost function Mixed(h: Hashes, pp: seq<nat>, leaves: seq<nat>, level: nat): Elem
    requires IsTree(leaves, level) && level < 5
    decreases |leaves|, 1
  {
    Mix(Build(h, pp, leaves, level), leaves, Lmix(level + 1))
  }

  ghost predicate Disjoint(a: seq<nat>, b: seq<nat>)
  {
    forall i, j :: 0 <= i < |a| && 0 <= j < |b| ==> a[i] != b[j]
  }

  /** What round `round` says about one pair of siblings, in the order the checks run. */
  ghost function PairKind(h: Hashes, pp: seq<nat>, a: seq<nat>, b: seq<nat>, round: nat): Kind
    requires 1 <= round <= 5 && IsTree(a, round - 1) && IsTree(b, round - 1)
  {
    if CollisionBits(Mixed(h, pp, a, round - 1)) != CollisionBits(Mixed(h, pp, b, round - 1)) then Collision
    else if !Disjoint(a, b) then DupIndex
    else if !(a[0] < b[0]) then Order
    else None
  }

  /** A valid index tree: every pair of siblings at every level collides, is disjoint and in order. */
  ghost predicate ValidTree(h: Hashes, pp: seq<nat>, leaves: seq<nat>, level: nat)
    requires IsTree(leaves, level)
    decreases |leaves|
  {
    level == 0 ||
    (SubtreesAreTrees(leaves, level);
     && ValidTree(h, pp, Left(leaves), level - 1)
     && ValidTree(h, pp, Right(leaves), level - 1)
     && PairKind(h, pp, Left(leaves), Right(leaves), level) == None)
  }

  ghost predicate IsZeroElem(e: Elem) { ElemValue(e) == 0 }

  // ---- the levels the round loop walks ---------------------------------------------------

  function Singles(idx: seq<nat>): (s: seq<seq<nat>>)
    ensures |s| == |idx|
    ensures forall i :: 0 <= i < |idx| ==> s[i] == [idx[i]]
  {
    if idx == [] then [] else [[idx[0]]] + Singles(idx[1..])
  }

  /** Sibling trees joined left to right. */
  function PairUp(s: seq<seq<nat>>): (p: seq<seq<nat>>)
    requires |s| % 2 == 0
    ensures |p| == |s| / 2
    ensures forall i :: 0 <= i < |p| ==> p[i] == s[2 * i] + s[2 * i + 1]
  {
    if s == [] then [] else
    assert forall i :: 1 <= i < |s| / 2 ==> s[2..][2 * (i - 1)] == s[2 * i] && s[2..][2 * (i - 1) + 1] == s[2 * i + 1];
    [s[0] + s[1]] + PairUp(s[2..])
  }

  /** The index trees the loop holds before round level + 1. */
  ghost function Level(idx: seq<nat>, level: nat): (s: seq<seq<nat>>)
    requires level <= 5 && IsTree(idx, 5)
    ensures |s| == Pow2(5 - level)
    ensures forall i :: 0 <= i < |s| ==> IsTree(s[i], level)
  {
    if level == 0 then Singles(idx) else PairUp(Level(idx, level - 1))
  }

  function Flatten(s: seq<seq<nat>>): seq<nat>
  {
    if s == [] then [] else s[0] + Flatten(s[1..])
  }

  lemma {:induction false} FlattenPairUp(s: seq<seq<nat>>)
    requires |s| % 2 == 0
    ensures Flatten(PairUp(s)) == Flatten(s)
  {
    if s == [] {
    } else {
      FlattenPairUp(s[2..]);
      assert s[1..][1..] == s[2..];
      assert PairUp(s)[1..] == PairUp(s[2..]);
    }
  }

  lemma {:induction false} FlattenSingles(idx: seq<nat>)
    ensures Flatten(Singles(idx)) == idx
  {
    if idx == [] {
    } else {
      FlattenSingles(idx[1..]);
      assert Singles(idx)[1..] == Singles(idx[1..]);
    }
  }

  lemma {:induction false} FlattenLevel(idx: seq<nat>, level: nat)
    requires level <= 5 && IsTree(idx, 5)
    ensures Flatten(Level(idx, level)) == idx
  {
    if level == 0 {
      FlattenSingles(idx);
    } else {
      FlattenLevel(idx, level - 1);
      FlattenPairUp(Level(idx, level - 1));
    }
  }

  lemma FlattenOne(s: seq<seq<nat>>)
    requires |s| == 1
    ensures s == [Flatten(s)]
  {
    assert s[1..] == [];
    assert Flatten(s[1..]) == [];
    assert Flatten(s) == s[0] + [] == s[0];
    assert s == [s[0]];
  }

  lemma OneLeaf(leaves: seq<nat>)
    requires IsTree(leaves, 0)
    ensures |leaves| == 1
  {
  }

  /** After the last round one tree is left, and it is the whole index list. */
  lemma LastLevel(idx: seq<nat>)
    requires IsTree(idx, 5)
    ensures Level(idx, 5) == [idx]
  {
    FlattenLevel(idx, 5);
    var s := Level(idx, 5);
    assert |s| == 1;
    FlattenOne(s);
  }

  /** The verdict on pair i of round `round`. */
  ghost function Verdict(h: Hashes, pp: seq<nat>, idx: seq<nat>, round: nat, i: nat): Kind
    requires 1 <= round <= 5 && IsTree(idx, 5) && i < Pow2(5 - round)
  {
    var s := Level(idx, round - 1);
    PairKind(h, pp, s[2 * i], s[2 * i + 1], round)
  }

  ghost predicate RoundPasses(h: Hashes, pp: seq<nat>, idx: seq<nat>, round: nat)
    requires 1 <= round <= 5 && IsTree(idx, 5)
  {
    forall i :: 0 <= i < Pow2(5 - round) ==> Verdict(h, pp, idx, round, i) == None
  }

  ghost predicate RoundsPass(h: Hashes, pp: seq<nat>, idx: seq<nat>, upTo: nat)
    requires upTo <= 5 && IsTree(idx, 5)
  {
    forall r :: 1 <= r <= upTo ==> RoundPasses(h, pp, idx, r)
  }

  /**
    What the reported reason means: the first failing pair in round-major, left-to-right
    order with its first failing check; NonZero only when every pair passed; None only
    when the root is zero as well.
   */
  ghost predicate Explains(h: Hashes, pp: seq<nat>, idx: seq<nat>, reason: VerifyReason)
    requires IsTree(idx, 5)
  {
    match reason.kind
    case None => reason.round == 0 && RoundsPass(h, pp, idx, 5) && IsZeroElem(Build(h, pp, idx, 5))
    case NonZero => reason.round == 0 && RoundsPass(h, pp, idx, 5) && !IsZeroElem(Build(h, pp, idx, 5))
    case kind =>
      && 1 <= reason.round <= 5
      && RoundsPass(h, pp, idx, reason.round - 1)
      && FirstFailure(h, pp, idx, reason.round, kind)
  }

  ghost predicate FirstFailure(h: Hashes, pp: seq<nat>, idx: seq<nat>, round: nat, kind: Kind)
    requires 1 <= round <= 5 && IsTree(idx, 5)
  {
    exists i | 0 <= i < Pow2(5 - round) ::
      && Verdict(h, pp, idx, round, i) == kind && kind != None
      && forall k :: 0 <= k < i ==> Verdict(h, pp, idx, round, k) == None
  }

  /** No two reasons explain one candidate, so `Explains` determines the report completely. */
  lemma ReasonIsUnique(h: Hashes, pp: seq<nat>, idx: seq<nat>, a: VerifyReason, b: VerifyReason)
    requires IsTree(idx, 5) && Explains(h, pp, idx, a) && Explains(h, pp, idx, b)
    ensures a == b
  {
    hide Verdict, Pow2, Build;
    assert a.round != 0 && (b.round == 0 || a.round < b.round) ==> RoundPasses(h, pp, idx, a.round);
    assert b.round != 0 && (a.round == 0 || b.round < a.round) ==> RoundPasses(h, pp, idx, b.round);
  }

  // ---- the loop -----------------------------------------------------------------------------

  method IsZero(e: Elem) returns (z: bool)
    ensures z <==> IsZeroElem(e)
  {
    ValueZero(64, e);
    for i := 0 to WORK_WORDS
      invariant forall k :: 0 <= k < i ==> e[k] == 0
    {
      if e[i] != 0 {
        return false;
      }
    }
    return true;
  }

  method Distinct(a: seq<nat>, b: seq<nat>) returns (d: bool)
    ensures d <==> Disjoint(a, b)
  {
    for i := 0 to |a|
      invariant Disjoint(a[..i], b)
    {
      for j := 0 to |b|
        invariant forall k :: 0 <= k < j ==> a[i] != b[k]
      {
        if a[i] == b[j] {
          return false;
        }
      }
      assert a[..i + 1] == a[..i] + [a[i]];
    }
    assert a[..|a|] == a;
    return true;
  }

  datatype Group = Group(e: Elem, tree: seq<nat>)

  /** Group j holds tree s[j] and the element built from it. */
  ghost predicate Holds(h: Hashes, pp: seq<nat>, g: Group, tree: seq<nat>, level: nat)
    requires IsTree(tree, level)
  {
    g.tree == tree && g.e == Build(h, pp, tree, level)
  }

  /** Joining the halves of a tree gives the tree back. */
  lemma JoinSplits(a: seq<nat>, b: seq<nat>)
    requires |a| == |b|
    ensures Left(a + b) == a && Right(a + b) == b
  {
  }

  lemma BuildOfPair(h: Hashes, pp: seq<nat>, a: seq<nat>, b: seq<nat>, round: nat)
    requires 1 <= round <= 5 && IsTree(a, round - 1) && IsTree(b, round - 1)
    ensures IsTree(a + b, round)
    ensures Build(h, pp, a + b, round)
         == Combined(Mixed(h, pp, a, round - 1), Mixed(h, pp, b, round - 1), Lout(round))
  {
    JoinSplits(a, b);
  }

  ghost predicate HoldsLevel(h: Hashes, pp: seq<nat>, X: seq<Group>, idx: seq<nat>, level: nat)
    requires level <= 5 && IsTree(idx, 5)
  {
    && |X| == |Level(idx, level)|
    && forall j :: 0 <= j < |X| ==> Holds(h, pp, X[j], Level(idx, level)[j], level)
  }

  method ClassifySolution(h: Hashes, input: seq<nat>, nonce: seq<nat>, soln: seq<nat>)
    returns (reason: VerifyReason)
    requires |soln| == 104 && AreDigits(8, soln)
    ensures IsTree(Unpacked(soln[..100]), 5)
    ensures Explains(h, h.prepow(input, nonce, soln[100..]), Unpacked(soln[..100]), reason)
  {
    hide Pow2, SeedElement, Build, Explains, RoundsPass, IsTree, Level, IsZeroElem, HoldsLevel, Unpacked;
    var pp := h.prepow(input, nonce, soln[100..]);
    var idx := UnpackIndices(soln);
    IndicesAreTree(soln[..100]);

    var X: seq<Group> := [];
    for k := 0 to NUM_INDICES
      invariant |X| == k
      invariant forall j :: 0 <= j < k ==> X[j] == Group(SeedElement(h, pp, idx[j]), [idx[j]])
    {
      X := X + [Group(SeedElement(h, pp, idx[k]), [idx[k]])];
    }

    var round := 1;
    SeedsHold(h, pp, idx, X);
    while |X| > 1
      invariant 1 <= round <= 6
      invariant HoldsLevel(h, pp, X, idx, round - 1)
      invariant RoundsPass(h, pp, idx, round - 1)
      decreases 6 - round
    {
      NotYetAtTheRoot(h, pp, X, idx, round);
      var failed;
      failed, X := RunRound(h, pp, idx, round, X);
      if failed != None {
        return VerifyReason(failed, round);
      }
      round := round + 1;
    }
    AtTheRoot(h, pp, X, idx, round);
    var zero := IsZero(X[0].e);
    RootExplained(h, pp, idx);
    if !zero {
      return VerifyReason(NonZero, 0);
    }
    return VerifyReason(None, 0);
  }

  /**
    One round: mix both siblings of each pair in place, check them, and combine them into
    the next level; stop at the first pair that fails a check and say which check it was.
   */
  method RunRound(h: Hashes, pp: seq<nat>, ghost idx: seq<nat>, round: nat, X0: seq<Group>)
    returns (failed: Kind, Xtmp: seq<Group>)
    requires 1 <= round <= 5 && IsTree(idx, 5)
    requires HoldsLevel(h, pp, X0, idx, round - 1) && RoundsPass(h, pp, idx, round - 1)
    ensures failed != None ==> Explains(h, pp, idx, VerifyReason(failed, round))
    ensures failed == None ==> HoldsLevel(h, pp, Xtmp, idx, round) && RoundsPass(h, pp, idx, round)
  {
    hide Pow2, Mix, Combined, CollisionBits, Verdict, PairKind, Build, Mixed, Explains, RoundsPass,
         IsTree, Level, Disjoint, Lmix, Lout;
    LevelSizesAt(idx, round);
    ghost var s, next := Level(idx, round - 1), Level(idx, round);
    var X := X0;
    Xtmp := [];
    var i := 0;
    ghost var k := 0;
    while i < |X|
      invariant i == 2 * k && i <= |X| == |s| && |Xtmp| == k
      invariant forall j :: i <= j < |X| ==> Holds(h, pp, X[j], s[j], round - 1)
      invariant forall j :: 0 <= j < k ==> Holds(h, pp, Xtmp[j], next[j], round)
      invariant forall p :: 0 <= p < k ==> Verdict(h, pp, idx, round, p) == None
      decreases |X| - i
    {
      PairOfLevel(idx, round, k);
      PairMeans(h, pp, s[2 * k], s[2 * k + 1], round);
      VerdictIsOfPair(h, pp, idx, round, k);
      var lmix := Lmix(round);
      var a := ApplyMix(X[i].e, X[i].tree, lmix);
      X := X[i := X[i].(e := a)];
      var b := ApplyMix(X[i + 1].e, X[i + 1].tree, lmix);
      X := X[i + 1 := X[i + 1].(e := b)];

      var distinct := Distinct(X[i].tree, X[i + 1].tree);
      failed := if CollisionBits(X[i].e) != CollisionBits(X[i + 1].e) then Collision
                else if !distinct then DupIndex
                else if !(X[i].tree[0] < X[i + 1].tree[0]) then Order
                else None;
      assert failed == Verdict(h, pp, idx, round, k);
      if failed != None {
        FailureExplained(h, pp, idx, round, k);
        return;
      }

      var e := Combine(X[i].e, X[i + 1].e, Lout(round));
      Xtmp := Xtmp + [Group(e, X[i].tree + X[i + 1].tree)];
      i, k := i + 2, k + 1;
    }
    RoundDone(h, pp, idx, round);
    failed := None;
  }

  /** Pair k of a round is joined into tree k of the next level. */
  lemma PairOfLevel(idx: seq<nat>, round: nat, k: nat)
    requires 1 <= round <= 5 && IsTree(idx, 5) && k < Pow2(5 - round)
    ensures 2 * k + 1 < |Level(idx, round - 1)| && k < |Level(idx, round)|
    ensures var s, t := Level(idx, round - 1), Level(idx, round)[k];
      var a, b := s[2 * k], s[2 * k + 1];
      && IsTree(a, round - 1) && IsTree(b, round - 1) && IsTree(t, round) && t == a + b
      && AreLeaves(a) && AreLeaves(b) && a != [] && b != []
  {
    hide Pow2, Level, AreLeaves;
    LevelSizesAt(idx, round);
    var s := Level(idx, round - 1);
    NonEmptyTree(s[2 * k], round - 1);
    NonEmptyTree(s[2 * k + 1], round - 1);
  }

  /** Everything one pass over the inner loop needs about a pair. */
  lemma PairMeans(h: Hashes, pp: seq<nat>, a: seq<nat>, b: seq<nat>, round: nat)
    requires 1 <= round <= 5 && IsTree(a, round - 1) && IsTree(b, round - 1)
    ensures AreLeaves(a) && AreLeaves(b) && a != [] && b != [] && IsTree(a + b, round)
    ensures Mixed(h, pp, a, round - 1) == Mix(Build(h, pp, a, round - 1), a, Lmix(round))
    ensures Mixed(h, pp, b, round - 1) == Mix(Build(h, pp, b, round - 1), b, Lmix(round))
    ensures Build(h, pp, a + b, round) == Combined(Mixed(h, pp, a, round - 1), Mixed(h, pp, b, round - 1), Lout(round))
    ensures PairKind(h, pp, a, b, round)
         == (if CollisionBits(Mixed(h, pp, a, round - 1)) != CollisionBits(Mixed(h, pp, b, round - 1)) then Collision
             else if !Disjoint(a, b) then DupIndex
             else if !(a[0] < b[0]) then Order
             else None)
  {
    hide Pow2, Build, Mix, Combined, CollisionBits, Disjoint, Lmix, Lout, AreLeaves;
    NonEmptyTree(a, round - 1);
    NonEmptyTree(b, round - 1);
    BuildOfPair(h, pp, a, b, round);
  }

  lemma VerdictIsOfPair(h: Hashes, pp: seq<nat>, idx: seq<nat>, round: nat, k: nat)
    requires 1 <= round <= 5 && IsTree(idx, 5) && k < Pow2(5 - round)
    requires 2 * k + 1 < |Level(idx, round - 1)|
    ensures Verdict(h, pp, idx, round, k) == PairKind(h, pp, Level(idx, round - 1)[2 * k], Level(idx, round - 1)[2 * k + 1], round)
  {
    hide PairKind;
  }

  lemma NonEmptyTree(leaves: seq<nat>, level: nat)
    requires IsTree(leaves, level)
    ensures leaves != []
  {
  }

  lemma LevelSizesAt(idx: seq<nat>, round: nat)
    requires IsTree(idx, 5) && 1 <= round <= 5
    ensures |Level(idx, round - 1)| == 2 * |Level(idx, round)|
    ensures |Level(idx, round)| == Pow2(5 - round)
    ensures forall i :: 0 <= i < |Level(idx, round)| ==>
              Level(idx, round)[i] == Level(idx, round - 1)[2 * i] + Level(idx, round - 1)[2 * i + 1]
  {
  }

  lemma FailureExplained(h: Hashes, pp: seq<nat>, idx: seq<nat>, round: nat, k: nat)
    requires 1 <= round <= 5 && IsTree(idx, 5) && k < Pow2(5 - round)
    requires RoundsPass(h, pp, idx, round - 1)
    requires forall i :: 0 <= i < k ==> Verdict(h, pp, idx, round, i) == None
    requires Verdict(h, pp, idx, round, k) != None && Verdict(h, pp, idx, round, k) != NonZero
    ensures Explains(h, pp, idx, VerifyReason(Verdict(h, pp, idx, round, k), round))
  {
    hide Verdict, Pow2;
    assert FirstFailure(h, pp, idx, round, Verdict(h, pp, idx, round, k));
  }

  lemma RoundDone(h: Hashes, pp: seq<nat>, idx: seq<nat>, round: nat)
    requires 1 <= round <= 5 && IsTree(idx, 5)
    requires RoundsPass(h, pp, idx, round - 1)
    requires forall i :: 0 <= i < Pow2(5 - round) ==> Verdict(h, pp, idx, round, i) == None
    ensures RoundsPass(h, pp, idx, round)
  {
    hide Verdict, Pow2;
    assert RoundPasses(h, pp, idx, round);
  }

  lemma RootExplained(h: Hashes, pp: seq<nat>, idx: seq<nat>)
    requires IsTree(idx, 5) && RoundsPass(h, pp, idx, 5)
    ensures IsZeroElem(Build(h, pp, idx, 5)) ==> Explains(h, pp, idx, VerifyReason(None, 0))
    ensures !IsZeroElem(Build(h, pp, idx, 5)) ==> Explains(h, pp, idx, VerifyReason(NonZero, 0))
  {
    hide Build, Pow2, RoundsPass, IsZeroElem;
  }

  lemma IndicesAreTree(bytes: seq<nat>)
    requires |bytes| == PACKED_BYTES && AreDigits(8, bytes)
    ensures AreDigits(25, Unpacked(bytes)) && IsTree(Unpacked(bytes), 5) && |Unpacked(bytes)| == NUM_INDICES
  {
    PackUnpack(bytes);
    Pow2Mono(25, 32);
  }

  lemma LevelZero(h: Hashes, pp: seq<nat>, idx: seq<nat>)
    requires IsTree(idx, 5)
    ensures |Level(idx, 0)| == |idx| == 32
    ensures RoundsPass(h, pp, idx, 0)
    ensures forall j :: 0 <= j < 32 ==>
              && Level(idx, 0)[j] == [idx[j]] && IsTree(Level(idx, 0)[j], 0)
              && Build(h, pp, Level(idx, 0)[j], 0) == SeedElement(h, pp, idx[j])
  {
  }

  lemma SeedsHold(h: Hashes, pp: seq<nat>, idx: seq<nat>, X: seq<Group>)
    requires IsTree(idx, 5) && |X| == 32
    requires forall j :: 0 <= j < 32 ==> X[j] == Group(SeedElement(h, pp, idx[j]), [idx[j]])
    ensures HoldsLevel(h, pp, X, idx, 0) && RoundsPass(h, pp, idx, 0)
  {
    hide Pow2, Build, SeedElement, Level;
    LevelZero(h, pp, idx);
  }

  lemma NotYetAtTheRoot(h: Hashes, pp: seq<nat>, X: seq<Group>, idx: seq<nat>, round: nat)
    requires IsTree(idx, 5) && 1 <= round <= 6
    requires HoldsLevel(h, pp, X, idx, round - 1) && |X| > 1
    ensures round <= 5
  {
  }

  lemma AtTheRoot(h: Hashes, pp: seq<nat>, X: seq<Group>, idx: seq<nat>, round: nat)
    requires IsTree(idx, 5) && 1 <= round <= 6
    requires HoldsLevel(h, pp, X, idx, round - 1) && |X| <= 1
    ensures round == 6 && |X| == 1 && X[0].e == Build(h, pp, idx, 5)
  {
    LevelSize(idx, round - 1);
    LastLevel(idx);
  }

  lemma LevelSize(idx: seq<nat>, level: nat)
    requires IsTree(idx, 5) && level <= 5
    ensures |Level(idx, level)| == Pow2(5 - level)
    ensures level < 5 ==> |Level(idx, level)| > 1
  {
  }

  /** is_valid_solution */
  method IsValidSolution(h: Hashes, input: seq<nat>, nonce: seq<nat>, soln: seq<nat>) returns (ok: bool)
    requires |soln| == 104 && AreDigits(8, soln)
    ensures ok <==> Accepts(h, input, nonce, soln)
  {
    var reason := ClassifySolution(h, input, nonce, soln);
    ok := reason.kind == None;
    AcceptedIffValidTree(h, h.prepow(input, nonce, soln[100..]), Unpacked(soln[..100]));
    if !ok && Accepts(h, input, nonce, soln) {
      ReasonIsUnique(h, h.prepow(input, nonce, soln[100..]), Unpacked(soln[..100]), reason, VerifyReason(None, 0));
    }
  }

  /** Equihash validity of a 104-byte solution, by the recursive definition. */
  ghost predicate Accepts(h: Hashes, input: seq<nat>, nonce: seq<nat>, soln: seq<nat>)
    requires |soln| == 104 && AreDigits(8, soln)
  {
    var pp, idx := h.prepow(input, nonce, soln[100..]), Unpacked(soln[..100]);
    IndicesAreTree(soln[..100]);
    ValidTree(h, pp, idx, 5) && IsZeroElem(Build(h, pp, idx, 5))
  }

  ghost predicate LevelValid(h: Hashes, pp: seq<nat>, idx: seq<nat>, level: nat)
    requires level <= 5 && IsTree(idx, 5)
  {
    forall j :: 0 <= j < |Level(idx, level)| ==> ValidTree(h, pp, Level(idx, level)[j], level)
  }

  /** All trees of one level are valid exactly when every round up to it passed. */
  lemma {:induction false} LevelValidIffRoundsPass(h: Hashes, pp: seq<nat>, idx: seq<nat>, level: nat)
    requires level <= 5 && IsTree(idx, 5)
    ensures RoundsPass(h, pp, idx, level) <==> LevelValid(h, pp, idx, level)
  {
    hide ValidTree, Verdict, Level, PairKind, RoundPasses;
    if level > 0 {
      LevelValidIffRoundsPass(h, pp, idx, level - 1);
      LevelStep(h, pp, idx, level);
      assert RoundsPass(h, pp, idx, level)
        <==> RoundsPass(h, pp, idx, level - 1) && RoundPasses(h, pp, idx, level);
    } else {
      forall j | 0 <= j < |Level(idx, 0)| ensures ValidTree(h, pp, Level(idx, 0)[j], 0) {
        LeafIsValid(h, pp, Level(idx, 0)[j]);
      }
    }
  }

  lemma LeafIsValid(h: Hashes, pp: seq<nat>, leaf: seq<nat>)
    requires IsTree(leaf, 0)
    ensures ValidTree(h, pp, leaf, 0)
  {
  }

  lemma ValidOfPair(h: Hashes, pp: seq<nat>, a: seq<nat>, b: seq<nat>, round: nat)
    requires 1 <= round <= 5 && IsTree(a, round - 1) && IsTree(b, round - 1)
    ensures IsTree(a + b, round)
    ensures ValidTree(h, pp, a + b, round)
       <==> (ValidTree(h, pp, a, round - 1) && ValidTree(h, pp, b, round - 1)
             && PairKind(h, pp, a, b, round) == None)
  {
    JoinSplits(a, b);
  }

  lemma LevelStep(h: Hashes, pp: seq<nat>, idx: seq<nat>, level: nat)
    requires 1 <= level <= 5 && IsTree(idx, 5)
    ensures LevelValid(h, pp, idx, level)
       <==> LevelValid(h, pp, idx, level - 1) && RoundPasses(h, pp, idx, level)
  {
    hide ValidTree, PairKind;
    var s, t := Level(idx, level - 1), Level(idx, level);
    assert |s| == 2 * |t| && |t| == Pow2(5 - level);
    forall j | 0 <= j < |t|
      ensures ValidTree(h, pp, t[j], level)
         <==> (ValidTree(h, pp, s[2 * j], level - 1) && ValidTree(h, pp, s[2 * j + 1], level - 1)
               && Verdict(h, pp, idx, level, j) == None)
    {
      ValidOfPair(h, pp, s[2 * j], s[2 * j + 1], level);
    }
    if LevelValid(h, pp, idx, level) {
      forall j | 0 <= j < |s| ensures ValidTree(h, pp, s[j], level - 1) {
        assert ValidTree(h, pp, t[j / 2], level);
        assert j == 2 * (j / 2) || j == 2 * (j / 2) + 1;
      }
    }
  }

  /** The in-place loop accepts exactly the recursive definition. */
  lemma AcceptedIffValidTree(h: Hashes, pp: seq<nat>, idx: seq<nat>)
    requires IsTree(idx, 5)
    ensures Explains(h, pp, idx, VerifyReason(None, 0))
       <==> ValidTree(h, pp, idx, 5) && IsZeroElem(Build(h, pp, idx, 5))
  {
    hide ValidTree, Level, Build, Pow2;
    LevelValidIffRoundsPass(h, pp, idx, 5);
    LastLevel(idx);
    assert Level(idx, 5)[0] == idx;
  }

  // ---- consequences of acceptance -------------------------------------------------------------

  ghost predicate NoRepeat(s: seq<nat>)
  {
    forall i, j :: 0 <= i < j < |s| ==> s[i] != s[j]
  }

  ghost predicate FirstIsLeast(s: seq<nat>)
  {
    forall i :: 0 < i < |s| ==> s[0] < s[i]
  }

  /** The low 24 bits of two mixed siblings. */
  ghost predicate LowBitsAgree(h: Hashes, pp: seq<nat>, a: seq<nat>, b: seq<nat>, level: nat)
    requires level < 5 && IsTree(a, level) && IsTree(b, level)
  {
    ElemValue(Mixed(h, pp, a, level)) % Pow2(24) == ElemValue(Mixed(h, pp, b, level)) % Pow2(24)
  }

  ghost predicate ShareAnIndex(a: seq<nat>, b: seq<nat>) { exists x :: x in a && x in b }

  /** What each kind of failure of a pair is; the checks come in this order. */
  lemma PairKindMeans(h: Hashes, pp: seq<nat>, a: seq<nat>, b: seq<nat>, round: nat)
    requires 1 <= round <= 5 && IsTree(a, round - 1) && IsTree(b, round - 1)
    ensures a != [] && b != []
    ensures var kind, agree := PairKind(h, pp, a, b, round), LowBitsAgree(h, pp, a, b, round - 1);
      && (kind == Collision <==> !agree)
      && (kind == DupIndex <==> agree && ShareAnIndex(a, b))
      && (kind == Order <==> agree && !ShareAnIndex(a, b) && a[0] > b[0])
      && (kind == None <==> agree && !ShareAnIndex(a, b) && a[0] < b[0])
  {
    hide Pow2, Mixed, CollisionBits, Disjoint;
    CollisionBitsAreLow24(Mixed(h, pp, a, round - 1));
    CollisionBitsAreLow24(Mixed(h, pp, b, round - 1));
    NonEmptyTree(a, round - 1);
    NonEmptyTree(b, round - 1);
    DisjointMeans(a, b);
    assert a[0] in a && b[0] in b;
    assert a[0] == b[0] ==> ShareAnIndex(a, b);
  }

  lemma DisjointMeans(a: seq<nat>, b: seq<nat>)
    ensures Disjoint(a, b) <==> !ShareAnIndex(a, b)
  {
    if ShareAnIndex(a, b) {
      var x :| x in a && x in b;
      var i, j :| 0 <= i < |a| && 0 <= j < |b| && a[i] == x && b[j] == x;
    } else {
      assert forall i :: 0 <= i < |a| ==> a[i] in a;
      assert forall j :: 0 <= j < |b| ==> b[j] in b;
    }
  }

  /** At every node the halves agree in their low 24 bits, and the left one starts lower. */
  ghost predicate CollidesInOrder(h: Hashes, pp: seq<nat>, leaves: seq<nat>, level: nat)
    requires IsTree(leaves, level)
    decreases |leaves|
  {
    level == 0 ||
    (SubtreesAreTrees(leaves, level);
     && CollidesInOrder(h, pp, Left(leaves), level - 1)
     && CollidesInOrder(h, pp, Right(leaves), level - 1)
     && MeetInOrder(h, pp, Left(leaves), Right(leaves), level - 1))
  }

  ghost predicate MeetInOrder(h: Hashes, pp: seq<nat>, a: seq<nat>, b: seq<nat>, level: nat)
    requires level < 5 && IsTree(a, level) && IsTree(b, level)
  {
    a != [] && b != [] && a[0] < b[0] && LowBitsAgree(h, pp, a, b, level)
  }

  /** Validity in one sentence: all indices distinct, and collision and order at every node. */
  lemma {:induction false} ValidTreeMeans(h: Hashes, pp: seq<nat>, leaves: seq<nat>, level: nat)
    requires IsTree(leaves, level)
    ensures ValidTree(h, pp, leaves, level) <==> NoRepeat(leaves) && CollidesInOrder(h, pp, leaves, level)
  {
    hide Pow2, LowBitsAgree, PairKind, ShareAnIndex;
    if level == 0 {
      OneLeaf(leaves);
    } else {
      SubtreesAreTrees(leaves, level);
      ValidTreeMeans(h, pp, Left(leaves), level - 1);
      ValidTreeMeans(h, pp, Right(leaves), level - 1);
      PairKindMeans(h, pp, Left(leaves), Right(leaves), level);
      assert leaves == Left(leaves) + Right(leaves);
      RepeatsOfHalves(Left(leaves), Right(leaves));
    }
  }

  lemma RepeatsOfHalves(a: seq<nat>, b: seq<nat>)
    ensures NoRepeat(a + b) <==> NoRepeat(a) && NoRepeat(b) && !ShareAnIndex(a, b)
  {
    var c := a + b;
    assert forall i :: 0 <= i < |a| ==> c[i] == a[i];
    assert forall i :: 0 <= i < |b| ==> c[|a| + i] == b[i];
    if ShareAnIndex(a, b) {
      var x :| x in a && x in b;
      var i, j :| 0 <= i < |a| && 0 <= j < |b| && a[i] == x && b[j] == x;
      assert c[i] == c[|a| + j];
    } else if NoRepeat(a) && NoRepeat(b) {
      forall i, j | 0 <= i < j < |c| ensures c[i] != c[j] {
        assert i < |a| ==> c[i] in a;
        assert j >= |a| ==> c[j] in b;
      }
    }
  }

  lemma JoinOrdered(l: seq<nat>, r: seq<nat>)
    requires NoRepeat(l) && NoRepeat(r) && FirstIsLeast(l) && FirstIsLeast(r)
    requires Disjoint(l, r) && l != [] && r != [] && l[0] < r[0]
    ensures NoRepeat(l + r) && FirstIsLeast(l + r)
  {
  }

  /** In a valid tree no index repeats, and the first leaf is the strict minimum of its subtree. */
  lemma {:induction false} ValidTreeIsOrdered(h: Hashes, pp: seq<nat>, leaves: seq<nat>, level: nat)
    requires IsTree(leaves, level) && ValidTree(h, pp, leaves, level)
    ensures NoRepeat(leaves) && FirstIsLeast(leaves)
  {
    hide Pow2, Mixed, Build, CollisionBits, Disjoint;
    if level > 0 {
      SubtreesAreTrees(leaves, level);
      ValidTreeIsOrdered(h, pp, Left(leaves), level - 1);
      ValidTreeIsOrdered(h, pp, Right(leaves), level - 1);
      assert leaves == Left(leaves) + Right(leaves);
      JoinOrdered(Left(leaves), Right(leaves));
    } else {
      OneLeaf(leaves);
    }
  }

  /** Two index trees that differ only by swapping siblings, at any levels. */
  ghost predicate SameUpToSwaps(a: seq<nat>, b: seq<nat>, level: nat)
    requires IsTree(a, level) && IsTree(b, level)
    decreases |a|
  {
    if level == 0 then a == b
    else
      SubtreesAreTrees(a, level);
      SubtreesAreTrees(b, level);
      || (SameUpToSwaps(Left(a), Left(b), level - 1) && SameUpToSwaps(Right(a), Right(b), level - 1))
      || (SameUpToSwaps(Left(a), Right(b), level - 1) && SameUpToSwaps(Right(a), Left(b), level - 1))
  }

  lemma {:induction false} SwapsKeepIndices(a: seq<nat>, b: seq<nat>, level: nat)
    requires IsTree(a, level) && IsTree(b, level) && SameUpToSwaps(a, b, level)
    ensures forall x :: x in a <==> x in b
  {
    hide Pow2;
    if level == 0 {
    } else {
      SubtreesAreTrees(a, level);
      SubtreesAreTrees(b, level);
      var al, ar, bl, br := Left(a), Right(a), Left(b), Right(b);
      assert a == al + ar && b == bl + br;
      if SameUpToSwaps(al, bl, level - 1) && SameUpToSwaps(ar, br, level - 1) {
        SwapsKeepIndices(al, bl, level - 1);
        SwapsKeepIndices(ar, br, level - 1);
      } else {
        SwapsKeepIndices(al, br, level - 1);
        SwapsKeepIndices(ar, bl, level - 1);
      }
    }
  }

  /** Swap-equivalent valid trees start with the same index: the minimum of the common set. */
  lemma SameFirst(h: Hashes, pp: seq<nat>, h': Hashes, pp': seq<nat>, a: seq<nat>, b: seq<nat>, level: nat)
    requires IsTree(a, level) && IsTree(b, level) && SameUpToSwaps(a, b, level)
    requires ValidTree(h, pp, a, level) && ValidTree(h', pp', b, level)
    ensures a != [] && b != [] && a[0] == b[0]
  {
    hide Pow2;
    SwapsKeepIndices(a, b, level);
    ValidTreeIsOrdered(h, pp, a, level);
    ValidTreeIsOrdered(h', pp', b, level);
    assert a[0] in b && b[0] in a;
  }

  /** The order check leaves one representative of every swap class. */
  lemma {:induction false} SwapClassHasOneValidTree(
      h: Hashes, pp: seq<nat>, h': Hashes, pp': seq<nat>, a: seq<nat>, b: seq<nat>, level: nat)
    requires IsTree(a, level) && IsTree(b, level) && SameUpToSwaps(a, b, level)
    requires ValidTree(h, pp, a, level) && ValidTree(h', pp', b, level)
    ensures a == b
  {
    hide Pow2, Mixed, CollisionBits, Disjoint;
    if level == 0 {
    } else {
      SubtreesAreTrees(a, level);
      SubtreesAreTrees(b, level);
      var al, ar, bl, br := Left(a), Right(a), Left(b), Right(b);
      if SameUpToSwaps(al, bl, level - 1) && SameUpToSwaps(ar, br, level - 1) {
        SwapClassHasOneValidTree(h, pp, h', pp', al, bl, level - 1);
        SwapClassHasOneValidTree(h, pp, h', pp', ar, br, level - 1);
        assert a == al + ar && b == bl + br;
      } else {
        // al[0] < ar[0] == bl[0] < br[0] == al[0]
        SameFirst(h, pp, h', pp', al, br, level - 1);
        SameFirst(h, pp, h', pp', ar, bl, level - 1);
        assert false;
      }
    }
  }

  /**
    Canonical form: accepted solutions, for whatever header and nonce, whose index trees
    differ only by swapping siblings agree byte for byte on the packed index field.
   */
  lemma CanonicalForm(h: Hashes, input: seq<nat>, nonce: seq<nat>, a: seq<nat>,
                      h': Hashes, input': seq<nat>, nonce': seq<nat>, b: seq<nat>)
    requires |a| == 104 && AreDigits(8, a) && |b| == 104 && AreDigits(8, b)
    requires Accepts(h, input, nonce, a) && Accepts(h', input', nonce', b)
    requires IsTree(Unpacked(a[..100]), 5) && IsTree(Unpacked(b[..100]), 5)
    requires SameUpToSwaps(Unpacked(a[..100]), Unpacked(b[..100]), 5)
    ensures a[..100] == b[..100]
  {
    hide Pow2, ValidTree, SameUpToSwaps, Build, Unpacked;
    SwapClassHasOneValidTree(h, h.prepow(input, nonce, a[100..]), h', h'.prepow(input', nonce', b[100..]),
                             Unpacked(a[..100]), Unpacked(b[..100]), 5);
    PackUnpack(a[..100]);
    PackUnpack(b[..100]);
  }
}
