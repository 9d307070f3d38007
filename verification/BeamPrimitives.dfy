/**
  BeamHash III word arithmetic (src/beamhash/bh3_primitives.h).

  An element is seven 64-bit limbs, least significant first. The loops below shift, xor
  and mask single limbs as the header does; what they are proved to compute is stated on
  the 448-bit number the limbs denote.
 */
module BeamPrimitives {
  import opened Numbers
  import opened Bits
  import opened Digits

  const WORK_WORDS := 7
  const NUM_INDICES := 32
  const INDEX_PACK_BITS := 25
  const PACKED_BYTES := 100

  type Word64 = x: nat | x < Pow2(64)

  type Elem = e: seq<nat> | |e| == 7 && AreDigits(64, e) witness [0, 0, 0, 0, 0, 0, 0]

  /** The 512-bit mixing buffer t[8]. */
  type Buffer = t: seq<nat> | |t| == 8 && AreDigits(64, t) witness [0, 0, 0, 0, 0, 0, 0, 0]

  function ElemValue(e: Elem): nat { Value(64, e) }

  // ---- 64-bit operators ----------------------------------------------------------------

  function Plus64(x: nat, y: nat): Word64 { (x + y) % Pow2(64) }

  function Shl64(x: nat, k: nat): Word64 { (x * Pow2(k)) % Pow2(64) }

  function Shr(x: nat, k: nat): nat { DivNonNeg(x, Pow2(k)); x / Pow2(k) }

  function Rotl64(x: Word64, k: nat): (r: Word64)
    requires k < 64
    // The rotation is exact: no bit is lost and none is counted twice.
    ensures r == (x % Pow2(64 - k)) * Pow2(k) + x / Pow2(64 - k)
  {
    RotlIsSum(x, k);
    Or(Shl64(x, k), Shr(x, 64 - k))
  }

  lemma RotlIsSum(x: Word64, k: nat)
    requires k < 64
    ensures Or(Shl64(x, k), Shr(x, 64 - k)) == (x % Pow2(64 - k)) * Pow2(k) + x / Pow2(64 - k)
    ensures Or(Shl64(x, k), Shr(x, 64 - k)) < Pow2(64)
  {
    var m, n := Pow2(k), Pow2(64 - k);
    ShlIsCut(x, k);
    DivModOf(x, n);
    DivNonNeg(x, n);
    Pow2Add(k, 64 - k);
    if x / n >= m {
      MulMono(m, x / n, n);
    }
    OrDisjoint(k, x / n, x % n);
    Assoc(m, x % n, 1);
    DigitBound(x % n, x / n, m, n);
    Assoc(m, n, 1);
  }

  /** Shifting left inside a word keeps the bits that still fit. */
  lemma ShlIsCut(x: nat, k: nat)
    requires k <= 64
    ensures 0 <= (x % Pow2(64 - k)) * Pow2(k)
    ensures Shl64(x, k) == (x % Pow2(64 - k)) * Pow2(k)
  {
    Pow2Add(64 - k, k);
    ModScale(x, Pow2(k), Pow2(64 - k));
    DivModOf(x, Pow2(64 - k));
    MulNonNeg(x % Pow2(64 - k), Pow2(k));
  }

  lemma {:induction false} OrBound(n: nat, a: nat, b: nat)
    requires a < Pow2(n) && b < Pow2(n)
    ensures Or(a, b) < Pow2(n)
  {
    if n == 0 {
    } else {
      OrBound(n - 1, a / 2, b / 2);
      OrStep(a, b);
    }
  }

  // ---- collision_bits --------------------------------------------------------------------

  function CollisionBits(e: Elem): nat { And(e[0], 0xFFFFFF) }

  /** The collision key is the element's low 24 bits. */
  lemma CollisionBitsAreLow24(e: Elem)
    ensures CollisionBits(e) == ElemValue(e) % Pow2(24)
  {
    Pow2Values();
    AndLowMask(e[0], 24);
    Low24(e);
  }

  // ---- apply_mix -------------------------------------------------------------------------

  function PadNum(lmix: nat, treeLen: nat): nat
    requires lmix <= 512
  {
    var padNum := (512 - lmix + 24) / 25;
    if padNum > treeLen then treeLen else padNum
  }

  /** t[i] |= x */
  function OrWord(t: Buffer, i: nat, x: Word64): Buffer
    requires i < 8
  {
    OrBound(64, t[i], x);
    t[i := Or(t[i], x)]
  }

  /** One leaf or-ed into the buffer at bit `pos`, spilling into the next word when it straddles. */
  function OrLeaf(t: Buffer, v: nat, pos: nat): Buffer
    requires pos < 512 && v < Pow2(32)
  {
    var word, sh := pos / 64, pos % 64;
    var t1 := OrWord(t, word, Shl64(v, sh));
    if sh > 39 && word < 7 then
      ShrFits(v, 64 - sh);
      OrWord(t1, word + 1, Shr(v, 64 - sh))
    else
      t1
  }

  lemma ShrFits(v: nat, k: nat)
    requires v < Pow2(32)
    ensures Shr(v, k) < Pow2(64)
  {
    hide Pow2;
    Pow2Mono(32, 64);
    ShrBound(v, k);
  }

  lemma ShrBound(x: nat, k: nat)
    ensures Shr(x, k) <= x
  {
    DivModOf(x, Pow2(k));
    DivNonNeg(x, Pow2(k));
    MulMono(1, Pow2(k), x / Pow2(k));
  }

  ghost predicate AreLeaves(tree: seq<nat>)
  {
    forall i :: 0 <= i < |tree| ==> tree[i] < Pow2(32)
  }

  function Widen(e: Elem): Buffer
  {
    e + [0]
  }

  /** The buffer after the first n leaves went in. */
  function MixBuffer(e: Elem, tree: seq<nat>, lmix: nat, n: nat): Buffer
    requires n <= |tree| && AreLeaves(tree)
  {
    if n == 0 then Widen(e)
    else
      var t := MixBuffer(e, tree, lmix, n - 1);
      var pos := lmix + 25 * (n - 1);
      if pos >= 512 then t else OrLeaf(t, tree[n - 1], pos)
  }

  const ROT: seq<nat> := [29, 58, 23, 52, 17, 46, 11, 40]

  function RotSum(t: Buffer, n: nat): Word64
    requires n <= 8
  {
    if n == 0 then 0 else Plus64(RotSum(t, n - 1), Rotl64(t[n - 1], ROT[n - 1]))
  }

  function MixWord(t: Buffer): Word64 { Rotl64(RotSum(t, 8), 24) }

  function Mix(e: Elem, tree: seq<nat>, lmix: nat): Elem
    requires lmix <= 512 && AreLeaves(tree)
  {
    e[0 := MixWord(MixBuffer(e, tree, lmix, PadNum(lmix, |tree|)))]
  }

  method ApplyMix(e: Elem, tree: seq<nat>, lmix: nat) returns (e': Elem)
    requires lmix <= 512 && AreLeaves(tree)
    ensures e' == Mix(e, tree, lmix)
  {
    hide Pow2, OrWord, Rotl64, Shl64, Shr;
    var t: Buffer := Widen(e);
    var padNum := PadNum(lmix, |tree|);
    var i := 0;
    while i < padNum
      invariant i <= padNum
      invariant t == MixBuffer(e, tree, lmix, i)
    {
      var pos := lmix + i * 25;
      if pos >= 512 {
        break;
      }
      MixBufferStep(e, tree, lmix, i);
      var v, word, sh := tree[i], pos / 64, pos % 64;
      t := OrWord(t, word, Shl64(v, sh));
      if sh > 39 && word < 7 {
        ShrFits(v, 64 - sh);
        t := OrWord(t, word + 1, Shr(v, 64 - sh));
      }
      i := i + 1;
    }
    assert i == padNum;
    var result: Word64 := 0;
    var k := 0;
    while k < 8
      invariant k <= 8
      invariant result == RotSum(t, k)
    {
      result := Plus64(result, Rotl64(t[k], ROT[k]));
      k := k + 1;
    }
    result := Rotl64(result, 24);
    e' := e[0 := result];
  }

  // ---- what the rotations and their sum do ---------------------------------------------------

  /** Rotating by k moves bit b to bit (b + k) mod 64. */
  lemma RotlMovesBits(x: Word64, k: nat, b: nat)
    requires k < 64 && b < 64
    ensures Bit(Rotl64(x, k), (b + k) % 64) == Bit(x, b)
  {
    hide Rotl64, Pow2, Bit;
    RotlParts(x, k);
    if b < 64 - k {
      BitAbove(Rotl64(x, k), k, b);
      LowBit(x, 64 - k, b);
    } else {
      LowBit(Rotl64(x, k), k, b + k - 64);
      BitAbove(x, 64 - k, b + k - 64);
    }
  }

  lemma BitAbove(x: nat, k: nat, b: nat)
    ensures 0 <= x / Pow2(k) && Bit(x / Pow2(k), b) == Bit(x, b + k)
  {
    hide Pow2;
    Pow2Add(b, k);
    DivDiv(x, Pow2(k), Pow2(b));
  }

  /** Bit b of a number is bit b of its residue modulo a power of two above it. */
  lemma LowBit(x: nat, n: nat, b: nat)
    requires b < n
    ensures 0 <= x % Pow2(n) && Bit(x % Pow2(n), b) == Bit(x, b)
  {
    hide Pow2;
    DivModOf(x, Pow2(n));
    Pow2Values();
    Pow2Add(n - b, b);
    Pow2Add(n - b - 1, 1);
    var q := Pow2(n - b - 1);
    DivDiv(x, Pow2(b), Pow2(n - b));
    DivDiv(x / Pow2(b), 2, q);
  }

  /** The two parts of a rotated word are its quotient and remainder by 2^k. */
  lemma RotlParts(x: Word64, k: nat)
    requires k < 64
    ensures 0 <= x / Pow2(64 - k) < Pow2(k)
    ensures Rotl64(x, k) / Pow2(k) == x % Pow2(64 - k)
    ensures Rotl64(x, k) % Pow2(k) == x / Pow2(64 - k)
  {
    hide Pow2, Or, Shl64, Shr;
    Pow2Add(k, 64 - k);
    QuotientBelow(x, Pow2(64 - k), Pow2(k));
    DivModUnique(Rotl64(x, k), Pow2(k), x % Pow2(64 - k), x / Pow2(64 - k));
  }

  /** A rotation loses nothing. */
  lemma RotlInjective(x: Word64, y: Word64, k: nat)
    requires k < 64 && Rotl64(x, k) == Rotl64(y, k)
    ensures x == y
  {
    hide Pow2, Rotl64;
    RotlParts(x, k);
    RotlParts(y, k);
    DivModOf(x, Pow2(64 - k));
    DivModOf(y, Pow2(64 - k));
  }

  /** Word i turns by 29·(i + 1) bits: no two words turn alike, and no word stays put. */
  lemma RotationsAreMultiples(i: nat)
    requires i < 8
    ensures |ROT| == 8 && ROT[i] == 29 * (i + 1) % 64
    ensures forall j :: 0 <= j < 8 && ROT[j] == ROT[i] ==> j == i
  {
    assert ROT == [29, 58, 23, 52, 17, 46, 11, 40];
  }

  /** The order of additions does not matter. */
  lemma PlusSwaps(a: nat, x: nat, y: nat)
    ensures Plus64(Plus64(a, x), y) == Plus64(Plus64(a, y), x)
  {
    hide Pow2;
    ModSum(y, a + x, Pow2(64));
    ModSum(x, a + y, Pow2(64));
  }

  lemma PlusCancels(s: nat, a: Word64, b: Word64)
    requires Plus64(s, a) == Plus64(s, b)
    ensures a == b
  {
    hide Pow2;
    SameResidue(s, a, b, Pow2(64));
  }

  /** The same sum with no wrap. */
  function RotTotal(t: Buffer, n: nat): nat
    requires n <= 8
  {
    if n == 0 then 0 else RotTotal(t, n - 1) + Rotl64(t[n - 1], ROT[n - 1])
  }

  lemma {:induction false} RotSumIsTotal(t: Buffer, n: nat)
    requires n <= 8
    ensures RotSum(t, n) == RotTotal(t, n) % Pow2(64)
  {
    hide Pow2, Rotl64;
    if n == 0 {
      DivModUnique(0, Pow2(64), 0, 0);
    } else {
      RotSumIsTotal(t, n - 1);
      ModSum(Rotl64(t[n - 1], ROT[n - 1]), RotTotal(t, n - 1), Pow2(64));
    }
  }

  lemma RotTotalStep(t: Buffer, n: nat)
    requires n < 8
    ensures RotTotal(t, 0) == 0
    ensures RotTotal(t, n + 1) == RotTotal(t, n) + Rotl64(t[n], ROT[n])
  {
    hide Pow2, Rotl64;
  }

  /** The mixed word is the 64-bit sum of the eight rotated words, turned by 24. */
  lemma MixWordIsSum(t: Buffer)
    ensures MixWord(t) == Rotl64(RotTotal(t, 8) % Pow2(64), 24)
    ensures RotTotal(t, 8) == Rotl64(t[0], 29) + Rotl64(t[1], 58) + Rotl64(t[2], 23) + Rotl64(t[3], 52)
                            + Rotl64(t[4], 17) + Rotl64(t[5], 46) + Rotl64(t[6], 11) + Rotl64(t[7], 40)
  {
    hide Pow2, Rotl64, RotSum, RotTotal;
    RotSumIsTotal(t, 8);
    RotTotalStep(t, 0);
    RotTotalStep(t, 1);
    RotTotalStep(t, 2);
    RotTotalStep(t, 3);
    RotTotalStep(t, 4);
    RotTotalStep(t, 5);
    RotTotalStep(t, 6);
    RotTotalStep(t, 7);
  }

  /** Replacing one word moves the sum by that word's rotation, whatever the others hold. */
  lemma {:induction false} RotSumChange(t: Buffer, u: Buffer, i: nat, n: nat)
    requires i < 8 && n <= 8 && forall j :: 0 <= j < 8 && j != i ==> t[j] == u[j]
    ensures n <= i ==> RotSum(t, n) == RotSum(u, n)
    ensures n > i ==> Plus64(RotSum(t, n), Rotl64(u[i], ROT[i])) == Plus64(RotSum(u, n), Rotl64(t[i], ROT[i]))
  {
    hide Pow2, Rotl64, Plus64;
    if n == 0 {
    } else {
      RotSumChange(t, u, i, n - 1);
      var a, b, x := RotSum(t, n - 1), RotSum(u, n - 1), Rotl64(t[n - 1], ROT[n - 1]);
      var p, q := Rotl64(u[i], ROT[i]), Rotl64(t[i], ROT[i]);
      if n - 1 == i {
        PlusSwaps(a, p, q);
      } else if n > i {
        PlusSwaps(a, x, p);
        PlusSwaps(b, x, q);
      }
    }
  }

  /** Every one of the eight words counts: changing any single one changes the mixed word. */
  lemma OneWordChangesMix(t: Buffer, u: Buffer, i: nat)
    requires i < 8 && t[i] != u[i] && forall j :: 0 <= j < 8 && j != i ==> t[j] == u[j]
    ensures MixWord(t) != MixWord(u)
  {
    hide Pow2, Rotl64, RotSum, Plus64;
    if MixWord(t) == MixWord(u) {
      RotlInjective(RotSum(t, 8), RotSum(u, 8), 24);
      RotSumChange(t, u, i, 8);
      PlusCancels(RotSum(t, 8), Rotl64(u[i], ROT[i]), Rotl64(t[i], ROT[i]));
      RotlInjective(t[i], u[i], ROT[i]);
    }
  }

  lemma SameResidue(s: nat, a: nat, b: nat, d: nat)
    requires a < d && b < d && (s + a) % d == (s + b) % d
    ensures a == b
  {
    DivModOf(s + a, d);
    DivModOf(s + b, d);
    var p, q := (s + a) / d, (s + b) / d;
    Distribute(p, q, d);
    if p < q {
      MulMono(1, q - p, d);
    } else if q < p {
      MulMono(1, p - q, d);
    }
  }

  lemma RotlOfBit(b: nat, k: nat)
    requires k < 64 && b < 64
    ensures Pow2(b) < Pow2(64)
    ensures Rotl64(Pow2(b), k) == Pow2((b + k) % 64)
  {
    hide Pow2, Or, Shl64, Shr;
    Pow2Mono(b, 64);
    if b < 64 - k {
      Pow2Mono(b, 64 - k);
      DivModUnique(Pow2(b), Pow2(64 - k), 0, Pow2(b));
      Pow2Add(b, k);
    } else {
      var p := b + k - 64;
      Pow2Add(p, 64 - k);
      DivModUnique(Pow2(b), Pow2(64 - k), Pow2(p), 0);
    }
  }

  lemma RotlOfZero(k: nat)
    requires k < 64
    ensures 0 < Pow2(64) && Rotl64(0, k) == 0
  {
    hide Pow2, Or, Shl64, Shr;
    DivModUnique(0, Pow2(64 - k), 0, 0);
  }

  lemma {:induction false} RotSumOfBit(t: Buffer, i: nat, b: nat, n: nat)
    requires i < 8 && b < 64 && n <= 8 && t[i] == Pow2(b)
    requires forall j :: 0 <= j < 8 && j != i ==> t[j] == 0
    ensures RotSum(t, n) == if n <= i then 0 else Pow2((b + ROT[i]) % 64)
  {
    hide Pow2, Rotl64;
    if n == 0 {
    } else {
      RotSumOfBit(t, i, b, n - 1);
      RotlOfZero(ROT[n - 1]);
      RotlOfBit(b, ROT[i]);
      Pow2Mono((b + ROT[i]) % 64, 64);
      DivModUnique(0, Pow2(64), 0, 0);
      DivModUnique(Pow2((b + ROT[i]) % 64), Pow2(64), 0, Pow2((b + ROT[i]) % 64));
    }
  }

  /** Bit b of word i alone comes out as bit b + 29·(i + 1) + 24, modulo 64. */
  lemma OneBitMixes(t: Buffer, i: nat, b: nat)
    requires i < 8 && b < 64 && t[i] == Pow2(b)
    requires forall j :: 0 <= j < 8 && j != i ==> t[j] == 0
    ensures MixWord(t) == Pow2((b + 29 * (i + 1) + 24) % 64)
  {
    hide Pow2, Rotl64, RotSum;
    RotSumOfBit(t, i, b, 8);
    RotationsAreMultiples(i);
    RotlOfBit((b + ROT[i]) % 64, 24);
    TurnTwice(b, 29 * (i + 1));
  }

  lemma TurnTwice(b: nat, turn: nat)
    ensures ((b + turn % 64) % 64 + 24) % 64 == (b + turn + 24) % 64
  {
  }

  /** Round 1, where the one leaf fills word 7: elements of different leaves mix differently. */
  lemma RoundOneSeesTheLeaf(e: Elem, i: nat, j: nat)
    requires i < Pow2(25) && j < Pow2(25) && i != j
    ensures AreLeaves([i]) && AreLeaves([j])
    ensures Mix(e, [i], 448)[0] != Mix(e, [j], 448)[0]
    ensures forall k :: 1 <= k < 7 ==> Mix(e, [i], 448)[k] == Mix(e, [j], 448)[k] == e[k]
  {
    hide Pow2, MixWord;
    Pow2Mono(25, 32);
    assert PadNum(448, 1) == 1;
    OneLeafBuffer(e, i);
    OneLeafBuffer(e, j);
    OneWordChangesMix(e + [i], e + [j], 7);
  }

  lemma OneLeafBuffer(e: Elem, i: nat)
    requires i < Pow2(25)
    ensures AreLeaves([i]) && AreDigits(64, e + [i])
    ensures MixBuffer(e, [i], 448, 1) == e + [i]
  {
    hide Pow2;
    Pow2Mono(25, 32);
    Pow2Mono(32, 64);
    MixBufferStep(e, [i], 448, 0);
    assert Pow2(0) == 1 by {
      Pow2Values();
    }
    DivModUnique(i, Pow2(64), 0, i);
    OrZero(i);
    assert MixBuffer(e, [i], 448, 0) == Widen(e);
  }

  lemma MixBufferStep(e: Elem, tree: seq<nat>, lmix: nat, i: nat)
    requires i < |tree| && AreLeaves(tree) && lmix + 25 * i < 512
    ensures MixBuffer(e, tree, lmix, i + 1) == OrLeaf(MixBuffer(e, tree, lmix, i), tree[i], lmix + 25 * i)
  {
  }

  lemma {:induction false} PastTheEnd(e: Elem, tree: seq<nat>, lmix: nat, i: nat, n: nat)
    requires i <= n <= |tree| && AreLeaves(tree)
    requires lmix + i * 25 >= 512
    ensures MixBuffer(e, tree, lmix, n) == MixBuffer(e, tree, lmix, i)
    decreases n
  {
    hide Pow2;
    if i < n {
      PastTheEnd(e, tree, lmix, i, n - 1);
    }
  }

  /** Σ tree[i]·2^(lmix + 25i) over the first n leaves. */
  function LeafSum(tree: seq<nat>, lmix: nat, n: nat): nat
    requires n <= |tree|
  {
    if n == 0 then 0 else
    MulNonNeg(tree[n - 1], Pow2(lmix + 25 * (n - 1)));
    LeafSum(tree, lmix, n - 1) + tree[n - 1] * Pow2(lmix + 25 * (n - 1))
  }

  lemma LeafSumZero(tree: seq<nat>, lmix: nat)
    ensures LeafSum(tree, lmix, 0) == 0
  {
  }

  lemma LeafSumStep(tree: seq<nat>, lmix: nat, n: nat)
    requires 0 < n <= |tree|
    ensures LeafSum(tree, lmix, n) == LeafSum(tree, lmix, n - 1) + tree[n - 1] * Pow2(lmix + 25 * (n - 1))
  {
  }

  lemma ZeroAbovePos(t: Buffer, pos: nat, i: nat)
    requires Value(64, t) < Pow2(pos) && pos <= 64 * i && i < 8
    ensures t[i] == 0
  {
    hide Pow2;
    ValueDigit(64, t, i);
    Pow2Mono(pos, 64 * i);
    DivModUnique(Value(64, t), Pow2(64 * i), 0, Value(64, t));
  }

  /** A leaf at bit pos splits at the word boundary above it. */
  lemma SplitAtWord(v: nat, pos: nat)
    ensures v / Pow2(64 - pos % 64) >= 0
    ensures v * Pow2(pos) == (v % Pow2(64 - pos % 64)) * Pow2(pos)
                           + (v / Pow2(64 - pos % 64)) * Pow2(64 * (pos / 64 + 1))
  {
    hide *;
    var m := Pow2(64 - pos % 64);
    DivModOf(v, m);
    DivNonNeg(v, m);
    Pow2Add(64 - pos % 64, pos);
    Distribute((v / m) * m, v % m, Pow2(pos));
    Assoc(v / m, m, Pow2(pos));
    assert 64 - pos % 64 + pos == 64 * (pos / 64 + 1);
  }

  /** The part of the leaf that lands in its own word. */
  lemma OrLowPart(t: Buffer, v: nat, pos: nat)
    requires pos < 512 && Value(64, t) < Pow2(pos)
    ensures Or(t[pos / 64], Shl64(v, pos % 64)) < Pow2(64)
    ensures Value(64, t[pos / 64 := Or(t[pos / 64], Shl64(v, pos % 64))])
         == Value(64, t) + (v % Pow2(64 - pos % 64)) * Pow2(pos)
  {
    hide *;
    var word, sh := pos / 64, pos % 64;
    var m, p, q := Pow2(64 - sh), Pow2(64 * word), Pow2(sh);
    var lo := v % m;
    DivModOf(v, m);
    DigitBelow(64, t, word, sh);
    ShlIsCut(v, sh);
    OrDisjoint(sh, t[word], lo);
    Assoc(q, lo, 1);
    Pow2Add(64 - sh, sh);
    DigitBound(lo, t[word], q, m);
    ValueUpdate(64, t, word, t[word] + lo * q);
    Distribute(t[word], lo * q, p);
    Pow2Add(64 * word, sh);
    Assoc(p, q, lo);
    Assoc(lo, p * q, 1);
  }

  /** Or-ing a 25-bit leaf above everything already there is adding it, modulo 2^512. */
  lemma OrLeafAdds(t: Buffer, v: nat, pos: nat)
    requires pos < 512 && v < Pow2(25) && Value(64, t) < Pow2(pos)
    ensures v < Pow2(32) && 0 <= v * Pow2(pos)
    ensures Value(64, OrLeaf(t, v, pos)) == (Value(64, t) + v * Pow2(pos)) % Pow2(512)
  {
    hide Pow2, Or, Shl64;
    Pow2Mono(25, 32);
    var word, sh := pos / 64, pos % 64;
    var lo, hi := v % Pow2(64 - sh), v / Pow2(64 - sh);
    MulNonNeg(v, Pow2(pos));
    SplitAtWord(v, pos);
    OrLowPart(t, v, pos);
    var t1: Buffer := t[word := Or(t[word], Shl64(v, sh))];
    if sh <= 39 {
      Pow2Mono(25, 64 - sh);
      DivModUnique(v, Pow2(64 - sh), 0, v);
      OrLeafFits(t, v, pos, Value(64, t1));
    } else if word < 7 {
      ZeroAbovePos(t, pos, word + 1);
      OrZero(hi);
      ValueUpdate(64, t1, word + 1, hi);
      Assoc(Pow2(64 * (word + 1)), hi, 1);
      assert OrLeaf(t, v, pos) == t1[word + 1 := hi];
      OrLeafFits(t, v, pos, Value(64, t1[word + 1 := hi]));
    } else {
      OrLeafFits(t, v, pos, Value(64, t1));
      ModAddMultiple(Value(64, t1), hi, Pow2(512));
    }
  }

  /** A buffer's value is its own residue modulo 2^512. */
  lemma OrLeafFits(t: Buffer, v: nat, pos: nat, x: nat)
    requires pos < 512 && v < Pow2(32)
    requires Value(64, OrLeaf(t, v, pos)) == x
    ensures x % Pow2(512) == x
  {
    ValueBound(64, OrLeaf(t, v, pos));
    DivModUnique(x, Pow2(512), 0, x);
  }

  /** One more leaf, as numbers modulo 2^512. */
  lemma OneMoreLeaf(before: nat, v: nat, pos: nat, x: nat)
    requires x == before % Pow2(512)
    ensures 0 <= v * Pow2(pos)
    ensures (x + v * Pow2(pos)) % Pow2(512) == (before + v * Pow2(pos)) % Pow2(512)
    ensures pos >= 512 ==> x == (before + v * Pow2(pos)) % Pow2(512)
    ensures v < Pow2(25) && x < Pow2(pos) ==> x + v * Pow2(pos) < Pow2(pos + 25)
  {
    hide *;
    MulNonNeg(v, Pow2(pos));
    ModSum(before, v * Pow2(pos), Pow2(512));
    Pow2Add(25, pos);
    if pos >= 512 {
      Pow2Add(pos - 512, 512);
      Assoc(v, Pow2(pos - 512), Pow2(512));
      MulNonNeg(v, Pow2(pos - 512));
      ModAddMultiple(before, v * Pow2(pos - 512), Pow2(512));
    }
    if v < Pow2(25) && x < Pow2(pos) {
      DigitBound(v, x, Pow2(pos), Pow2(25));
    }
  }

  /**
    The buffer of apply_mix as one number: with nothing in the element at or above bit
    lmix and 25-bit leaves, it is E + Σ tree[i]·2^(lmix + 25i) modulo 2^512.
   */
  lemma {:induction false} MixBufferIsSum(e: Elem, tree: seq<nat>, lmix: nat, n: nat)
    requires n <= |tree| && AreDigits(25, tree)
    requires ElemValue(e) < Pow2(lmix)
    ensures AreLeaves(tree)
    ensures Value(64, MixBuffer(e, tree, lmix, n)) == (ElemValue(e) + LeafSum(tree, lmix, n)) % Pow2(512)
    ensures Value(64, MixBuffer(e, tree, lmix, n)) < Pow2(lmix + 25 * n)
  {
    hide Pow2, LeafSum, OrLeaf;
    Pow2Mono(25, 32);
    if n == 0 {
      LeafSumZero(tree, lmix);
      ValueAppend(64, e, 0);
      ValueBound(64, e);
      Pow2Mono(448, 512);
      DivModUnique(ElemValue(e), Pow2(512), 0, ElemValue(e));
    } else {
      MixBufferIsSum(e, tree, lmix, n - 1);
      var t, pos, v := MixBuffer(e, tree, lmix, n - 1), lmix + 25 * (n - 1), tree[n - 1];
      var before := ElemValue(e) + LeafSum(tree, lmix, n - 1);
      OneMoreLeaf(before, v, pos, Value(64, t));
      if pos >= 512 {
        Pow2Mono(pos, pos + 25);
      } else {
        MixBufferStep(e, tree, lmix, n - 1);
        OrLeafAdds(t, v, pos);
        ModBelow(Value(64, t) + v * Pow2(pos), Pow2(512));
      }
      LeafSumStep(tree, lmix, n);
    }
  }

  lemma ModBelow(x: nat, d: nat)
    requires d > 0
    ensures x % d <= x
  {
    DivModOf(x, d);
    DivNonNeg(x, d);
    MulNonNeg(x / d, d);
  }

  /** Leaves past the padding count change nothing: they would land at or above bit 512. */
  lemma {:induction false} MixBufferIsWholeSum(e: Elem, tree: seq<nat>, lmix: nat)
    requires lmix <= 512 && AreDigits(25, tree)
    requires ElemValue(e) < Pow2(lmix)
    ensures AreLeaves(tree)
    ensures Value(64, MixBuffer(e, tree, lmix, PadNum(lmix, |tree|)))
         == (ElemValue(e) + LeafSum(tree, lmix, |tree|)) % Pow2(512)
  {
    hide Pow2;
    Pow2Mono(25, 32);
    var n := PadNum(lmix, |tree|);
    MixBufferIsSum(e, tree, lmix, |tree|);
    if n < |tree| {
      PastTheEnd(e, tree, lmix, n, |tree|);
    }
  }

  // ---- combine ---------------------------------------------------------------------------

  function XorLimbs(a: seq<nat>, b: seq<nat>): (x: seq<nat>)
    requires |a| == |b|
    ensures |x| == |a|
    ensures forall i :: 0 <= i < |a| ==> x[i] == Xor(a[i], b[i])
  {
    if a == [] then [] else [Xor(a[0], b[0])] + XorLimbs(a[1..], b[1..])
  }

  lemma {:induction false} XorLimbsIsXor(a: seq<nat>, b: seq<nat>)
    requires |a| == |b| && AreDigits(64, a) && AreDigits(64, b)
    ensures AreDigits(64, XorLimbs(a, b))
    ensures Value(64, XorLimbs(a, b)) == Xor(Value(64, a), Value(64, b))
  {
    hide Pow2;
    if a == [] {
    } else {
      XorLimbsIsXor(a[1..], b[1..]);
      XorSplit(64, a[0], b[0], Value(64, a[1..]), Value(64, b[1..]));
      var x := XorLimbs(a, b);
      assert x[1..] == XorLimbs(a[1..], b[1..]);
      forall i | 0 <= i < |x| ensures x[i] < Pow2(64) {
        XorSplit(64, a[i], b[i], 0, 0);
      }
    }
  }

  /** Limb i after the shift right by 24: its own upper 40 bits below the next limb's low 24. */
  function ShiftedLimb(x: Elem, i: nat): nat
    requires i < 7
  {
    Or(Shr(x[i], 24), if i < 6 then Shl64(x[i + 1], 40) else 0)
  }

  /** The low word of (x0 + 2^64·h) / 2^24, for a limb x0 below 2^64. */
  lemma ShiftAcross(x0: nat, h: nat)
    requires x0 < Pow2(64)
    ensures 0 <= x0 / Pow2(24) < Pow2(40)
    ensures ((x0 + Pow2(64) * h) / Pow2(24)) % Pow2(64) == x0 / Pow2(24) + (h % Pow2(24)) * Pow2(40)
    ensures x0 / Pow2(24) + (h % Pow2(24)) * Pow2(40) < Pow2(64)
  {
    hide *;
    Pow2Add(40, 24);
    Assoc(h, Pow2(40), Pow2(24));
    Assoc(Pow2(64), h, 1);
    MulNonNeg(h, Pow2(40));
    ModAddMultiple(x0, h * Pow2(40), Pow2(24));
    var s := x0 / Pow2(24);
    QuotientBelow(x0, Pow2(24), Pow2(40));
    Pow2Add(24, 40);
    ModScale(h, Pow2(40), Pow2(24));
    DivModOf(h, Pow2(24));
    DigitBound(h % Pow2(24), s, Pow2(40), Pow2(24));
    ModSum(s, h * Pow2(40), Pow2(64));
    DivModUnique(s + (h % Pow2(24)) * Pow2(40), Pow2(64), 0, s + (h % Pow2(24)) * Pow2(40));
  }

  /** The low 24 bits of a digit string are those of its first 64-bit digit. */
  lemma Low24(s: seq<nat>)
    requires |s| > 0
    ensures Value(64, s) % Pow2(24) == s[0] % Pow2(24)
  {
    hide Pow2;
    var h := Value(64, s[1..]);
    Pow2Add(40, 24);
    Assoc(h, Pow2(40), Pow2(24));
    Assoc(Pow2(64), h, 1);
    MulNonNeg(h, Pow2(40));
    ModAddMultiple(s[0], h * Pow2(40), Pow2(24));
  }

  /** What limb i becomes, given the number h formed by the limbs above it. */
  lemma ShiftedLimbSum(x: Elem, i: nat)
    requires i < 7
    ensures 0 <= Shr(x[i], 24)
    ensures ShiftedLimb(x, i) == Shr(x[i], 24) + (Value(64, x[i + 1..]) % Pow2(24)) * Pow2(40)
  {
    hide Pow2;
    var s := Shr(x[i], 24);
    ShiftAcross(x[i], 0);
    if i < 6 {
      ShlIsCut(x[i + 1], 40);
      Low24(x[i + 1..]);
      OrDisjoint(40, s, x[i + 1] % Pow2(24));
      Assoc(Pow2(40), x[i + 1] % Pow2(24), 1);
    } else {
      assert x[i + 1..] == [];
      OrZero(s);
    }
  }

  /** The limbwise shift is the division of the whole number by 2^24. */
  lemma ShiftedLimbIsDigit(x: Elem, i: nat)
    requires i < 7
    ensures 0 <= ElemValue(x) / Pow2(24)
    ensures ShiftedLimb(x, i) == (ElemValue(x) / Pow2(24) / Pow2(64 * i)) % Pow2(64)
    ensures ShiftedLimb(x, i) < Pow2(64)
  {
    hide Pow2, ShiftedLimb;
    DivDiv(ElemValue(x), Pow2(24), Pow2(64 * i));
    DivDiv(ElemValue(x), Pow2(64 * i), Pow2(24));
    Assoc(Pow2(24), Pow2(64 * i), 1);
    ValueDigit(64, x, i);
    assert x[i..][1..] == x[i + 1..];
    ShiftAcross(x[i], Value(64, x[i + 1..]));
    ShiftedLimbSum(x, i);
  }

  /** ((A xor B) >> 24) cut to Lout bits, as limbs. */
  function Combined(a: Elem, b: Elem, lout: nat): Elem
  {
    DivNonNeg(Xor(ElemValue(a), ElemValue(b)), Pow2(24));
    var v := (Xor(ElemValue(a), ElemValue(b)) / Pow2(24)) % Pow2(lout);
    ToDigitsValue(64, v, 7);
    ToDigits(64, v, 7)
  }

  lemma CombinedValue(a: Elem, b: Elem, lout: nat)
    ensures ElemValue(Combined(a, b, lout)) == (Xor(ElemValue(a), ElemValue(b)) / Pow2(24)) % Pow2(lout)
    ensures ElemValue(Combined(a, b, lout)) < Pow2(lout)
  {
    hide Pow2;
    var x := Xor(ElemValue(a), ElemValue(b));
    ValueBound(64, a);
    ValueBound(64, b);
    XorSplit(448, ElemValue(a), ElemValue(b), 0, 0);
    DivNonNeg(x, Pow2(24));
    ModBelow(x / Pow2(24), Pow2(lout));
    DivModOf(x, Pow2(24));
    MulMono(1, Pow2(24), x / Pow2(24));
    DivModOf(x / Pow2(24), Pow2(lout));
    var v := (x / Pow2(24)) % Pow2(lout);
    ToDigitsValue(64, v, 7);
    DivModUnique(v, Pow2(448), 0, v);
  }

  /** The masking loop's effect on limb i of a number: the digit of the number cut to lout bits. */
  lemma MaskedLimb(v: nat, lout: nat, i: nat, limb: nat)
    requires limb == (v / Pow2(64 * i)) % Pow2(64)
    ensures 64 * i >= lout ==> 0 == (v % Pow2(lout) / Pow2(64 * i)) % Pow2(64)
    ensures 64 * i < lout && lout - 64 * i < 64
        ==> And(limb, LowMask(lout - 64 * i)) == (v % Pow2(lout) / Pow2(64 * i)) % Pow2(64)
    ensures 64 * i < lout && lout - 64 * i >= 64
        ==> limb == (v % Pow2(lout) / Pow2(64 * i)) % Pow2(64)
  {
    hide *;
    var p, base := Pow2(64 * i), 64 * i;
    DivModOf(v, Pow2(lout));
    if base >= lout {
      Pow2Mono(lout, base);
      DivModUnique(v % Pow2(lout), p, 0, v % Pow2(lout));
    } else {
      var rest := lout - base;
      Pow2Add(rest, base);
      DivDiv(v, p, Pow2(rest));
      var q := v / p;
      assert v % Pow2(lout) / p == q % Pow2(rest);
      DivModOf(q, Pow2(rest));
      if rest < 64 {
        AndLowMask(limb, rest);
        Pow2Add(64 - rest, rest);
        Pow2Mono(rest, 64);
        DivDiv(q, Pow2(rest), Pow2(64 - rest));
        DivModUnique(q % Pow2(rest), Pow2(64), 0, q % Pow2(rest));
      } else {
        Pow2Add(rest - 64, 64);
        DivDiv(q, Pow2(64), Pow2(rest - 64));
      }
    }
  }

  /** `combine` is ((A xor B) div 2^24) mod 2^lout on the 448-bit values. */
  method Combine(a: Elem, b: Elem, lout: nat) returns (out: Elem)
    ensures out == Combined(a, b, lout)
    ensures ElemValue(out) == (Xor(ElemValue(a), ElemValue(b)) / Pow2(24)) % Pow2(lout)
  {
    hide Pow2, Xor, Or, And, Shr, Shl64, ToDigits, LowMask;
    var x: seq<nat> := [];
    for i := 0 to 7
      invariant |x| == i
      invariant forall k :: 0 <= k < i ==> x[k] == Xor(a[k], b[k])
    {
      x := x + [Xor(a[i], b[i])];
    }
    assert x == XorLimbs(a, b);
    XorLimbsIsXor(a, b);
    ghost var v := Value(64, x) / Pow2(24);
    DivNonNeg(Value(64, x), Pow2(24));

    var w: seq<nat> := [];
    for i := 0 to 7
      invariant |w| == i
      invariant forall k :: 0 <= k < i ==> w[k] == (v / Pow2(64 * k)) % Pow2(64)
    {
      ShiftedLimbIsDigit(x, i);
      w := w + [Or(Shr(x[i], 24), if i < 6 then Shl64(x[i + 1], 40) else 0)];
    }

    ghost var shifted := w;
    ghost var cut := ToDigits(64, v % Pow2(lout), 7);
    for i := 0 to 7
      invariant |w| == 7
      invariant forall k :: 0 <= k < i ==> w[k] == cut[k]
      invariant forall k :: i <= k < 7 ==> w[k] == shifted[k]
    {
      var base := 64 * i;
      MaskedLimb(v, lout, i, w[i]);
      ToDigitsAt(64, v % Pow2(lout), 7, i);
      if base >= lout {
        w := w[i := 0];
      } else if lout - base < 64 {
        w := w[i := And(w[i], LowMask(lout - base))];
      }
    }
    assert w == cut;
    assert cut == Combined(a, b, lout);
    CombinedValue(a, b, lout);
    out := w;
  }

  /** Everything above the ceil(lout/64) significant words of a combined element is zero. */
  lemma SignificantWords(e: Elem, lout: nat, words: nat)
    requires ElemValue(e) < Pow2(lout) && lout <= 64 * words && words <= 7
    ensures forall i :: words <= i < 7 ==> e[i] == 0
    ensures Value(64, e[..words]) == ElemValue(e)
  {
    Pow2Mono(lout, 64 * words);
    ValueSplit(64, e, words);
    var hi := Value(64, e[words..]);
    if hi > 0 {
      MulMono(1, hi, Pow2(64 * words));
    }
    ValueZero(64, e[words..]);
    forall i | words <= i < 7 ensures e[i] == 0 {
      assert e[i] == e[words..][i - words];
    }
  }
}
