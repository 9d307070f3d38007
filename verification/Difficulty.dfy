/**
  The share target test (src/pow/difficulty.cpp): a 256-bit hash times a 25-bit mantissa
  as a 288-bit product, compared with a power of two limb by limb from the top.
 */
module Difficulty {
  import opened Numbers
  import opened Bits
  import opened Digits

  /** The hash as a big-endian number. */
  function BigEndian(bytes: seq<nat>): nat
  {
    if bytes == [] then 0 else 256 * BigEndian(bytes[..|bytes| - 1]) + bytes[|bytes| - 1]
  }

  /** One 32-bit limb out of four big-endian bytes. */
  function Limb(a: nat, b: nat, c: nat, d: nat): nat
  {
    Or(Or(Or(a * Pow2(24), b * Pow2(16)), c * Pow2(8)), d)
  }

  lemma LimbIsSum(a: nat, b: nat, c: nat, d: nat)
    requires a < 256 && b < 256 && c < 256 && d < 256
    ensures Limb(a, b, c, d) == a * 0x100_0000 + b * 0x1_0000 + c * 0x100 + d
    ensures Limb(a, b, c, d) < Pow2(32)
  {
    hide Pow2, Or;
    Pow2Values();
    OrDisjoint(24, b * Pow2(16), a);
    var ab := a * 0x100 + b;
    OrDisjoint(16, c * Pow2(8), ab);
    var abc := ab * 0x100 + c;
    OrDisjoint(8, d, abc);
  }

  /** The eight limbs of the hash, least significant first. */
  function HashLimbs(hash: seq<nat>, n: nat): (s: seq<nat>)
    requires |hash| == 32 && n <= 8
    ensures |s| == n
  {
    if n == 0 then []
    else
      var i := 8 - n;
      HashLimbs(hash, n - 1) + [Limb(hash[i * 4], hash[i * 4 + 1], hash[i * 4 + 2], hash[i * 4 + 3])]
  }

  /** The bytes from position 4(8 - n) on, as a number, are the n low limbs. */
  lemma {:induction false} HashLimbsValue(hash: seq<nat>, n: nat)
    requires |hash| == 32 && AreDigits(8, hash) && n <= 8
    ensures AreDigits(32, HashLimbs(hash, n))
    ensures Value(32, HashLimbs(hash, n)) == BigEndian(hash[32 - 4 * n..])
    decreases n
  {
    hide Pow2, Limb;
    if n > 0 {
      HashLimbsValue(hash, n - 1);
      var i := 4 * (8 - n);
      Pow2Values();
      LimbIsSum(hash[i], hash[i + 1], hash[i + 2], hash[i + 3]);
      ValueAppend(32, HashLimbs(hash, n - 1), Limb(hash[i], hash[i + 1], hash[i + 2], hash[i + 3]));
      BigEndianFour(hash[i..]);
      assert hash[i..][4..] == hash[i + 4..];
      Pow2Weights(32 * (n - 1), 8 * |hash[i + 4..]|);
    } else {
      assert hash[32..] == [];
    }
  }

  lemma Pow2Weights(a: nat, b: nat)
    requires a == b
    ensures Pow2(a) == Pow2(b)
  {
  }

  /** The first byte carries weight 256^(n-1). */
  lemma {:induction false} BigEndianHead(s: seq<nat>)
    requires s != []
    ensures BigEndian(s) == s[0] * Pow2(8 * (|s| - 1)) + BigEndian(s[1..])
  {
    hide Pow2;
    Pow2Values();
    if |s| == 1 {
    } else {
      var init := s[..|s| - 1];
      BigEndianHead(init);
      assert init[1..] == s[1..][..|s| - 2];
      Pow2Add(8, 8 * (|s| - 2));
      Assoc(256, s[0], Pow2(8 * (|s| - 2)));
      Assoc(s[0], 256, Pow2(8 * (|s| - 2)));
    }
  }

  lemma Horner(p: nat, a: nat, b: nat, c: nat, d: nat)
    ensures p * (a * 0x100_0000 + b * 0x1_0000 + c * 0x100 + d)
         == a * (0x100_0000 * p) + b * (0x1_0000 * p) + c * (0x100 * p) + d * p
  {
    Distribute(a * 0x100_0000 + b * 0x1_0000 + c * 0x100, d, p);
    Distribute(a * 0x100_0000 + b * 0x1_0000, c * 0x100, p);
    Distribute(a * 0x100_0000, b * 0x1_0000, p);
    Assoc(a, 0x100_0000, p);
    Assoc(b, 0x1_0000, p);
    Assoc(c, 0x100, p);
    Assoc(d, p, 1);
  }

  lemma BigEndianFour(s: seq<nat>)
    requires |s| >= 4
    ensures BigEndian(s) == Pow2(8 * |s[4..]|) * (s[0] * 0x100_0000 + s[1] * 0x1_0000 + s[2] * 0x100 + s[3])
                          + BigEndian(s[4..])
  {
    hide Pow2, BigEndian;
    Pow2Values();
    var k := 8 * |s[4..]|;
    BigEndianHead(s);
    BigEndianHead(s[1..]);
    BigEndianHead(s[2..]);
    BigEndianHead(s[3..]);
    assert s[1..][1..] == s[2..] && s[2..][1..] == s[3..] && s[3..][1..] == s[4..];
    Pow2Add(8, k);
    Pow2Add(16, k);
    Pow2Add(24, k);
    Horner(Pow2(k), s[0], s[1], s[2], s[3]);
  }

  // ---- the compare -------------------------------------------------------------------------

  /** Limb j of a number has nothing at or above bit `bitpos` of the whole number. */
  predicate BelowCut(v: nat, j: nat, bitpos: nat)
  {
    if bitpos >= 32 * j + 32 then true
    else if bitpos <= 32 * j then v == 0
    else v < Pow2(bitpos - 32 * j)
  }

  /** A number is below 2^bitpos exactly when every limb is below the cut. */
  lemma BelowIffEveryLimbIs(p: seq<nat>, bitpos: nat)
    requires |p| == 9 && AreDigits(32, p)
    ensures Value(32, p) < Pow2(bitpos) <==> forall j :: 0 <= j < 9 ==> BelowCut(p[j], j, bitpos)
  {
    hide Pow2, BelowCut, Value;
    ValueBound(32, p);
    if bitpos >= 288 {
      Pow2Mono(288, bitpos);
      AllBelowHighCut(p, bitpos);
    } else {
      if Value(32, p) < Pow2(bitpos) {
        forall j | 0 <= j < 9 ensures BelowCut(p[j], j, bitpos) {
          LimbBelowCut(p, j, bitpos);
        }
      }
      if forall j :: 0 <= j < 9 ==> BelowCut(p[j], j, bitpos) {
        LimbsBelowCut(p, bitpos);
      }
    }
  }

  lemma AllBelowHighCut(p: seq<nat>, bitpos: nat)
    requires |p| == 9 && bitpos >= 288
    ensures forall j :: 0 <= j < 9 ==> BelowCut(p[j], j, bitpos)
  {
  }

  /** The limbs above the cut are zero and the one at the cut is small enough. */
  lemma CutLimbs(p: seq<nat>, bitpos: nat)
    requires |p| == 9 && bitpos < 288 && forall j :: 0 <= j < 9 ==> BelowCut(p[j], j, bitpos)
    ensures p[bitpos / 32] < Pow2(bitpos % 32)
    ensures forall i :: bitpos / 32 < i < 9 ==> p[i] == 0
  {
    hide Pow2;
    Pow2Values();
    assert BelowCut(p[bitpos / 32], bitpos / 32, bitpos);
  }

  lemma LimbsBelowCut(p: seq<nat>, bitpos: nat)
    requires |p| == 9 && AreDigits(32, p) && bitpos < 288 && forall j :: 0 <= j < 9 ==> BelowCut(p[j], j, bitpos)
    ensures Value(32, p) < Pow2(bitpos)
  {
    hide Pow2, BelowCut, Value;
    var k, sh := bitpos / 32, bitpos % 32;
    CutLimbs(p, bitpos);
    ValueSplit(32, p, k);
    ValueBound(32, p[..k]);
    TopLimbs(p[k..]);
    Pow2Add(sh, 32 * k);
    DigitBound(p[k], Value(32, p[..k]), Pow2(32 * k), Pow2(sh));
    Assoc(Pow2(32 * k), p[k], 1);
  }

  lemma TopLimbs(s: seq<nat>)
    requires s != [] && forall i :: 1 <= i < |s| ==> s[i] == 0
    ensures Value(32, s) == s[0]
  {
    ValueZero(32, s[1..]);
  }

  lemma LimbBelowCut(p: seq<nat>, j: nat, bitpos: nat)
    requires |p| == 9 && AreDigits(32, p) && j < 9 && Value(32, p) < Pow2(bitpos)
    ensures BelowCut(p[j], j, bitpos)
  {
    hide Pow2;
    if bitpos < 32 * j + 32 {
      if bitpos <= 32 * j {
        ValueDigit(32, p, j);
        Pow2Mono(bitpos, 32 * j);
        DivModUnique(Value(32, p), Pow2(32 * j), 0, Value(32, p));
        DivModUnique(0, Pow2(32), 0, 0);
      } else {
        DigitBelow(32, p, j, bitpos - 32 * j);
      }
    }
  }

  /** `v & ~mask` is zero exactly when v is below the mask's power of two. */
  lemma HighBitsClear(v: nat, k: nat)
    requires v < Pow2(32) && k <= 32
    ensures Pow2(k) <= Pow2(32)
    ensures And(v, LowMask(32) - LowMask(k)) == 0 <==> v < Pow2(k)
  {
    hide Pow2, And;
    Pow2Mono(k, 32);
    AndHighMask(v, k, 32);
    DivModOf(v, Pow2(k));
    if v < Pow2(k) {
      DivModUnique(v, Pow2(k), 0, v);
    }
  }

  // ---- mul_lt_pow2 -----------------------------------------------------------------------------

  /** One multiply step stays inside 64 bits and leaves a 32-bit carry. */
  lemma CarryStep(h: nat, m: nat, carry: nat)
    requires h < Pow2(32) && m < Pow2(32) && carry < Pow2(32)
    ensures 0 <= h * m && h * m + carry < Pow2(64)
    ensures 0 <= (h * m + carry) / Pow2(32) < Pow2(32)
  {
    hide Pow2;
    Pow2Add(32, 32);
    MulNonNeg(h, m);
    MulMono(m, Pow2(32) - 1, h);
    DigitBound(h, carry, Pow2(32), Pow2(32));
    Distribute(Pow2(32), 1, h);
    // h·m + carry <= h·(2^32 - 1) + carry
    MulMono(h, Pow2(32) - 1, Pow2(32));
    QuotientBelow(h * m + carry, Pow2(32), Pow2(32));
  }

  /** The digits written so far plus the carry are the product so far. */
  lemma ProductStep(done: nat, p: nat, carry: nat, low: nat, h: nat, m: nat, w: nat)
    requires done + w * carry == p * m
    requires low < Pow2(32)
    requires low == (h * m + carry) % Pow2(32)
    ensures done + w * low + (w * Pow2(32)) * ((h * m + carry) / Pow2(32)) == (p + w * h) * m
  {
    hide Pow2;
    var cur := h * m + carry;
    DivModOf(cur, Pow2(32));
    Assoc(w, Pow2(32), cur / Pow2(32));
    Assoc(cur / Pow2(32), Pow2(32), 1);
    Distribute(Pow2(32) * (cur / Pow2(32)), low, w);
    Distribute(h * m, carry, w);
    Distribute(p, w * h, m);
    Assoc(w, h, m);
  }

  lemma NextLimb(hash: seq<nat>, n: nat)
    requires |hash| == 32 && n < 8
    ensures var i := 7 - n;
      && HashLimbs(hash, n + 1) == HashLimbs(hash, n) + [Limb(hash[i * 4], hash[i * 4 + 1], hash[i * 4 + 2], hash[i * 4 + 3])]
      && |HashLimbs(hash, n)| == n
  {
    hide Limb;
  }

  /** The multiply loop keeps "digits written + carry = product so far", and never wraps at 64 bits. */
  lemma MulStep(hash: seq<nat>, mantissa: nat, p: seq<nat>, carry: nat, h: nat)
    requires |hash| == 32 && AreDigits(8, hash) && mantissa < Pow2(32) && carry < Pow2(32)
    requires |p| < 8 && AreDigits(32, p)
    requires var i := 7 - |p|; h == Limb(hash[i * 4], hash[i * 4 + 1], hash[i * 4 + 2], hash[i * 4 + 3])
    requires 0 <= Pow2(32 * |p|) * carry
    requires Value(32, p) + Pow2(32 * |p|) * carry == Value(32, HashLimbs(hash, |p|)) * mantissa
    ensures 0 <= h * mantissa
    ensures var cur := (h * mantissa + carry) % Pow2(64);
      && cur == h * mantissa + carry
      && 0 <= cur % Pow2(32) < Pow2(32) && 0 <= cur / Pow2(32) < Pow2(32)
      && var p' := p + [cur % Pow2(32)];
      && AreDigits(32, p')
      && 0 <= Pow2(32 * |p'|) * (cur / Pow2(32))
      && Value(32, p') + Pow2(32 * |p'|) * (cur / Pow2(32)) == Value(32, HashLimbs(hash, |p'|)) * mantissa
  {
    hide Pow2, Limb, Value, HashLimbs, BigEndian;
    var n := |p|;
    HashLimbsValue(hash, n + 1);
    var limbs := HashLimbs(hash, n);
    NextLimb(hash, n);
    assert HashLimbs(hash, n + 1)[n] == h;
    CarryStep(h, mantissa, carry);
    var cur := h * mantissa + carry;
    DivModUnique(cur, Pow2(64), 0, cur);
    DivModOf(cur, Pow2(32));
    ProductStep(Value(32, p), Value(32, limbs), carry, cur % Pow2(32), h, mantissa, Pow2(32 * n));
    ValueAppend(32, p, cur % Pow2(32));
    ValueAppend(32, limbs, h);
    Pow2Add(32 * n, 32);
    MulNonNeg(Pow2(32 * (n + 1)), cur / Pow2(32));
  }

  lemma NoLimbs(hash: seq<nat>)
    requires |hash| == 32
    ensures HashLimbs(hash, 0) == []
  {
  }

  method MulLtPow2(hash: seq<nat>, mantissa: nat, bitpos: nat) returns (below: bool)
    requires |hash| == 32 && AreDigits(8, hash) && mantissa < Pow2(32)
    ensures below <==> BigEndian(hash) * mantissa < Pow2(bitpos)
  {
    hide Pow2, Or, And, Limb, BelowCut, LowMask, HashLimbs, BigEndian;
    var H: seq<nat> := [];
    for i := 0 to 8
      invariant |H| == i
      invariant forall k :: 0 <= k < i ==> H[k] == Limb(hash[k * 4], hash[k * 4 + 1], hash[k * 4 + 2], hash[k * 4 + 3])
    {
      H := H + [Limb(hash[i * 4], hash[i * 4 + 1], hash[i * 4 + 2], hash[i * 4 + 3])];
    }

    var P: seq<nat> := [0, 0, 0, 0, 0, 0, 0, 0, 0];
    var carry := 0;
    var i := 8;
    Pow2Mono(0, 32);
    NoLimbs(hash);
    while i > 0
      invariant i <= 8 && |P| == 9
      invariant carry < Pow2(32)
      invariant AreDigits(32, P[..8 - i])
      invariant 0 <= Pow2(32 * (8 - i)) * carry
      invariant Value(32, P[..8 - i]) + Pow2(32 * (8 - i)) * carry == Value(32, HashLimbs(hash, 8 - i)) * mantissa
    {
      i := i - 1;
      ghost var was := P[..7 - i];
      MulStep(hash, mantissa, was, carry, H[i]);
      var cur := (H[i] * mantissa + carry) % Pow2(64);
      P := P[7 - i := cur % Pow2(32)];
      carry := cur / Pow2(32);
      assert P[..8 - i] == was + [cur % Pow2(32)];
    }
    P := P[8 := carry];
    HashLimbsValue(hash, 8);
    assert hash[0..] == hash;
    assert P == P[..8] + [carry];
    ValueAppend(32, P[..8], carry);
    BelowIffEveryLimbIs(P, bitpos);

    var limb := 9;
    while limb > 0
      invariant limb <= 9
      invariant forall j :: limb <= j < 9 ==> BelowCut(P[j], j, bitpos)
    {
      limb := limb - 1;
      var lo, hi := limb * 32, limb * 32 + 32;
      var v := P[limb];
      CutCases(v, limb, bitpos);
      if bitpos >= hi {
        if v != 0 {
          BelowFromHere(P, limb, bitpos);
          return true;
        }
      } else if bitpos <= lo {
        if v != 0 {
          return false;
        }
      } else {
        HighBitsClear(v, bitpos - lo);
        if And(v, LowMask(32) - LowMask(bitpos - lo)) != 0 {
          return false;
        }
      }
    }
    return true;
  }

  lemma CutCases(v: nat, j: nat, bitpos: nat)
    ensures bitpos >= 32 * j + 32 ==> BelowCut(v, j, bitpos)
    ensures bitpos <= 32 * j ==> (BelowCut(v, j, bitpos) <==> v == 0)
    ensures 32 * j < bitpos < 32 * j + 32 ==> (BelowCut(v, j, bitpos) <==> v < Pow2(bitpos - 32 * j))
    ensures 32 * j < bitpos < 32 * j + 32 ==> LowMask(32) - LowMask(bitpos - 32 * j) >= 0
  {
    if 32 * j < bitpos < 32 * j + 32 {
      Pow2Mono(bitpos - 32 * j, 32);
    }
  }

  lemma BelowFromHere(p: seq<nat>, limb: nat, bitpos: nat)
    requires |p| == 9 && limb < 9 && bitpos >= 32 * limb + 32
    ensures forall j :: 0 <= j <= limb ==> BelowCut(p[j], j, bitpos)
  {
  }

  // ---- is_target_reached ---------------------------------------------------------------------

  const MAX_PACKED := 232 * 0x100_0000

  /** hash · (2^24 + mantissa) < 2^(280 - order), for a packed target no larger than 232·2^24. */
  ghost predicate Reached(hash: seq<nat>, packed: nat)
  {
    packed <= MAX_PACKED
    && BigEndian(hash) * (0x100_0000 + packed % 0x100_0000) < Pow2(280 - packed / 0x100_0000)
  }

  method IsTargetReached(hash: seq<nat>, packed: nat) returns (reached: bool)
    requires |hash| == 32 && AreDigits(8, hash) && packed < Pow2(32)
    ensures reached <==> Reached(hash, packed)
  {
    hide Pow2, Or, And;
    if packed > MAX_PACKED {
      return false;
    }
    Pow2Values();
    var order := packed / Pow2(24);
    AndLowMask(packed, 24);
    OrDisjoint(24, packed % Pow2(24), 1);
    var mantissa := Or(Pow2(24) * 1, And(packed, LowMask(24)));
    reached := MulLtPow2(hash, mantissa, 280 - order);
  }

  /** Clearing a target clears every smaller one: the packed form is monotone in difficulty. */
  lemma ReachedIsMonotone(hash: seq<nat>, packed: nat, smaller: nat)
    requires Reached(hash, packed) && smaller <= packed
    ensures Reached(hash, smaller)
  {
    hide Pow2;
    Pow2Values();
    var h := BigEndian(hash);
    var m, o := 0x100_0000 + packed % 0x100_0000, packed / 0x100_0000;
    var m', o' := 0x100_0000 + smaller % 0x100_0000, smaller / 0x100_0000;
    assert o' <= o <= 232;
    if o' < o {
      // m' < 2^25, so m'·2^o' <= m·2^o; cancel the common power of two.
      var d := o - o';
      Pow2Mono(1, d);
      Pow2Add(280 - o, d);
      assert m' <= m * 2;
      MulMono(2, Pow2(d), m);
      MulMono(m', m * Pow2(d), h);
      Assoc(h, m, Pow2(d));
      MulMono(h * m + 1, Pow2(280 - o), Pow2(d));
      Distribute(h * m, 1, Pow2(d));
    } else {
      MulMono(m', m, h);
    }
  }

  /** Multiplying both sides of a comparison by a positive number. */
  lemma LessScaled(a: nat, b: nat, m: nat)
    requires m > 0
    ensures a < b <==> a * m < b * m
  {
    if a < b {
      MulMono(a + 1, b, m);
      Distribute(a, 1, m);
    } else {
      MulMono(b, a, m);
    }
  }

  /** At a power-of-two target the test counts leading zero bits: `order` of them are needed. */
  lemma PowerTargetsCountZeros(hash: seq<nat>, order: nat)
    ensures order <= 232 ==> (Reached(hash, order * 0x100_0000) <==> BigEndian(hash) < Pow2(256 - order))
    ensures order > 232 ==> !Reached(hash, order * 0x100_0000)
  {
    hide Pow2, BigEndian;
    Pow2Values();
    if order <= 232 {
      Pow2Add(256 - order, 24);
      LessScaled(BigEndian(hash), Pow2(256 - order), Pow2(24));
    }
  }

  /**
    In general the hash times the displayed difficulty, mantissa · 2^(order - 24), has to stay
    below 2^256; here with both sides scaled by 2^24.
   */
  lemma ReachedInUnits(hash: seq<nat>, packed: nat)
    requires packed <= MAX_PACKED
    ensures 0 <= (0x100_0000 + packed % 0x100_0000) * Pow2(packed / 0x100_0000)
    ensures Reached(hash, packed)
       <==> BigEndian(hash) * ((0x100_0000 + packed % 0x100_0000) * Pow2(packed / 0x100_0000)) < Pow2(280)
  {
    hide Pow2, BigEndian;
    var h, m, o := BigEndian(hash), 0x100_0000 + packed % 0x100_0000, packed / 0x100_0000;
    MulNonNeg(m, Pow2(o));
    MulNonNeg(h, m);
    Pow2Add(280 - o, o);
    Assoc(h, m, Pow2(o));
    LessScaled(h * m, Pow2(280 - o), Pow2(o));
  }
}
