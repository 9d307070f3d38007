/**
  Fixed-width words as natural numbers.

  Every machine word of the miner (bytes, 32-bit and 64-bit limbs, 25-bit indices) is a
  natural number here, with its width written out: a shift left is a multiplication cut
  off by `%`, a shift right a division, and the bitwise operators are defined digit by
  digit. The lemmas below are the bridge between those operators and plain arithmetic.
 */
module Numbers {
  const TWO64: nat := 0x1_0000_0000_0000_0000

  function Pow2(n: nat): (r: nat)
    ensures r > 0
  {
    if n == 0 then 1 else 2 * Pow2(n - 1)
  }

  lemma Pow2Add(m: nat, n: nat)
    ensures Pow2(m + n) == Pow2(m) * Pow2(n)
  {
    if m != 0 {
      Pow2Add(m - 1, n);
      Assoc(2, Pow2(m - 1), Pow2(n));
    }
  }

  lemma Pow2Mono(m: nat, n: nat)
    requires m <= n
    ensures Pow2(m) <= Pow2(n)
    ensures m < n ==> 2 * Pow2(m) <= Pow2(n)
  {
    if m < n {
      Pow2Mono(m, n - 1);
    }
  }

  lemma Pow2Values()
    ensures Pow2(0) == 1 && Pow2(1) == 2
    ensures Pow2(8) == 0x100 && Pow2(16) == 0x1_0000 && Pow2(24) == 0x100_0000
    ensures Pow2(25) == 0x200_0000 && Pow2(32) == 0x1_0000_0000
  {
    Pow2Add(8, 8);
    Pow2Add(16, 8);
    Pow2Add(16, 16);
  }

  // ---- products ----------------------------------------------------------------------

  lemma MulMono(a: int, b: int, c: int)
    requires a <= b && 0 <= c
    ensures a * c <= b * c
    ensures c * a <= c * b
  {
  }

  lemma MulNonNeg(a: int, b: int)
    requires 0 <= a && 0 <= b
    ensures 0 <= a * b
    ensures 0 < a && 0 < b ==> 0 < a * b
  {
  }

  lemma Distribute(a: int, b: int, c: int)
    ensures (a + b) * c == a * c + b * c
    ensures (a - b) * c == a * c - b * c
    ensures c * (a + b) == c * a + c * b
    ensures c * (a - b) == c * a - c * b
  {
  }

  lemma Assoc(a: int, b: int, c: int)
    ensures a * (b * c) == (a * b) * c
    ensures a * b == b * a
  {
  }

  // ---- quotient and remainder ----------------------------------------------------------

  lemma DivModOf(n: int, d: int)
    requires d > 0
    ensures n == (n / d) * d + n % d && 0 <= n % d < d
  {
  }

  lemma QuotientUnique(d: int, q: int, r: int, q': int, r': int)
    requires 0 <= r < d && 0 <= r' < d
    requires q * d + r == q' * d + r'
    ensures q == q' && r == r'
  {
    if q < q' {
      MulMono(q + 1, q', d);
      Distribute(q, 1, d);
    } else if q' < q {
      MulMono(q' + 1, q, d);
      Distribute(q', 1, d);
    }
  }

  /** Quotient and remainder are determined by the division equation. */
  lemma DivModUnique(n: int, d: int, q: int, r: int)
    requires d > 0 && n == q * d + r && 0 <= r < d
    ensures n / d == q && n % d == r
  {
    DivModOf(n, d);
    QuotientUnique(d, n / d, n % d, q, r);
  }

  lemma DivNonNeg(n: nat, d: nat)
    requires d > 0
    ensures 0 <= n / d
  {
    if n / d < 0 {
      MulMono(n / d, -1, d);
      DivModOf(n, d);
    }
  }

  lemma ModAddMultiple(x: nat, k: nat, d: nat)
    requires d > 0
    ensures 0 <= k * d
    ensures (x + k * d) % d == x % d
    ensures (x + k * d) / d == x / d + k
  {
    DivModOf(x, d);
    MulNonNeg(k, d);
    Distribute(x / d, k, d);
    DivModUnique(x + k * d, d, x / d + k, x % d);
  }

  lemma ModSum(a: nat, b: nat, d: nat)
    requires d > 0
    ensures (a + b % d) % d == (a + b) % d
    ensures (a % d + b) % d == (a + b) % d
  {
    DivModOf(a, d);
    DivModOf(b, d);
    DivNonNeg(a, d);
    DivNonNeg(b, d);
    ModAddMultiple(a + b % d, b / d, d);
    ModAddMultiple(a % d + b, a / d, d);
  }

  /** q * m + r with r below m, and q below n, stays below n * m. */
  lemma DigitBound(q: nat, r: nat, m: nat, n: nat)
    requires r < m && q < n
    ensures 0 <= q * m
    ensures q * m + r < n * m
  {
    MulNonNeg(q, m);
    MulMono(q + 1, n, m);
    Distribute(q, 1, m);
  }

  lemma QuotientBelow(x: nat, p: nat, q: nat)
    requires p > 0 && x < q * p
    ensures 0 <= x / p < q
  {
    DivModOf(x, p);
    DivNonNeg(x, p);
    if x / p >= q {
      MulMono(q, x / p, p);
    }
  }

  /** Dividing by m and then by n is dividing by m * n. */
  lemma DivDiv(x: nat, m: nat, n: nat)
    requires m > 0 && n > 0
    ensures n * m > 0
    ensures 0 <= x / m
    ensures x / m / n == x / (n * m)
    ensures (x / m) % n == (x % (n * m)) / m
    ensures x % m == (x % (n * m)) % m
  {
    DivNonNeg(x, m);
    DivNonNeg(x / m, n);
    var q, r := x / m, x % m;
    var q', r' := q / n, q % n;
    DivModOf(x, m);
    DivModOf(q, n);
    MulNonNeg(n, m);
    Distribute(q' * n, r', m);
    Assoc(q', n, m);
    DigitBound(r', r, m, n);
    DivModUnique(x, n * m, q', r' * m + r);
    DivModUnique(r' * m + r, m, r', r);
  }

  lemma ModScale(x: nat, m: nat, d: nat)
    requires m > 0 && d > 0
    ensures d * m > 0
    ensures (x * m) % (d * m) == (x % d) * m
  {
    DivModOf(x, d);
    MulNonNeg(d, m);
    Distribute((x / d) * d, x % d, m);
    Assoc(x / d, d, m);
    DigitBound(x % d, 0, m, d);
    DivModUnique(x * m, d * m, x / d, (x % d) * m);
  }
}

/** Bitwise operators on natural numbers, one binary digit at a time. */
module Bits {
  import opened Numbers

  function Xor(x: nat, y: nat): nat
    decreases x + y
  {
    if x == 0 && y == 0 then 0 else (x % 2 + y % 2) % 2 + 2 * Xor(x / 2, y / 2)
  }

  function Or(x: nat, y: nat): nat
    decreases x + y
  {
    if x == 0 && y == 0 then 0
    else (if x % 2 == 1 || y % 2 == 1 then 1 else 0) + 2 * Or(x / 2, y / 2)
  }

  function And(x: nat, y: nat): nat
    decreases x + y
  {
    if x == 0 && y == 0 then 0
    else (if x % 2 == 1 && y % 2 == 1 then 1 else 0) + 2 * And(x / 2, y / 2)
  }

  /** The mask with the low n bits set, (1 << n) - 1. */
  function LowMask(n: nat): nat { Pow2(n) - 1 }

  lemma Halves(a: nat, p: nat, x: nat)
    ensures 0 <= p * x && 0 <= (2 * p) * x
    ensures (2 * p) * x == 2 * (p * x)
    ensures (a + (2 * p) * x) % 2 == a % 2
    ensures (a + (2 * p) * x) / 2 == a / 2 + p * x
    ensures a < 2 * p ==> a / 2 < p
  {
    Assoc(2, p, x);
    MulNonNeg(p, x);
  }

  /** An exclusive-or splits at any bit position: low halves and high halves do not interact. */
  lemma {:induction false} XorSplit(n: nat, a: nat, b: nat, x: nat, y: nat)
    requires a < Pow2(n) && b < Pow2(n)
    ensures 0 <= Pow2(n) * x && 0 <= Pow2(n) * y
    ensures Xor(a, b) < Pow2(n)
    ensures Xor(a + Pow2(n) * x, b + Pow2(n) * y) == Xor(a, b) + Pow2(n) * Xor(x, y)
  {
    hide Xor;
    if n == 0 {
      assert a == 0 && b == 0;
      XorStep(0, 0);
    } else {
      var p := Pow2(n - 1);
      Halves(a, p, x);
      Halves(b, p, y);
      Halves(0, p, Xor(x, y));
      XorSplit(n - 1, a / 2, b / 2, x, y);
      XorStep(a, b);
      XorStep(a + Pow2(n) * x, b + Pow2(n) * y);
    }
  }

  lemma XorStep(x: nat, y: nat)
    ensures Xor(x, y) == (x % 2 + y % 2) % 2 + 2 * Xor(x / 2, y / 2)
    ensures Xor(0, 0) == 0
  {
  }

  lemma OrStep(x: nat, y: nat)
    ensures Or(x, y) == (if x % 2 == 1 || y % 2 == 1 then 1 else 0) + 2 * Or(x / 2, y / 2)
  {
  }

  lemma AndStep(x: nat, y: nat)
    ensures And(x, y) == (if x % 2 == 1 && y % 2 == 1 then 1 else 0) + 2 * And(x / 2, y / 2)
  {
  }

  /** Binary digit n of x. */
  function Bit(x: nat, n: nat): nat { DivNonNeg(x, Pow2(n)); (x / Pow2(n)) % 2 }

  lemma BitOfHalf(x: nat, n: nat)
    requires n > 0
    ensures Bit(x, n) == Bit(x / 2, n - 1)
  {
    DivDiv(x, 2, Pow2(n - 1));
    DivNonNeg(x, 2);
  }

  lemma BitZero(x: nat)
    ensures Bit(x, 0) == x % 2
  {
  }

  /** Each operator works on every binary digit by itself. */
  lemma {:induction false} XorBit(x: nat, y: nat, n: nat)
    ensures Bit(Xor(x, y), n) == 1 <==> Bit(x, n) != Bit(y, n)
  {
    hide Pow2, Xor;
    XorStep(x, y);
    if n == 0 {
      BitZero(x);
      BitZero(y);
      BitZero(Xor(x, y));
    } else {
      hide Bit;
      BitOfHalf(x, n);
      BitOfHalf(y, n);
      BitOfHalf(Xor(x, y), n);
      XorBit(x / 2, y / 2, n - 1);
    }
  }

  lemma {:induction false} OrBit(x: nat, y: nat, n: nat)
    ensures Bit(Or(x, y), n) == 1 <==> Bit(x, n) == 1 || Bit(y, n) == 1
  {
    hide Pow2, Or;
    OrStep(x, y);
    if n == 0 {
      BitZero(x);
      BitZero(y);
      BitZero(Or(x, y));
    } else {
      hide Bit;
      BitOfHalf(x, n);
      BitOfHalf(y, n);
      BitOfHalf(Or(x, y), n);
      OrBit(x / 2, y / 2, n - 1);
    }
  }

  lemma {:induction false} AndBit(x: nat, y: nat, n: nat)
    ensures Bit(And(x, y), n) == 1 <==> Bit(x, n) == 1 && Bit(y, n) == 1
  {
    hide Pow2, And;
    AndStep(x, y);
    if n == 0 {
      BitZero(x);
      BitZero(y);
      BitZero(And(x, y));
    } else {
      hide Bit;
      BitOfHalf(x, n);
      BitOfHalf(y, n);
      BitOfHalf(And(x, y), n);
      AndBit(x / 2, y / 2, n - 1);
    }
  }

  /** Or-ing values with no bit in common is addition. */
  lemma {:induction false} OrDisjoint(n: nat, a: nat, x: nat)
    requires a < Pow2(n)
    ensures 0 <= Pow2(n) * x
    ensures Or(a, Pow2(n) * x) == a + Pow2(n) * x
    ensures Or(Pow2(n) * x, a) == a + Pow2(n) * x
  {
    if n == 0 {
      assert a == 0;
      OrZero(x);
    } else {
      var p := Pow2(n - 1);
      Halves(a, p, 0);
      Halves(0, p, x);
      OrDisjoint(n - 1, a / 2, x);
      OrStep(a, Pow2(n) * x);
      OrStep(Pow2(n) * x, a);
    }
  }

  lemma {:induction false} OrZero(x: nat)
    ensures Or(0, x) == x && Or(x, 0) == x
  {
    if x == 0 {
    } else {
      OrZero(x / 2);
    }
  }

  lemma {:induction false} AndZero(x: nat)
    ensures And(0, x) == 0 && And(x, 0) == 0
  {
    if x == 0 {
    } else {
      AndZero(x / 2);
    }
  }

  /** x / 2 cut at p and x cut at 2p are the same cut. */
  lemma CutHalf(x: nat, p: nat)
    requires p > 0
    ensures x % (2 * p) == 2 * ((x / 2) % p) + x % 2
  {
    DivDiv(x, 2, p);
    DivModOf(x % (p * 2), 2);
  }

  /** Masking with (1 << n) - 1 keeps the value modulo 2^n. */
  lemma {:induction false} AndLowMask(x: nat, n: nat)
    ensures And(x, LowMask(n)) == x % Pow2(n)
  {
    hide And;
    if n == 0 {
      AndZero(x);
    } else {
      AndLowMask(x / 2, n - 1);
      AndStep(x, LowMask(n));
      CutHalf(x, Pow2(n - 1));
    }
  }

  lemma AndTwice(x: nat, y: nat)
    ensures And(x, 2 * y) == 2 * And(x / 2, y)
  {
    AndStep(x, 2 * y);
  }

  lemma CutTwice(x: nat, p: nat)
    requires p > 0
    ensures x - x % (2 * p) == 2 * (x / 2 - (x / 2) % p)
  {
    CutHalf(x, p);
  }

  lemma HighMaskHalf(n: nat, m: nat)
    requires 0 < n <= m
    ensures 0 <= LowMask(m - 1) - LowMask(n - 1)
    ensures LowMask(m) - LowMask(n) == 2 * (LowMask(m - 1) - LowMask(n - 1))
    ensures Pow2(n) == 2 * Pow2(n - 1) && Pow2(m) == 2 * Pow2(m - 1)
  {
    Pow2Mono(n - 1, m - 1);
  }

  /** Masking with the complement, inside m bits, of the low n bits clears exactly those n. */
  lemma {:induction false} AndHighMask(x: nat, n: nat, m: nat)
    requires n <= m && x < Pow2(m)
    ensures Pow2(n) <= Pow2(m)
    ensures And(x, LowMask(m) - LowMask(n)) == x - x % Pow2(n)
    decreases n
  {
    hide And, Pow2, LowMask;
    Pow2Mono(n, m);
    if n == 0 {
      NoLowMask();
      AndLowMask(x, m);
      DivModUnique(x, Pow2(m), 0, x);
    } else {
      HighMaskHalf(n, m);
      AndHighMask(x / 2, n - 1, m - 1);
      AndTwice(x, LowMask(m - 1) - LowMask(n - 1));
      CutTwice(x, Pow2(n - 1));
    }
  }

  lemma NoLowMask()
    ensures LowMask(0) == 0 && Pow2(0) == 1
  {
  }
}

/** Little-endian sequences of w-bit digits and the numbers they denote. */
module Digits {
  import opened Numbers

  ghost predicate AreDigits(w: nat, s: seq<nat>)
  {
    forall i :: 0 <= i < |s| ==> s[i] < Pow2(w)
  }

  function Value(w: nat, s: seq<nat>): nat
  {
    if |s| == 0 then 0 else
    MulNonNeg(Pow2(w), Value(w, s[1..]));
    s[0] + Pow2(w) * Value(w, s[1..])
  }

  /** 2^(w*n) is 2^w times 2^(w*(n-1)). */
  lemma WeightStep(w: nat, n: nat)
    requires n > 0
    ensures 0 <= w * n && 0 <= w * (n - 1)
    ensures Pow2(w * n) == Pow2(w) * Pow2(w * (n - 1))
    ensures Pow2(w * n) == Pow2(w * (n - 1)) * Pow2(w)
  {
    MulNonNeg(w, n);
    MulNonNeg(w, n - 1);
    Distribute(n, 1, w);
    Assoc(w, n, 1);
    Assoc(w, n - 1, 1);
    Pow2Add(w, w * (n - 1));
    Assoc(Pow2(w), Pow2(w * (n - 1)), 1);
  }

  lemma {:induction false} ValueBound(w: nat, s: seq<nat>)
    requires AreDigits(w, s)
    ensures 0 <= w * |s|
    ensures Value(w, s) < Pow2(w * |s|)
  {
    if |s| != 0 {
      ValueBound(w, s[1..]);
      WeightStep(w, |s|);
      DigitBound(Value(w, s[1..]), s[0], Pow2(w), Pow2(w * (|s| - 1)));
      Assoc(Pow2(w), Value(w, s[1..]), 1);
    }
  }

  lemma {:induction false} ValueSplit(w: nat, s: seq<nat>, i: nat)
    requires i <= |s|
    ensures 0 <= w * i && 0 <= Pow2(w * i) * Value(w, s[i..])
    ensures Value(w, s) == Value(w, s[..i]) + Pow2(w * i) * Value(w, s[i..])
  {
    if i == 0 {
      assert s[0..] == s;
    } else {
      ValueSplit(w, s[1..], i - 1);
      assert s[1..][i - 1..] == s[i..];
      assert s[..i][1..] == s[1..][..i - 1];
      WeightStep(w, i);
      var lo, hi, p := Value(w, s[1..][..i - 1]), Value(w, s[i..]), Pow2(w * (i - 1));
      Distribute(lo, p * hi, Pow2(w));
      Assoc(Pow2(w), p, hi);
      MulNonNeg(Pow2(w * i), hi);
    }
  }

  lemma ValueOne(w: nat, d: nat)
    ensures Value(w, [d]) == d
  {
    assert [d][1..] == [];
    assert Value(w, []) == 0;
    assert Pow2(w) * 0 == 0;
  }

  lemma ValueAppend(w: nat, s: seq<nat>, d: nat)
    ensures 0 <= w * |s| && 0 <= Pow2(w * |s|) * d
    ensures Value(w, s + [d]) == Value(w, s) + Pow2(w * |s|) * d
  {
    var t := s + [d];
    ValueSplit(w, t, |s|);
    assert t[..|s|] == s && t[|s|..] == [d];
    ValueOne(w, d);
  }

  /** Digit i is read back by a shift and a mask. */
  lemma ValueDigit(w: nat, s: seq<nat>, i: nat)
    requires AreDigits(w, s) && i < |s|
    ensures 0 <= w * i
    ensures Value(w, s) / Pow2(w * i) == Value(w, s[i..])
    ensures (Value(w, s) / Pow2(w * i)) % Pow2(w) == s[i]
    ensures Value(w, s) % Pow2(w * i) == Value(w, s[..i])
  {
    ValueSplit(w, s, i);
    ValueBound(w, s[..i]);
    Assoc(Pow2(w * i), Value(w, s[i..]), 1);
    DivModUnique(Value(w, s), Pow2(w * i), Value(w, s[i..]), Value(w, s[..i]));
    var t := s[i..];
    assert t[0] == s[i];
    Assoc(Pow2(w), Value(w, t[1..]), 1);
    DivModUnique(Value(w, t), Pow2(w), Value(w, t[1..]), s[i]);
  }

  lemma ValueUpdate(w: nat, s: seq<nat>, i: nat, v: nat)
    requires i < |s|
    ensures 0 <= w * i
    ensures Value(w, s[i := v]) + Pow2(w * i) * s[i] == Value(w, s) + Pow2(w * i) * v
  {
    var t := s[i := v];
    ValueSplit(w, s, i);
    ValueSplit(w, t, i);
    assert t[..i] == s[..i];
    var a, b := s[i..], t[i..];
    assert a[1..] == b[1..] && a[0] == s[i] && b[0] == v;
    var p, h := Pow2(w * i), Pow2(w) * Value(w, a[1..]);
    Distribute(v, h, p);
    Distribute(s[i], h, p);
  }

  /** Below a number smaller than 2^(w*i + sh), digit i is smaller than 2^sh. */
  lemma DigitBelow(w: nat, s: seq<nat>, i: nat, sh: nat)
    requires AreDigits(w, s) && i < |s| && sh <= w
    requires 0 <= w * i && Value(w, s) < Pow2(w * i + sh)
    ensures s[i] < Pow2(sh)
  {
    hide Pow2;
    Pow2Add(sh, w * i);
    ValueDigit(w, s, i);
    QuotientBelow(Value(w, s), Pow2(w * i), Pow2(sh));
    Pow2Mono(sh, w);
    var q := Value(w, s) / Pow2(w * i);
    DivModUnique(q, Pow2(w), 0, q);
  }

  /** Digit i of a number. */
  lemma {:induction false} ToDigitsAt(w: nat, v: nat, n: nat, i: nat)
    requires i < n
    ensures 0 <= w * i
    ensures ToDigits(w, v, n)[i] == (v / Pow2(w * i)) % Pow2(w)
    decreases n
  {
    MulNonNeg(w, i);
    if i > 0 {
      DivNonNeg(v, Pow2(w));
      ToDigitsAt(w, v / Pow2(w), n - 1, i - 1);
      assert ToDigits(w, v, n)[i] == ToDigits(w, v / Pow2(w), n - 1)[i - 1];
      WeightStep(w, i);
      DivDiv(v, Pow2(w), Pow2(w * (i - 1)));
    } else {
      assert v / 1 == v;
    }
  }

  /** Two digit strings of one length denote the same number only if they are equal. */
  lemma ValueInjective(w: nat, s: seq<nat>, t: seq<nat>)
    requires AreDigits(w, s) && AreDigits(w, t) && |s| == |t|
    requires Value(w, s) == Value(w, t)
    ensures s == t
  {
    forall i | 0 <= i < |s| ensures s[i] == t[i] {
      ValueDigit(w, s, i);
      ValueDigit(w, t, i);
    }
  }

  lemma {:induction false} ValueZero(w: nat, s: seq<nat>)
    ensures Value(w, s) == 0 <==> forall i :: 0 <= i < |s| ==> s[i] == 0
  {
    if |s| != 0 {
      ValueZero(w, s[1..]);
      assert forall i :: 1 <= i < |s| ==> s[i] == s[1..][i - 1];
      MulNonNeg(Pow2(w), Value(w, s[1..]));
    }
  }

  /** The n low digits of v. */
  function ToDigits(w: nat, v: nat, n: nat): (s: seq<nat>)
    ensures |s| == n
    decreases n
  {
    if n == 0 then [] else
    var b := Pow2(w);
    DivNonNeg(v, b);
    DivModOf(v, b);
    [v % b] + ToDigits(w, v / b, n - 1)
  }

  lemma {:induction false} ToDigitsValue(w: nat, v: nat, n: nat)
    ensures 0 <= w * n
    ensures AreDigits(w, ToDigits(w, v, n))
    ensures Value(w, ToDigits(w, v, n)) == v % Pow2(w * n)
    decreases n
  {
    if n == 0 {
    } else {
      var b := Pow2(w);
      WeightStep(w, n);
      var m := Pow2(w * (n - 1));
      DivDiv(v, b, m);
      ToDigitsValue(w, v / b, n - 1);
      var s := ToDigits(w, v, n);
      assert s[0] == v % b && s[1..] == ToDigits(w, v / b, n - 1);
      DivModOf(v % (m * b), b);
      DivModOf(v, b);
      Assoc(b, (v / b) % m, 1);
    }
  }
}
