/**
  Nonces (src/miner/engine.cpp, build_nonce and the lane walk).

  Eight bytes: the pool's prefix nibbles first, then the attempt counter little-endian in
  the whole bytes the prefix does not touch.
 */
module NonceLanes {
  import opened Numbers
  import opened Bits
  import opened Digits

  function HexVal(c: char): (v: nat)
    ensures v < 16
  {
    if '0' <= c <= '9' then c as nat - '0' as nat
    else if 'a' <= c <= 'f' then c as nat - 'a' as nat + 10
    else 0
  }

  /** Prefix nibbles used, and the first byte the counter may write. */
  function Nibbles(prefix: string): (n: nat) ensures n <= 16 { if |prefix| > 16 then 16 else |prefix| }

  function FirstCounterByte(prefix: string): (k: nat) ensures k <= 8 { (Nibbles(prefix) + 1) / 2 }

  function Nibble(prefix: string, i: nat): (v: nat)
    ensures v < 16
  {
    if i < Nibbles(prefix) then HexVal(prefix[i]) else 0
  }

  /** The prefix bytes: high nibble first, an odd last nibble leaves its byte's low half 0. */
  function PrefixBytes(prefix: string, n: nat): (s: seq<nat>)
    ensures |s| == n && AreDigits(8, s)
  {
    if n == 0 then []
    else
      Pow2Values();
      PrefixBytes(prefix, n - 1) + [16 * Nibble(prefix, 2 * (n - 1)) + Nibble(prefix, 2 * (n - 1) + 1)]
  }

  function NonceBytes(prefix: string, counter: nat): (s: seq<nat>)
    ensures |s| == 8
  {
    var k := FirstCounterByte(prefix);
    PrefixBytes(prefix, k) + ToDigits(8, counter, 8 - k)
  }

  /** The nonce as the solver compares it: the eight bytes read little-endian. */
  function NonceLE(prefix: string, counter: nat): nat { Value(8, NonceBytes(prefix, counter)) }

  // ---- the loops ------------------------------------------------------------------------------

  lemma {:induction false} PrefixByteAt(prefix: string, n: nat, i: nat)
    requires i < n
    ensures PrefixBytes(prefix, n)[i] == 16 * Nibble(prefix, 2 * i) + Nibble(prefix, 2 * i + 1)
  {
    if i < n - 1 {
      PrefixByteAt(prefix, n - 1, i);
    }
  }

  /** Bytes of a prefix cut after its first n nibbles. */
  function PartialByte(prefix: string, n: nat, i: nat): nat
  {
    (if 2 * i < n then 16 * Nibble(prefix, 2 * i) else 0) + (if 2 * i + 1 < n then Nibble(prefix, 2 * i + 1) else 0)
  }

  lemma OrNibble(hi: nat, lo: nat)
    requires hi < 16 && lo < 16
    ensures Or(16 * hi, lo) == 16 * hi + lo && Or(0, 16 * hi) == 16 * hi
  {
    OrDisjoint(4, lo, hi);
    OrZero(16 * hi);
  }

  method BuildNonce(prefix: string, counter: nat, out: array<nat>)
    requires out.Length == 8 && counter < Pow2(64)
    modifies out
    ensures out[..] == NonceBytes(prefix, counter)
  {
    hide Or, ToDigits, Pow2, PrefixBytes;
    for b := 0 to 8
      invariant forall j :: 0 <= j < b ==> out[j] == 0
    {
      out[b] := 0;
    }
    var nibbles := if |prefix| > 16 then 16 else |prefix|;
    WritePrefix(prefix, nibbles, out);
    var first := (nibbles + 1) / 2;
    ghost var bytes := out[..];
    WriteCounter(first, counter, out);
    forall j | 0 <= j < first ensures bytes[j] == PrefixBytes(prefix, first)[j] {
      PrefixByteAt(prefix, first, j);
    }
    assert out[..] == bytes[..first] + ToDigits(8, counter, 8 - first);
    assert bytes[..first] == PrefixBytes(prefix, first);
  }

  method WritePrefix(prefix: string, nibbles: nat, out: array<nat>)
    requires out.Length == 8 && nibbles == Nibbles(prefix)
    requires forall j :: 0 <= j < 8 ==> out[j] == 0
    modifies out
    ensures forall j :: 0 <= j < 8 ==> out[j] == PartialByte(prefix, nibbles, j)
  {
    hide Or, HexVal;
    for i := 0 to nibbles
      invariant forall j :: 0 <= j < 8 ==> out[j] == PartialByte(prefix, i, j)
    {
      var v := HexVal(prefix[i]);
      var byte := i / 2;
      OrNibble(Nibble(prefix, 2 * byte), Nibble(prefix, 2 * byte + 1));
      if i % 2 == 0 {
        out[byte] := Or(out[byte], 16 * v);
      } else {
        out[byte] := Or(out[byte], v);
      }
    }
  }

  method WriteCounter(first: nat, counter: nat, out: array<nat>)
    requires out.Length == 8 && first <= 8 && counter < Pow2(64)
    requires forall j :: first <= j < 8 ==> out[j] == 0
    modifies out
    ensures out[..] == old(out[..first]) + ToDigits(8, counter, 8 - first)
  {
    hide ToDigits, Pow2;
    var b, c := first, counter;
    ghost var digits := ToDigits(8, counter, 8 - first);
    while b < 8 && c != 0
      invariant first <= b <= 8
      invariant forall j :: 0 <= j < first ==> out[j] == old(out[j])
      invariant forall j :: first <= j < b ==> out[j] == digits[j - first]
      invariant forall j :: b <= j < 8 ==> out[j] == 0
      invariant digits[b - first..] == ToDigits(8, c, 8 - b)
      decreases 8 - b
    {
      DigitsTail(c, 8 - b);
      out[b] := c % 256;
      c := c / 256;
      assert digits[b + 1 - first..] == digits[b - first..][1..];
      b := b + 1;
    }
    ZeroDigits(8 - b);
    forall i | b - first <= i < |digits| ensures digits[i] == 0 {
      assert digits[b - first..][i - (b - first)] == digits[i];
    }
  }

  lemma DigitsTail(c: nat, n: nat)
    requires n > 0
    ensures ToDigits(8, c, n)[0] == c % 256 && ToDigits(8, c, n)[1..] == ToDigits(8, c / 256, n - 1)
  {
    Pow2Values();
  }

  lemma {:induction false} ZeroDigits(n: nat)
    ensures forall i :: 0 <= i < n ==> ToDigits(8, 0, n)[i] == 0
  {
    if n == 0 {
    } else {
      ZeroDigits(n - 1);
      DigitsTail(0, n);
      assert forall i :: 1 <= i < n ==> ToDigits(8, 0, n)[i] == ToDigits(8, 0, n)[1..][i - 1];
    }
  }

  // ---- what the bytes mean ----------------------------------------------------------------------

  /** Prefix below, counter above, cut at 64 bits. */
  lemma NonceIsSum(prefix: string, counter: nat)
    ensures var k := FirstCounterByte(prefix);
      && NonceLE(prefix, counter) == Value(8, PrefixBytes(prefix, k)) + Pow2(8 * k) * (counter % Pow2(8 * (8 - k)))
      && Value(8, PrefixBytes(prefix, k)) < Pow2(8 * k)
      && (if |prefix| >= 16 then k == 8 else |prefix| <= 2 * k <= |prefix| + 1)
  {
    hide Pow2, ToDigits, PrefixBytes;
    var k := FirstCounterByte(prefix);
    var s := NonceBytes(prefix, counter);
    ValueSplit(8, s, k);
    assert s[..k] == PrefixBytes(prefix, k) && s[k..] == ToDigits(8, counter, 8 - k);
    ToDigitsValue(8, counter, 8 - k);
    ValueBound(8, PrefixBytes(prefix, k));
  }

  /** Every nonce carries the prefix nibbles, whatever the counter. */
  lemma NonceKeepsPrefix(prefix: string, counter: nat, i: nat)
    requires i < |prefix| && i < 16
    ensures i / 2 < FirstCounterByte(prefix)
    ensures HexVal(prefix[i])
         == if i % 2 == 0 then NonceBytes(prefix, counter)[i / 2] / 16 else NonceBytes(prefix, counter)[i / 2] % 16
  {
    hide ToDigits;
    PrefixByteAt(prefix, FirstCounterByte(prefix), i / 2);
  }

  /** Two counters give one nonce exactly when they agree modulo 256^(8 - k). */
  lemma SameNonceIff(prefix: string, c: nat, c': nat)
    ensures NonceBytes(prefix, c) == NonceBytes(prefix, c')
       <==> c % Pow2(8 * (8 - FirstCounterByte(prefix))) == c' % Pow2(8 * (8 - FirstCounterByte(prefix)))
  {
    hide Pow2, ToDigits, PrefixBytes;
    var k := FirstCounterByte(prefix);
    var s, s' := NonceBytes(prefix, c), NonceBytes(prefix, c');
    ToDigitsValue(8, c, 8 - k);
    ToDigitsValue(8, c', 8 - k);
    assert s[k..] == ToDigits(8, c, 8 - k) && s'[k..] == ToDigits(8, c', 8 - k);
    if c % Pow2(8 * (8 - k)) == c' % Pow2(8 * (8 - k)) {
      ValueInjective(8, ToDigits(8, c, 8 - k), ToDigits(8, c', 8 - k));
    }
  }

  /** The counter of lane `lane`'s attempt t: lane, lane + lanes, lane + 2·lanes, ... */
  function Counter(lane: nat, lanes: nat, t: nat): nat
  {
    MulNonNeg(t, lanes);
    t * lanes + lane
  }

  /**
    No two attempts of a rig repeat work: across all engines, and across job changes under
    one prefix (the counter is never reset), different (engine, attempt) pairs try different
    nonces while their counters fit the bytes the prefix leaves free.
   */
  lemma NoTwoAttemptsRepeat(prefix: string, lanes: nat, lane: nat, t: nat, lane': nat, t': nat)
    requires lane < lanes && lane' < lanes && (lane != lane' || t != t')
    requires Counter(lane, lanes, t) < Pow2(8 * (8 - FirstCounterByte(prefix)))
    requires Counter(lane', lanes, t') < Pow2(8 * (8 - FirstCounterByte(prefix)))
    ensures NonceBytes(prefix, Counter(lane, lanes, t)) != NonceBytes(prefix, Counter(lane', lanes, t'))
  {
    hide Pow2, NonceBytes, FirstCounterByte;
    var c, c', m := Counter(lane, lanes, t), Counter(lane', lanes, t'), Pow2(8 * (8 - FirstCounterByte(prefix)));
    SameNonceIff(prefix, c, c');
    DivModUnique(c, m, 0, c);
    DivModUnique(c', m, 0, c');
    if c == c' {
      QuotientUnique(lanes, t, lane, t', lane');
    }
  }

  /** The distance between consecutive nonces of a lane: stride · 256^k mod 2^64. */
  function NonceStride(prefix: string, stride: nat): nat
  {
    MulNonNeg(stride, Pow2(8 * FirstCounterByte(prefix)));
    (stride * Pow2(8 * FirstCounterByte(prefix))) % TWO64
  }

  lemma Two64()
    ensures Pow2(64) == TWO64
  {
    Pow2Values();
    Pow2Add(32, 32);
  }

  /**
    One step of the 64-bit counter moves the nonce by the same constant every time, wrap or
    not, and for every prefix of this length.
   */
  lemma NonceSteps(prefix: string, counter: nat, stride: nat)
    ensures NonceLE(prefix, counter) < TWO64
    ensures NonceLE(prefix, (counter + stride) % TWO64) == (NonceLE(prefix, counter) + NonceStride(prefix, stride)) % TWO64
  {
    hide Pow2, NonceLE, FirstCounterByte, PrefixBytes, Value;
    var k := FirstCounterByte(prefix);
    NonceIsResidue(prefix, counter);
    NonceIsResidue(prefix, (counter + stride) % TWO64);
    StepOnResidues(Value(8, PrefixBytes(prefix, k)), Pow2(8 * k), counter, stride);
  }

  /** p + ((c + s) mod 2^64)·w == p + c·w + s·w modulo 2^64. */
  lemma StepOnResidues(p: nat, w: nat, c: nat, s: nat)
    ensures 0 <= ((c + s) % TWO64) * w && 0 <= c * w && 0 <= s * w
    ensures (p + ((c + s) % TWO64) * w) % TWO64 == ((p + c * w) % TWO64 + (s * w) % TWO64) % TWO64
  {
    MulNonNeg(c, w);
    MulNonNeg(s, w);
    Distribute(c, s, w);
    WrapIsInvisible(c + s, w);
    ResidueSum(p, ((c + s) % TWO64) * w, c * w, s * w, TWO64);
  }

  lemma ResidueSum(p: nat, n: nat, a: nat, b: nat, d: nat)
    requires d > 0 && n % d == (a + b) % d
    ensures (p + n) % d == ((p + a) % d + b % d) % d
  {
    ModSum(p, n, d);
    ModSum(p, a + b, d);
    ModSum(p + a, b, d);
    ModSum(p + a, b % d, d);
  }

  /** Dropping a multiple of 2^64 from the counter drops one from any scaled copy of it. */
  lemma WrapIsInvisible(x: nat, w: nat)
    ensures 0 <= x * w && 0 <= (x % TWO64) * w
    ensures ((x % TWO64) * w) % TWO64 == (x * w) % TWO64
  {
    DivModOf(x, TWO64);
    var q, r := x / TWO64, x % TWO64;
    MulNonNeg(q, w);
    MulNonNeg(r, w);
    MulNonNeg(x, w);
    Distribute(q * TWO64, r, w);
    Assoc(TWO64, q, w);
    Assoc(TWO64, q * w, 1);
    Assoc(q, TWO64, 1);
    ModAddMultiple(r * w, q * w, TWO64);
  }

  /** The nonce is (prefix + counter · 256^k) modulo 2^64. */
  lemma NonceIsResidue(prefix: string, counter: nat)
    ensures var k := FirstCounterByte(prefix);
      && 0 <= counter * Pow2(8 * k)
      && NonceLE(prefix, counter) == (Value(8, PrefixBytes(prefix, k)) + counter * Pow2(8 * k)) % TWO64
  {
    hide Pow2, NonceLE, FirstCounterByte, PrefixBytes;
    Two64();
    var k := FirstCounterByte(prefix);
    var p, w, m := Value(8, PrefixBytes(prefix, k)), Pow2(8 * k), Pow2(8 * (8 - k));
    NonceIsSum(prefix, counter);
    Pow2Add(8 * (8 - k), 8 * k);
    MulNonNeg(counter, w);
    ModScale(counter, w, m);
    DivModOf(counter, m);
    Assoc(w, counter % m, 1);
    DigitBound(counter % m, p, w, m);
    DivModUnique(p + (counter % m) * w, TWO64, 0, p + (counter % m) * w);
    ModSum(p, counter * w, TWO64);
  }

  /** The stride depends on the prefix only through its length. */
  lemma StrideDependsOnLength(prefix: string, prefix': string, stride: nat)
    requires |prefix| == |prefix'|
    ensures NonceStride(prefix, stride) == NonceStride(prefix', stride)
  {
  }
}
