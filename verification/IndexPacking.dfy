/**
  The solution's index field (src/beamhash/bh3_primitives.h): 32 indices of 25 bits laid
  end to end fill exactly 100 bytes. Both loops move single bits; what they compute is
  one 800-bit number read in two radices.
 */
module IndexPacking {
  import opened Numbers
  import opened Bits
  import opened Digits
  import opened BeamPrimitives

  /** The low 25 bits of every index, all that is packed. */
  function Low25(idx: seq<nat>): (s: seq<nat>)
    ensures |s| == |idx|
    ensures AreDigits(25, s)
    ensures forall k :: 0 <= k < |idx| ==> s[k] == idx[k] % Pow2(25)
  {
    if idx == [] then [] else [idx[0] % Pow2(25)] + Low25(idx[1..])
  }

  function Packed(idx: seq<nat>): seq<nat>
    requires |idx| == NUM_INDICES
  {
    ToDigits(8, Value(25, Low25(idx)), PACKED_BYTES)
  }

  function Unpacked(bytes: seq<nat>): seq<nat>
    requires |bytes| == PACKED_BYTES
  {
    ToDigits(25, Value(8, bytes), NUM_INDICES)
  }

  /** Cutting one bit later adds that bit's weight. */
  lemma OneMoreBit(v: nat, pos: nat)
    ensures 0 <= v / Pow2(pos)
    ensures v % Pow2(pos + 1) == v % Pow2(pos) + ((v / Pow2(pos)) % 2) * Pow2(pos)
  {
    DivDiv(v, Pow2(pos), 2);
    DivModOf(v % (2 * Pow2(pos)), Pow2(pos));
  }

  /** Bit b of digit k is bit w*k + b of the whole number. */
  lemma BitOfDigit(w: nat, v: nat, d: nat, k: nat, b: nat)
    requires b < w && 0 <= w * k
    requires d == (v / Pow2(w * k)) % Pow2(w)
    ensures 0 <= v / Pow2(w * k + b)
    ensures Shr(d, b) % 2 == (v / Pow2(w * k + b)) % 2
    ensures d % Pow2(b) == (v / Pow2(w * k)) % Pow2(b)
  {
    hide Pow2;
    DivNonNeg(v, Pow2(w * k));
    var q := v / Pow2(w * k);
    Pow2Add(b, w * k);
    DivDiv(v, Pow2(w * k), Pow2(b));
    Pow2Add(w - b, b);
    DivDiv(q, Pow2(b), Pow2(w - b));
    Pow2Add(w - b - 1, 1);
    Pow2Values();
    DivDiv(q / Pow2(b), 2, Pow2(w - b - 1));
  }

  /** Or-ing bit `pos` into the bytes of a number below 2^pos adds 2^pos. */
  lemma SetBit(out: seq<nat>, pos: nat)
    requires |out| == PACKED_BYTES && AreDigits(8, out) && pos < 800
    requires Value(8, out) < Pow2(pos)
    ensures Or(out[pos / 8], Pow2(pos % 8)) < Pow2(8)
    ensures Value(8, out[pos / 8 := Or(out[pos / 8], Pow2(pos % 8))]) == Value(8, out) + Pow2(pos)
  {
    hide Pow2, Or;
    var i, sh := pos / 8, pos % 8;
    DigitBelow(8, out, i, sh);
    OrDisjoint(sh, out[i], 1);
    Pow2Mono(sh, 8);
    ValueUpdate(8, out, i, out[i] + Pow2(sh));
    Distribute(out[i], Pow2(sh), Pow2(8 * i));
    Pow2Add(8 * i, sh);
  }

  /** Writes the first 100 bytes of `out` and nothing else. */
  method PackIndices(idx: seq<nat>, out: array<nat>)
    requires |idx| == NUM_INDICES && out.Length >= PACKED_BYTES
    modifies out
    ensures out[..PACKED_BYTES] == Packed(idx)
    ensures out[PACKED_BYTES..] == old(out[PACKED_BYTES..])
  {
    hide Pow2, Or, Shr, ToDigits;
    for i := 0 to PACKED_BYTES
      invariant forall j :: 0 <= j < i ==> out[j] == 0
      invariant out[PACKED_BYTES..] == old(out[PACKED_BYTES..])
    {
      out[i] := 0;
    }
    ghost var v := Value(25, Low25(idx));
    ValueZero(8, out[..PACKED_BYTES]);
    Pow2Values();
    for k := 0 to NUM_INDICES
      invariant AreDigits(8, out[..PACKED_BYTES])
      invariant Value(8, out[..PACKED_BYTES]) == v % Pow2(25 * k)
      invariant out[PACKED_BYTES..] == old(out[PACKED_BYTES..])
    {
      for b := 0 to INDEX_PACK_BITS
        invariant AreDigits(8, out[..PACKED_BYTES])
        invariant Value(8, out[..PACKED_BYTES]) == v % Pow2(25 * k + b)
        invariant out[PACKED_BYTES..] == old(out[PACKED_BYTES..])
      {
        var pos := INDEX_PACK_BITS * k + b;
        ghost var was := out[..PACKED_BYTES];
        PackStep(idx, was, k, b);
        if Shr(idx[k], b) % 2 == 1 {
          out[pos / 8] := Or(out[pos / 8], Pow2(pos % 8));
          assert out[..PACKED_BYTES] == was[pos / 8 := Or(was[pos / 8], Pow2(pos % 8))];
        }
      }
    }
    PackedValue(idx, out[..PACKED_BYTES]);
  }

  lemma LowDigit(x: nat, b: nat)
    requires b < 25
    ensures 0 <= x % Pow2(25) && Shr(x % Pow2(25), b) % 2 == Shr(x, b) % 2
  {
    hide Pow2;
    DivModOf(x, Pow2(25));
    assert Pow2(25 * 0) == 1 by {
      Pow2Values();
    }
    BitOfDigit(25, x, x % Pow2(25), 0, b);
  }

  /** The bit the packing loop tests is bit 25k + b of the packed number. */
  lemma PackedBit(idx: seq<nat>, k: nat, b: nat)
    requires |idx| == NUM_INDICES && k < 32 && b < 25
    ensures 0 <= Value(25, Low25(idx)) / Pow2(25 * k + b)
    ensures Shr(idx[k], b) % 2 == (Value(25, Low25(idx)) / Pow2(25 * k + b)) % 2
  {
    hide Pow2, Value, Shr;
    var v := Value(25, Low25(idx));
    ValueDigit(25, Low25(idx), k);
    BitOfDigit(25, v, idx[k] % Pow2(25), k, b);
    LowDigit(idx[k], b);
  }

  /** One step of the packing loop keeps "the bytes are the number cut at this bit". */
  lemma PackStep(idx: seq<nat>, out: seq<nat>, k: nat, b: nat)
    requires |idx| == NUM_INDICES && |out| == PACKED_BYTES && AreDigits(8, out) && k < 32 && b < 25
    requires Value(8, out) == Value(25, Low25(idx)) % Pow2(25 * k + b)
    ensures var pos := 25 * k + b;
      var out' := if Shr(idx[k], b) % 2 == 1 then out[pos / 8 := Or(out[pos / 8], Pow2(pos % 8))] else out;
      AreDigits(8, out') && Value(8, out') == Value(25, Low25(idx)) % Pow2(pos + 1)
  {
    hide Pow2, Or, Shr;
    var v, pos := Value(25, Low25(idx)), 25 * k + b;
    PackedBit(idx, k, b);
    OneMoreBit(v, pos);
    DivModOf(v, Pow2(pos));
    if Shr(idx[k], b) % 2 == 1 {
      SetBit(out, pos);
    }
  }

  lemma PackedValue(idx: seq<nat>, out: seq<nat>)
    requires |idx| == NUM_INDICES && |out| == PACKED_BYTES && AreDigits(8, out)
    requires Value(8, out) == Value(25, Low25(idx)) % Pow2(800)
    ensures out == Packed(idx)
  {
    hide Pow2, ToDigits;
    ToDigitsValue(8, Value(25, Low25(idx)), PACKED_BYTES);
    ValueInjective(8, out, Packed(idx));
  }

  method UnpackIndices(soln: seq<nat>) returns (idx: seq<nat>)
    requires |soln| >= PACKED_BYTES && AreDigits(8, soln)
    ensures idx == Unpacked(soln[..PACKED_BYTES])
  {
    hide Pow2, Or, Shr, ToDigits;
    ghost var bytes := soln[..PACKED_BYTES];
    ghost var v := Value(8, bytes);
    idx := [];
    for k := 0 to NUM_INDICES
      invariant |idx| == k
      invariant idx == Unpacked(bytes)[..k]
    {
      var x := 0;
      Pow2Values();
      DivNonNeg(v, Pow2(25 * k));
      for b := 0 to INDEX_PACK_BITS
        invariant 0 <= v / Pow2(25 * k)
        invariant x == (v / Pow2(25 * k)) % Pow2(b)
      {
        var pos := INDEX_PACK_BITS * k + b;
        ValueDigit(8, bytes, pos / 8);
        BitOfDigit(8, v, soln[pos / 8], pos / 8, pos % 8);
        ShiftTwice(v, 25 * k, b);
        OneMoreBit(v / Pow2(25 * k), b);
        OrBitAbove(x, Shr(soln[pos / 8], pos % 8) % 2, b);
        x := Or(x, (Shr(soln[pos / 8], pos % 8) % 2) * Pow2(b));
      }
      ToDigitsAt(25, v, NUM_INDICES, k);
      idx := idx + [x];
    }
  }

  lemma ShiftTwice(v: nat, m: nat, n: nat)
    ensures 0 <= v / Pow2(m)
    ensures v / Pow2(m) / Pow2(n) == v / Pow2(m + n)
  {
    hide Pow2;
    DivDiv(v, Pow2(m), Pow2(n));
    Pow2Add(n, m);
  }

  lemma OrBitAbove(x: nat, bit: nat, b: nat)
    requires bit < 2
    ensures 0 <= bit * Pow2(b)
    ensures x < Pow2(b) ==> Or(x, bit * Pow2(b)) == x + bit * Pow2(b)
  {
    if x < Pow2(b) {
      OrDisjoint(b, x, bit);
    }
  }

  /** Bit b of index k goes to bit 25k + b of the byte string, least significant bit of each byte first. */
  lemma PackedBits(idx: seq<nat>, k: nat, b: nat)
    requires |idx| == NUM_INDICES && k < 32 && b < 25
    ensures |Packed(idx)| == PACKED_BYTES && AreDigits(8, Packed(idx))
    ensures Bit(Packed(idx)[(25 * k + b) / 8], (25 * k + b) % 8) == Bit(idx[k], b)
  {
    hide Pow2, ToDigits;
    var v, p := Value(25, Low25(idx)), 25 * k + b;
    ToDigitsValue(8, v, PACKED_BYTES);
    ToDigitsAt(8, v, PACKED_BYTES, p / 8);
    BitOfDigit(8, v, Packed(idx)[p / 8], p / 8, p % 8);
    PackedBit(idx, k, b);
  }

  /** Bit b of the k-th index read is bit 25k + b of the byte string. */
  lemma UnpackedBits(bytes: seq<nat>, k: nat, b: nat)
    requires |bytes| == PACKED_BYTES && AreDigits(8, bytes) && k < 32 && b < 25
    ensures |Unpacked(bytes)| == NUM_INDICES && Unpacked(bytes)[k] < Pow2(25)
    ensures Bit(Unpacked(bytes)[k], b) == Bit(bytes[(25 * k + b) / 8], (25 * k + b) % 8)
  {
    hide Pow2, ToDigits;
    PackUnpack(bytes);
    PackedBits(Unpacked(bytes), k, b);
  }

  /** unpack ∘ pack is the identity on 32 indices below 2^25. */
  lemma UnpackPack(idx: seq<nat>)
    requires |idx| == NUM_INDICES && AreDigits(25, idx)
    ensures Unpacked(Packed(idx)) == idx
  {
    hide Pow2, ToDigits;
    forall k | 0 <= k < |idx| ensures Low25(idx)[k] == idx[k] {
      DivModUnique(idx[k], Pow2(25), 0, idx[k]);
    }
    assert Low25(idx) == idx;
    var v := Value(25, idx);
    ValueBound(25, idx);
    ToDigitsValue(8, v, PACKED_BYTES);
    DivModUnique(v, Pow2(800), 0, v);
    ToDigitsValue(25, v, NUM_INDICES);
    ValueInjective(25, idx, Unpacked(Packed(idx)));
  }

  /** pack ∘ unpack is the identity on every 100-byte string. */
  lemma PackUnpack(bytes: seq<nat>)
    requires |bytes| == PACKED_BYTES && AreDigits(8, bytes)
    ensures AreDigits(25, Unpacked(bytes))
    ensures Packed(Unpacked(bytes)) == bytes
  {
    hide Pow2, ToDigits;
    var v := Value(8, bytes);
    ValueBound(8, bytes);
    DivModUnique(v, Pow2(800), 0, v);
    ToDigitsValue(25, v, NUM_INDICES);
    var idx := Unpacked(bytes);
    forall k | 0 <= k < |idx| ensures Low25(idx)[k] == idx[k] {
      DivModUnique(idx[k], Pow2(25), 0, idx[k]);
    }
    assert Low25(idx) == idx;
    ToDigitsValue(8, v, PACKED_BYTES);
    ValueInjective(8, bytes, Packed(idx));
  }
}
