/**
  Hex strings (src/miner/engine.cpp, to_hex and from_hex_strict): how block inputs arrive and
  how nonces and solutions leave.
 */
module Hex {
  import opened Numbers
  import opened Bits
  import opened NonceLanes
  import Digits
  import Engine

  const DIGITS := "0123456789abcdef"

  ghost predicate AreBytes(s: seq<nat>) { forall i :: 0 <= i < |s| ==> s[i] < 256 }

  predicate IsHexDigit(c: char) { c in DIGITS }

  function DigitOf(v: nat): char
    requires v < 16
  {
    DIGITS[v]
  }

  ghost predicate AreHexDigits(s: string) { forall i :: 0 <= i < |s| ==> IsHexDigit(s[i]) }

  /** The sixteen digits stand for 0 to 15, in that order, and nothing else is a digit. */
  lemma DigitValues(v: nat, c: char)
    ensures |DIGITS| == 16
    ensures v < 16 ==> IsHexDigit(DigitOf(v)) && HexVal(DigitOf(v)) == v
    ensures IsHexDigit(c) <==> '0' <= c <= '9' || 'a' <= c <= 'f'
    ensures IsHexDigit(c) ==> DigitOf(HexVal(c)) == c
  {
    assert DIGITS[0] == '0' && DIGITS[1] == '1' && DIGITS[2] == '2' && DIGITS[3] == '3';
    assert DIGITS[4] == '4' && DIGITS[5] == '5' && DIGITS[6] == '6' && DIGITS[7] == '7';
    assert DIGITS[8] == '8' && DIGITS[9] == '9' && DIGITS[10] == 'a' && DIGITS[11] == 'b';
    assert DIGITS[12] == 'c' && DIGITS[13] == 'd' && DIGITS[14] == 'e' && DIGITS[15] == 'f';
  }

  /** A byte's two digits, and the byte of two digits. */
  lemma ByteOfDigits(byte: nat, hi: char, lo: char)
    ensures byte < 256 ==> 16 * HexVal(DigitOf(byte / 16)) + HexVal(DigitOf(byte % 16)) == byte
    ensures IsHexDigit(hi) && IsHexDigit(lo) ==>
      var b := 16 * HexVal(hi) + HexVal(lo); b < 256 && DigitOf(b / 16) == hi && DigitOf(b % 16) == lo
  {
    hide HexVal, DigitOf, IsHexDigit;
    if byte < 256 {
      DigitValues(byte / 16, hi);
      DigitValues(byte % 16, lo);
    }
    DigitValues(0, hi);
    DigitValues(0, lo);
  }

  /** Two digits a byte, high half first. */
  function HexOf(bytes: seq<nat>): (hex: string)
    requires AreBytes(bytes)
    ensures |hex| == 2 * |bytes|
  {
    if bytes == [] then ""
    else
      var last := bytes[|bytes| - 1];
      HexOf(bytes[..|bytes| - 1]) + [DigitOf(last / 16), DigitOf(last % 16)]
  }

  lemma {:induction false} HexAt(bytes: seq<nat>, i: nat)
    requires AreBytes(bytes) && i < |bytes|
    ensures HexOf(bytes)[2 * i] == DigitOf(bytes[i] / 16)
    ensures HexOf(bytes)[2 * i + 1] == DigitOf(bytes[i] % 16)
    decreases |bytes|
  {
    if i < |bytes| - 1 {
      HexAt(bytes[..|bytes| - 1], i);
    }
  }

  lemma SamePairs(s: string, t: string)
    requires |s| == |t| && |s| % 2 == 0
    requires forall i :: 0 <= i < |s| / 2 ==> s[2 * i] == t[2 * i] && s[2 * i + 1] == t[2 * i + 1]
    ensures s == t
  {
    forall i | 0 <= i < |s| ensures s[i] == t[i] {
      var h := i / 2;
      assert s[2 * h] == t[2 * h] && s[2 * h + 1] == t[2 * h + 1];
      assert i == 2 * h || i == 2 * h + 1;
    }
  }

  function Decoded(hex: string): (bytes: seq<nat>)
    ensures |bytes| == |hex| / 2
    ensures forall i :: 0 <= i < |bytes| ==> bytes[i] == 16 * HexVal(hex[2 * i]) + HexVal(hex[2 * i + 1])
  {
    seq(|hex| / 2, i requires 0 <= i < |hex| / 2 => 16 * HexVal(hex[2 * i]) + HexVal(hex[2 * i + 1]))
  }

  method ToHex(bytes: seq<nat>) returns (hex: string)
    requires AreBytes(bytes)
    ensures hex == HexOf(bytes)
  {
    hex := "";
    for i := 0 to |bytes|
      invariant hex == HexOf(bytes[..i])
    {
      assert bytes[..i + 1][..i] == bytes[..i];
      ghost var before := hex;
      hex := hex + [DigitOf(bytes[i] / 16)];
      hex := hex + [DigitOf(bytes[i] % 16)];
      assert hex == before + [DigitOf(bytes[i] / 16), DigitOf(bytes[i] % 16)];
    }
    assert bytes[..|bytes|] == bytes;
  }

  /**
    Strict decoding: the right length and nothing but the sixteen digits. On a bad digit the
    bytes in front of its pair have already been written.
   */
  method FromHexStrict(hex: string, out: array<nat>) returns (ok: bool)
    modifies out
    ensures ok <==> |hex| == 2 * out.Length && AreHexDigits(hex)
    ensures ok ==> out[..] == Decoded(hex)
    ensures |hex| != 2 * out.Length ==> out[..] == old(out[..])
    ensures !ok && |hex| == 2 * out.Length ==>
      exists k :: 0 <= k < out.Length && AreHexDigits(hex[..2 * k]) && !AreHexDigits(hex[2 * k..2 * k + 2])
               && out[..k] == Decoded(hex)[..k] && out[k..] == old(out[k..])
  {
    hide Or, HexVal, IsHexDigit;
    if |hex| != 2 * out.Length {
      return false;
    }
    for i := 0 to out.Length
      invariant AreHexDigits(hex[..2 * i])
      invariant forall k :: 0 <= k < i ==> out[k] == Decoded(hex)[k]
      invariant out[i..] == old(out[i..])
    {
      DigitValues(0, hex[2 * i]);
      DigitValues(0, hex[2 * i + 1]);
      PairOf(hex, i);
      var hi := if InRange(hex[2 * i]) then HexVal(hex[2 * i]) else -1;
      var lo := if InRange(hex[2 * i + 1]) then HexVal(hex[2 * i + 1]) else -1;
      if hi < 0 || lo < 0 {
        assert out[..i] == Decoded(hex)[..i];
        return false;
      }
      OrNibble(hi, lo);
      out[i] := Or(16 * hi, lo);
    }
    assert hex[..2 * out.Length] == hex;
    return true;
  }

  predicate InRange(c: char) { '0' <= c <= '9' || 'a' <= c <= 'f' }

  lemma PairOf(hex: string, i: nat)
    requires 2 * i + 1 < |hex|
    ensures AreHexDigits(hex[2 * i..2 * i + 2]) <==> IsHexDigit(hex[2 * i]) && IsHexDigit(hex[2 * i + 1])
    ensures AreHexDigits(hex[..2 * (i + 1)]) <==> AreHexDigits(hex[..2 * i]) && AreHexDigits(hex[2 * i..2 * i + 2])
    ensures AreHexDigits(hex) ==> AreHexDigits(hex[2 * i..2 * i + 2])
  {
    var pair := hex[2 * i..2 * i + 2];
    assert pair[0] == hex[2 * i] && pair[1] == hex[2 * i + 1];
    assert hex[..2 * (i + 1)] == hex[..2 * i] + pair;
  }

  /** Decoding inverts encoding. */
  lemma DecodeEncode(bytes: seq<nat>)
    requires AreBytes(bytes)
    ensures AreHexDigits(HexOf(bytes)) && Decoded(HexOf(bytes)) == bytes
  {
    hide HexVal, HexOf, IsHexDigit, DigitOf;
    var hex := HexOf(bytes);
    forall i | 0 <= i < |bytes|
      ensures IsHexDigit(hex[2 * i]) && IsHexDigit(hex[2 * i + 1]) && Decoded(hex)[i] == bytes[i]
    {
      HexAt(bytes, i);
      DigitValues(bytes[i] / 16, '0');
      DigitValues(bytes[i] % 16, '0');
      ByteOfDigits(bytes[i], '0', '0');
    }
    forall i | 0 <= i < |hex| ensures IsHexDigit(hex[i]) {
      var h := i / 2;
      assert IsHexDigit(hex[2 * h]) && IsHexDigit(hex[2 * h + 1]);
      assert i == 2 * h || i == 2 * h + 1;
    }
  }

  /** Encoding inverts decoding, on everything that decodes. */
  lemma EncodeDecode(hex: string)
    requires |hex| % 2 == 0 && AreHexDigits(hex)
    ensures AreBytes(Decoded(hex)) && HexOf(Decoded(hex)) == hex
  {
    hide HexVal, HexOf, IsHexDigit, DigitOf;
    var bytes := Decoded(hex);
    forall i | 0 <= i < |bytes| ensures bytes[i] < 256 {
      ByteOfDigits(0, hex[2 * i], hex[2 * i + 1]);
    }
    forall i | 0 <= i < |bytes| ensures HexOf(bytes)[2 * i] == hex[2 * i] && HexOf(bytes)[2 * i + 1] == hex[2 * i + 1] {
      ByteOfDigits(0, hex[2 * i], hex[2 * i + 1]);
      HexAt(bytes, i);
    }
    SamePairs(HexOf(bytes), hex);
  }

  /** The worker's validity test accepts exactly the encodings of 32 bytes. */
  lemma WellFormedIffDecodes(job: Engine.Job)
    ensures Engine.WellFormed(job) <==> |job.input| == 64 && AreHexDigits(job.input)
    ensures Engine.WellFormed(job) <==> exists bytes :: AreBytes(bytes) && |bytes| == 32 && HexOf(bytes) == job.input
  {
    forall i | 0 <= i < |job.input| ensures IsHexDigit(job.input[i]) <==> InRange(job.input[i]) {
      DigitValues(0, job.input[i]);
    }
    if Engine.WellFormed(job) {
      EncodeDecode(job.input);
    }
    if bytes :| AreBytes(bytes) && |bytes| == 32 && HexOf(bytes) == job.input {
      DecodeEncode(bytes);
    }
  }

  /**
    The nonce a submission carries, in hex, begins with the pool's prefix, character for
    character; after a prefix of odd length comes a '0'.
   */
  lemma NonceHexKeepsPrefix(prefix: string, counter: nat)
    requires AreHexDigits(prefix[..Nibbles(prefix)])
    ensures AreBytes(NonceBytes(prefix, counter)) && |HexOf(NonceBytes(prefix, counter))| == 16
    ensures HexOf(NonceBytes(prefix, counter))[..Nibbles(prefix)] == prefix[..Nibbles(prefix)]
    ensures Nibbles(prefix) % 2 == 1 ==> HexOf(NonceBytes(prefix, counter))[Nibbles(prefix)] == '0'
  {
    hide NonceBytes, HexVal, HexOf;
    NonceIsBytes(prefix, counter);
    var n, hex := Nibbles(prefix), HexOf(NonceBytes(prefix, counter));
    forall i | 0 <= i < n ensures hex[i] == prefix[i] {
      NonceKeepsPrefix(prefix, counter, i);
      HexAt(NonceBytes(prefix, counter), i / 2);
      assert prefix[..n][i] == prefix[i];
      DigitValues(0, prefix[i]);
    }
    if n % 2 == 1 {
      OddNibble(prefix, counter);
      HexAt(NonceBytes(prefix, counter), n / 2);
      DigitValues(0, '0');
    }
  }

  lemma NonceIsBytes(prefix: string, counter: nat)
    ensures AreBytes(NonceBytes(prefix, counter))
  {
    hide Digits.ToDigits, PrefixBytes;
    Pow2Values();
    Digits.ToDigitsValue(8, counter, 8 - FirstCounterByte(prefix));
  }

  lemma OddNibble(prefix: string, counter: nat)
    requires Nibbles(prefix) % 2 == 1
    ensures NonceBytes(prefix, counter)[Nibbles(prefix) / 2] % 16 == 0
  {
    hide Digits.ToDigits, HexVal;
    PrefixByteAt(prefix, FirstCounterByte(prefix), Nibbles(prefix) / 2);
  }
}
