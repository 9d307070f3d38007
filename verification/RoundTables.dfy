/**
  The pipeline's round tables (src/gpu/round_pipeline.cpp) against the verifier's own
  formulas, and why a round may store and read only its significant words.
 */
module RoundTables {
  import opened Numbers
  import opened Digits
  import opened BeamPrimitives
  import opened BeamVerify

  const LMIX := [448, 424, 400, 376, 288]
  const PADNUM := [1, 2, 4, 6, 9]
  const LOUT := [424, 400, 376, 288, 24]
  const OUTWORDS := [7, 7, 6, 5, 1]
  const INWORDS := [7, 7, 7, 6, 5]

  function LmixFor(r: nat): nat requires 1 <= r <= 5 { LMIX[r - 1] }
  function PadNumFor(r: nat): nat requires 1 <= r <= 5 { PADNUM[r - 1] }
  function LoutFor(r: nat): nat requires 1 <= r <= 5 { LOUT[r - 1] }
  function OutWordsFor(r: nat): nat requires 1 <= r <= 5 { OUTWORDS[r - 1] }
  function InWordsFor(r: nat): nat requires 1 <= r <= 5 { INWORDS[r - 1] }

  /** The literal tables are the verifier's formulas, and each round reads what the one before wrote. */
  lemma TablesAgree(r: nat)
    requires 1 <= r <= 5
    ensures LmixFor(r) == Lmix(r) && LoutFor(r) == Lout(r)
    ensures PadNumFor(r) == PadNum(Lmix(r), Pow2(r - 1))
    ensures 64 * (OutWordsFor(r) - 1) < Lout(r) <= 64 * OutWordsFor(r)
    ensures InWordsFor(r) == if r == 1 then WORK_WORDS else OutWordsFor(r - 1)
    ensures r < 5 ==> Lmix(r + 1) == Lout(r)
  {
  }

  /** No element of any tree reaches bit Lout of the round that produced it. */
  lemma BuildFits(h: Hashes, pp: seq<nat>, leaves: seq<nat>, level: nat)
    requires IsTree(leaves, level)
    ensures level > 0 ==> ElemValue(Build(h, pp, leaves, level)) < Pow2(Lout(level))
    ensures level < 5 ==> ElemValue(Build(h, pp, leaves, level)) < Pow2(Lmix(level + 1))
  {
    hide Pow2, Mixed, Combined;
    ValueBound(64, Build(h, pp, leaves, level));
    if level > 0 {
      SubtreesAreTrees(leaves, level);
      CombinedValue(Mixed(h, pp, Left(leaves), level - 1), Mixed(h, pp, Right(leaves), level - 1), Lout(level));
      TablesAgree(level);
    }
  }

  /**
    At every node of every index tree the mixing buffer is one number: the element plus its
    leaves, 25 bits each from bit Lmix up, modulo 2^512 -- with the padding count the table
    gives for that round.
   */
  lemma MixingIsAddition(h: Hashes, pp: seq<nat>, leaves: seq<nat>, level: nat)
    requires IsTree(leaves, level) && level < 5 && AreDigits(25, leaves)
    ensures PadNumFor(level + 1) <= |leaves|
    ensures Mixed(h, pp, leaves, level)
         == Build(h, pp, leaves, level)[0 := MixWord(
              MixBuffer(Build(h, pp, leaves, level), leaves, Lmix(level + 1), PadNumFor(level + 1)))]
    ensures Value(64, MixBuffer(Build(h, pp, leaves, level), leaves, Lmix(level + 1), PadNumFor(level + 1)))
         == (ElemValue(Build(h, pp, leaves, level)) + LeafSum(leaves, Lmix(level + 1), |leaves|)) % Pow2(512)
  {
    hide Pow2, MixBuffer, LeafSum, MixWord, Build;
    BuildFits(h, pp, leaves, level);
    TablesAgree(level + 1);
    MixBufferIsWholeSum(Build(h, pp, leaves, level), leaves, Lmix(level + 1));
  }

  /** The words a round stores, widened back with zeros. */
  function Restored(e: Elem, words: nat): seq<nat>
    requires words <= WORK_WORDS
  {
    e[..words] + seq(WORK_WORDS - words, _ => 0)
  }

  /** Storing outwords_for(r) words of a round's output loses nothing. */
  lemma OutWordsLoseNothing(h: Hashes, pp: seq<nat>, leaves: seq<nat>, level: nat)
    requires IsTree(leaves, level) && level > 0
    ensures Restored(Build(h, pp, leaves, level), OutWordsFor(level)) == Build(h, pp, leaves, level)
  {
    hide Pow2, Build;
    BuildFits(h, pp, leaves, level);
    TablesAgree(level);
    SignificantWords(Build(h, pp, leaves, level), Lout(level), OutWordsFor(level));
  }

  /** Neither does reading inwords_for(r) words of its mixed input: mixing rewrites word 0 only. */
  lemma InWordsLoseNothing(h: Hashes, pp: seq<nat>, leaves: seq<nat>, level: nat)
    requires IsTree(leaves, level) && level < 5
    ensures Restored(Mixed(h, pp, leaves, level), InWordsFor(level + 1)) == Mixed(h, pp, leaves, level)
  {
    hide Pow2, Build, MixWord, MixBuffer;
    TablesAgree(level + 1);
    if level > 0 {
      OutWordsLoseNothing(h, pp, leaves, level);
    }
  }
}
