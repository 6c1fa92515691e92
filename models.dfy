/**
 * The records shared by the aligner and the range detector, and the bit
 * encoding of a word span's match flags.
 */
module Models {
  import opened Common

  /** An occurrence of a word in the Quran, w.r.t. its surah and ayah. */
  datatype WordMatch = WordMatch(surah: int, ayah: int, positionWrtSurah: int, word: string)

  /** A word of the ground-truth text with its position information. */
  datatype ReferenceWord = ReferenceWord(word: string, ayahNumber: int, positionWrtSurah: int, positionWrtAyah: int)

  /** A recognised word with its timing (seconds) and optional confidence. */
  datatype RecognizedWord = RecognizedWord(word: string, startTime: real, endTime: real, score: Option<real>)

  /**
   * The human-readable `flags_info` dictionary. `rematched` is true exactly
   * when the dictionary carries the key "rematched" (whose value is then True).
   */
  datatype FlagsInfo = FlagsInfo(matchedInput: bool, matchedReference: bool, exact: bool, inexact: bool, rematched: bool)

  /**
   * A span of reference words, `[referenceIndexStart, referenceIndexEnd)`,
   * matched to recognised input with its timing.
   */
  datatype SegmentedWordSpan = SegmentedWordSpan(
    referenceIndexStart: int,
    referenceIndexEnd: int,
    referenceWordsSegment: string,
    inputWordsSegment: string,
    start: real,
    end: real,
    flags: nat,
    flagsInfo: FlagsInfo)

  /** The final per-ayah timing record. */
  datatype AyahTimestamp = AyahTimestamp(ayahNumber: int, startTime: real, endTime: real, text: string)

  const CLEAR: nat := 0
  const MATCHED_INPUT: nat := 1
  const MATCHED_REFERENCE: nat := 2
  const EXACT: nat := 4
  const INEXACT: nat := 8

  function Pow2(k: nat): (r: nat)
    ensures r >= 1
  {
    if k == 0 then 1 else 2 * Pow2(k - 1)
  }

  /** Bit `k` of `f` (Python `(f >> k) & 1 == 1`). */
  predicate TestBit(f: nat, k: nat)
  {
    if k == 0 then f % 2 == 1 else TestBit(f / 2, k - 1)
  }

  /** Python `a | b` on non-negative integers. */
  function BitOr(a: nat, b: nat): nat
    decreases a + b
  {
    if a == 0 && b == 0 then 0
    else 2 * BitOr(a / 2, b / 2) + (if a % 2 == 1 || b % 2 == 1 then 1 else 0)
  }

  /** Python `a & b` on non-negative integers. */
  function BitAnd(a: nat, b: nat): nat
    decreases a + b
  {
    if a == 0 || b == 0 then 0
    else 2 * BitAnd(a / 2, b / 2) + (if a % 2 == 1 && b % 2 == 1 then 1 else 0)
  }

  /** Each bit of `a | b` is set exactly when it is set in `a` or in `b`. */
  lemma {:induction false} BitOrBits(a: nat, b: nat, k: nat)
    ensures TestBit(BitOr(a, b), k) <==> TestBit(a, k) || TestBit(b, k)
    decreases k
  {
    if a == 0 && b == 0 {
      ZeroHasNoBits(k);
    } else if k > 0 {
      BitOrBits(a / 2, b / 2, k - 1);
    }
  }

  /** Each bit of `a & b` is set exactly when it is set in both. */
  lemma {:induction false} BitAndBits(a: nat, b: nat, k: nat)
    ensures TestBit(BitAnd(a, b), k) <==> TestBit(a, k) && TestBit(b, k)
    decreases k
  {
    if a == 0 {
      ZeroHasNoBits(k);
    } else if b == 0 {
      ZeroHasNoBits(k);
    } else if k > 0 {
      BitAndBits(a / 2, b / 2, k - 1);
    }
  }

  lemma {:induction false} ZeroHasNoBits(k: nat)
    ensures !TestBit(0, k)
  {
    if k > 0 {
      ZeroHasNoBits(k - 1);
    }
  }

  /** A non-zero number has a set bit. */
  lemma {:induction false} NonZeroHasBit(f: nat) returns (k: nat)
    requires f != 0
    ensures TestBit(f, k)
    decreases f
  {
    if f % 2 == 1 {
      k := 0;
    } else {
      var j := NonZeroHasBit(f / 2);
      k := j + 1;
    }
  }

  /** The only set bit of `2^j` is bit `j`. */
  lemma {:induction false} Pow2Bits(j: nat, k: nat)
    ensures TestBit(Pow2(j), k) <==> k == j
    decreases j
  {
    if j == 0 {
      if k > 0 { ZeroHasNoBits(k - 1); }
    } else if k == 0 {
    } else {
      Pow2Bits(j - 1, k - 1);
    }
  }

  /** `bool(f & 2^j)` is exactly bit `j` of `f`. */
  lemma MaskTest(f: nat, j: nat)
    ensures BitAnd(f, Pow2(j)) != 0 <==> TestBit(f, j)
  {
    if BitAnd(f, Pow2(j)) != 0 {
      var k := NonZeroHasBit(BitAnd(f, Pow2(j)));
      BitAndBits(f, Pow2(j), k);
      Pow2Bits(j, k);
    }
    if TestBit(f, j) {
      BitAndBits(f, Pow2(j), j);
      Pow2Bits(j, j);
      if BitAnd(f, Pow2(j)) == 0 { ZeroHasNoBits(j); }
    }
  }

  /** The flag constants are the distinct single bits 0..3, and CLEAR has none. */
  lemma FlagConstants()
    ensures MATCHED_INPUT == Pow2(0) && MATCHED_REFERENCE == Pow2(1)
    ensures EXACT == Pow2(2) && INEXACT == Pow2(3)
    ensures forall k: nat :: !TestBit(CLEAR, k)
  {
    forall k: nat ensures !TestBit(CLEAR, k) {
      ZeroHasNoBits(k);
    }
  }

  /** The `flags_info` that `__post_init__` derives from `flags`. */
  function DerivedFlagsInfo(flags: nat): (r: FlagsInfo)
    ensures r.matchedInput == TestBit(flags, 0) && r.matchedReference == TestBit(flags, 1)
    ensures r.exact == TestBit(flags, 2) && r.inexact == TestBit(flags, 3)
    ensures !r.rematched
  {
    MaskTest(flags, 0);
    MaskTest(flags, 1);
    MaskTest(flags, 2);
    MaskTest(flags, 3);
    FlagsInfo(
      BitAnd(flags, MATCHED_INPUT) != 0,
      BitAnd(flags, MATCHED_REFERENCE) != 0,
      BitAnd(flags, EXACT) != 0,
      BitAnd(flags, INEXACT) != 0,
      false)
  }

  /**
   * The dataclass constructor followed by `__post_init__`: a supplied
   * `flags_info` is kept, a missing one is derived from `flags`.
   */
  function NewSpan(
    referenceIndexStart: int, referenceIndexEnd: int,
    referenceWordsSegment: string, inputWordsSegment: string,
    start: real, end: real, flags: nat, flagsInfo: Option<FlagsInfo>): (r: SegmentedWordSpan)
    ensures r.referenceIndexStart == referenceIndexStart && r.referenceIndexEnd == referenceIndexEnd
    ensures r.referenceWordsSegment == referenceWordsSegment && r.inputWordsSegment == inputWordsSegment
    ensures r.start == start && r.end == end && r.flags == flags
    ensures flagsInfo.Some? ==> r.flagsInfo == flagsInfo.value
    ensures flagsInfo.None? ==>
      r.flagsInfo.matchedInput == TestBit(flags, 0) && r.flagsInfo.matchedReference == TestBit(flags, 1)
      && r.flagsInfo.exact == TestBit(flags, 2) && r.flagsInfo.inexact == TestBit(flags, 3)
      && !r.flagsInfo.rematched
  {
    var info := if flagsInfo.Some? then flagsInfo.value else DerivedFlagsInfo(flags);
    SegmentedWordSpan(referenceIndexStart, referenceIndexEnd, referenceWordsSegment, inputWordsSegment,
                      start, end, flags, info)
  }

  /** `MATCHED_INPUT | MATCHED_REFERENCE | EXACT`, the flags of an exact match or a rematch. */
  function ExactFlags(): nat
  {
    BitOr(BitOr(MATCHED_INPUT, MATCHED_REFERENCE), EXACT)
  }

  /** `MATCHED_INPUT | MATCHED_REFERENCE | INEXACT`, the flags of a substitution. */
  function InexactFlags(): nat
  {
    BitOr(BitOr(MATCHED_INPUT, MATCHED_REFERENCE), INEXACT)
  }

  /**
   * The two match flag words are 7 and 11, and the dictionaries the span
   * builder writes out by hand agree with the ones derived from them.
   */
  lemma MatchFlags()
    ensures ExactFlags() == 7 && InexactFlags() == 11
    ensures DerivedFlagsInfo(ExactFlags()) == FlagsInfo(true, true, true, false, false)
    ensures DerivedFlagsInfo(InexactFlags()) == FlagsInfo(true, true, false, true, false)
  {
    assert BitOr(0, 1) == 1;
    assert BitOr(0, 2) == 2;
    assert BitOr(1, 2) == 3;
    assert BitOr(1, 4) == 5;
    assert BitOr(3, 4) == 7;
    assert BitOr(3, 8) == 11;
  }
}
