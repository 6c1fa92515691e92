/**
 * Turning an alignment into word spans (`_convert_to_word_spans`): every
 * match or substitution gives a span for its reference word; an insertion
 * (an unmatched recognised word) is matched again, exactly, against the
 * closest earlier reference word within a window of ayahs behind the last
 * forward match; deletions give nothing.
 */
module WordSpans {
  import opened Common
  import opened Models
  import opened Alignment

  /** The reference positions a step's operation reads are inside the word lists. */
  predicate StepIndexed(s: Step, recognizedCount: nat, referenceCount: nat)
  {
    (s.op in {MATCH, SUBST} ==> 1 <= s.i <= recognizedCount && 1 <= s.j <= referenceCount)
    && (s.op == INS ==> 1 <= s.i <= recognizedCount)
  }

  predicate WellIndexed(alignment: seq<Step>, recognizedCount: nat, referenceCount: nat)
  {
    forall k :: 0 <= k < |alignment| ==> StepIndexed(alignment[k], recognizedCount, referenceCount)
  }

  /** Every step of an edit path reads only words that exist. */
  lemma PathIsWellIndexed(a: seq<string>, b: seq<string>, steps: seq<Step>)
    requires IsPath(a, b, steps, |a|, |b|)
    ensures WellIndexed(steps, |a|, |b|)
  {
    PathInside(a, b, steps, |a|, |b|);
  }

  /** All reference positions from `k` up to `last` lie in ayahs numbered at least `limit`. */
  predicate InWindow(reference: seq<ReferenceWord>, k: int, last: int, limit: int)
    requires last < |reference|
  {
    forall q :: 0 <= k <= q <= last ==> reference[q].ayahNumber >= limit
  }

  /**
   * The look-back search: the closest position at or before `last` whose word
   * is `word`, walking backwards and giving up at the first word of an ayah
   * numbered below `limit`; -1 when there is none.
   */
  function Rematch(reference: seq<ReferenceWord>, last: int, word: string, limit: int): (r: int)
    requires -1 <= last < |reference|
    ensures -1 <= r <= last
    ensures r >= 0 ==> InWindow(reference, r, last, limit) && reference[r].word == word
                       && forall q :: r < q <= last ==> reference[q].word != word
    ensures r == -1 ==> forall k :: 0 <= k <= last && InWindow(reference, k, last, limit) ==> reference[k].word != word
    decreases last + 1
  {
    if last < 0 then -1
    else if reference[last].ayahNumber < limit then -1
    else if reference[last].word == word then last
    else Rematch(reference, last - 1, word, limit)
  }

  /** The span a match (code 3) or substitution (code 4) gives. */
  function MatchSpan(s: Step, recognized: seq<RecognizedWord>, reference: seq<ReferenceWord>): (r: SegmentedWordSpan)
    requires s.op in {MATCH, SUBST} && StepIndexed(s, |recognized|, |reference|)
    ensures r.referenceIndexStart == s.j - 1 && r.referenceIndexEnd == s.j
    ensures r.referenceWordsSegment == reference[s.j - 1].word && r.inputWordsSegment == recognized[s.i - 1].word
    ensures r.start == recognized[s.i - 1].startTime && r.end == recognized[s.i - 1].endTime
    ensures r.flags == (if s.op == MATCH then 7 else 11)
    ensures r.flagsInfo == FlagsInfo(true, true, s.op == MATCH, s.op != MATCH, false)
    ensures r.flagsInfo == DerivedFlagsInfo(r.flags)
  {
    MatchFlags();
    var isExact := s.op == MATCH;
    var flags := BitOr(BitOr(MATCHED_INPUT, MATCHED_REFERENCE), if isExact then EXACT else INEXACT);
    var rec := recognized[s.i - 1];
    NewSpan(s.j - 1, s.j, reference[s.j - 1].word, rec.word, rec.startTime, rec.endTime,
            flags, Some(FlagsInfo(true, true, isExact, !isExact, false)))
  }

  /** The span a successful look-back gives: an exact match marked as rematched. */
  function RematchSpan(k: nat, rec: RecognizedWord, reference: seq<ReferenceWord>): (r: SegmentedWordSpan)
    requires k < |reference|
    ensures r.referenceIndexStart == k && r.referenceIndexEnd == k + 1
    ensures r.referenceWordsSegment == reference[k].word && r.inputWordsSegment == rec.word
    ensures r.start == rec.startTime && r.end == rec.endTime
    ensures r.flags == 7 && r.flagsInfo == FlagsInfo(true, true, true, false, true)
  {
    MatchFlags();
    NewSpan(k, k + 1, reference[k].word, rec.word, rec.startTime, rec.endTime,
            BitOr(BitOr(MATCHED_INPUT, MATCHED_REFERENCE), EXACT), Some(FlagsInfo(true, true, true, false, true)))
  }

  /** The loop state of `_convert_to_word_spans`: the spans so far and `last_match_ref_idx`. */
  datatype SpanState = SpanState(spans: seq<SegmentedWordSpan>, lastMatch: int)

  predicate LastMatchOk(st: SpanState, referenceCount: nat)
  {
    st.lastMatch == -1 || 0 <= st.lastMatch < referenceCount
  }

  /** One iteration of the loop. */
  function Next(st: SpanState, s: Step, recognized: seq<RecognizedWord>, reference: seq<ReferenceWord>,
                previousAyahsToMatch: int): (r: SpanState)
    requires LastMatchOk(st, |reference|) && StepIndexed(s, |recognized|, |reference|)
    ensures LastMatchOk(r, |reference|)
  {
    if s.op in {MATCH, SUBST} then
      SpanState(st.spans + [MatchSpan(s, recognized, reference)], s.j - 1)
    else if s.op == INS then
      if st.lastMatch == -1 then st
      else
        var rec := recognized[s.i - 1];
        var ayahLimit := reference[st.lastMatch].ayahNumber - previousAyahsToMatch;
        var k := Rematch(reference, st.lastMatch, rec.word, ayahLimit);
        if k != -1 then SpanState(st.spans + [RematchSpan(k, rec, reference)], st.lastMatch) else st
    else st
  }

  /** The loop run over the whole alignment, from the left. */
  function Run(alignment: seq<Step>, recognized: seq<RecognizedWord>, reference: seq<ReferenceWord>,
               previousAyahsToMatch: int): (r: SpanState)
    requires WellIndexed(alignment, |recognized|, |reference|)
    ensures LastMatchOk(r, |reference|)
    decreases |alignment|
  {
    if alignment == [] then SpanState([], -1)
    else
      var init := alignment[..|alignment| - 1];
      assert WellIndexed(init, |recognized|, |reference|) by {
        forall k | 0 <= k < |init| ensures StepIndexed(init[k], |recognized|, |reference|) {
          assert init[k] == alignment[k];
        }
      }
      Next(Run(init, recognized, reference, previousAyahsToMatch), alignment[|alignment| - 1],
           recognized, reference, previousAyahsToMatch)
  }

  function WordSpansOf(alignment: seq<Step>, recognized: seq<RecognizedWord>, reference: seq<ReferenceWord>,
                       previousAyahsToMatch: int): seq<SegmentedWordSpan>
    requires WellIndexed(alignment, |recognized|, |reference|)
  {
    Run(alignment, recognized, reference, previousAyahsToMatch).spans
  }

  /** The backwards search loop of `_convert_to_word_spans`. */
  method FindRematch(reference: seq<ReferenceWord>, lastMatch: nat, word: string, ayahLimit: int)
    returns (bestRematch: int)
    requires lastMatch < |reference|
    ensures bestRematch == Rematch(reference, lastMatch, word, ayahLimit)
  {
    bestRematch := -1;
    var k := lastMatch;
    while k >= 0
      invariant -1 <= k <= lastMatch
      invariant Rematch(reference, lastMatch, word, ayahLimit) == Rematch(reference, k, word, ayahLimit)
      decreases k + 1
    {
      if reference[k].ayahNumber < ayahLimit {
        break;
      }
      if reference[k].word == word {
        bestRematch := k;
        return;
      }
      k := k - 1;
    }
  }

  /** One more step of the alignment is one more iteration of the loop. */
  lemma RunSnoc(alignment: seq<Step>, n: nat, recognized: seq<RecognizedWord>, reference: seq<ReferenceWord>,
                previousAyahsToMatch: int)
    requires n < |alignment| && WellIndexed(alignment, |recognized|, |reference|)
    ensures WellIndexed(alignment[..n], |recognized|, |reference|)
    ensures WellIndexed(alignment[..n + 1], |recognized|, |reference|)
    ensures StepIndexed(alignment[n], |recognized|, |reference|)
    ensures Run(alignment[..n + 1], recognized, reference, previousAyahsToMatch)
         == Next(Run(alignment[..n], recognized, reference, previousAyahsToMatch), alignment[n],
                 recognized, reference, previousAyahsToMatch)
  {
    assert alignment[..n + 1][..n] == alignment[..n];
    assert forall k :: 0 <= k <= n ==> alignment[..n + 1][k] == alignment[k];
  }

  /** `_convert_to_word_spans`. */
  method ConvertToWordSpans(alignment: seq<Step>, recognized: seq<RecognizedWord>, reference: seq<ReferenceWord>,
                            previousAyahsToMatch: int)
    returns (wordSpans: seq<SegmentedWordSpan>)
    requires WellIndexed(alignment, |recognized|, |reference|)
    ensures wordSpans == WordSpansOf(alignment, recognized, reference, previousAyahsToMatch)
  {
    wordSpans := [];
    var lastMatchRefIdx := -1;
    for n := 0 to |alignment|
      invariant WellIndexed(alignment[..n], |recognized|, |reference|)
      invariant SpanState(wordSpans, lastMatchRefIdx) == Run(alignment[..n], recognized, reference, previousAyahsToMatch)
    {
      var s := alignment[n];
      RunSnoc(alignment, n, recognized, reference, previousAyahsToMatch);
      if s.op == MATCH || s.op == SUBST {
        lastMatchRefIdx := s.j - 1;
        wordSpans := wordSpans + [MatchSpan(s, recognized, reference)];
      } else if s.op == INS {
        if lastMatchRefIdx != -1 {
          var rec := recognized[s.i - 1];
          var contextAyah := reference[lastMatchRefIdx].ayahNumber;
          var ayahLimit := contextAyah - previousAyahsToMatch;
          var bestRematch := FindRematch(reference, lastMatchRefIdx, rec.word, ayahLimit);
          if bestRematch != -1 {
            wordSpans := wordSpans + [RematchSpan(bestRematch, rec, reference)];
          }
        }
      }
    }
    assert alignment[..|alignment|] == alignment;
  }

  /** The spans of forward matches (those not marked as rematched), in order. */
  function Forward(spans: seq<SegmentedWordSpan>): (r: seq<SegmentedWordSpan>)
    ensures |r| <= |spans|
    decreases |spans|
  {
    if spans == [] then []
    else Forward(spans[..|spans| - 1]) + (if spans[|spans| - 1].flagsInfo.rematched then [] else [spans[|spans| - 1]])
  }

  /** The span of every match or substitution of the alignment, in order. */
  function DiagonalSpans(alignment: seq<Step>, recognized: seq<RecognizedWord>, reference: seq<ReferenceWord>)
    : (r: seq<SegmentedWordSpan>)
    requires WellIndexed(alignment, |recognized|, |reference|)
    ensures |r| == Count(alignment, {MATCH, SUBST})
    decreases |alignment|
  {
    if alignment == [] then []
    else
      var init := alignment[..|alignment| - 1];
      var s := alignment[|alignment| - 1];
      assert forall k :: 0 <= k < |init| ==> init[k] == alignment[k];
      DiagonalSpans(init, recognized, reference) + (if s.op in {MATCH, SUBST} then [MatchSpan(s, recognized, reference)] else [])
  }

  /** Position of the last forward span, or -1. */
  function LastForward(spans: seq<SegmentedWordSpan>): (r: int)
    ensures -1 <= r < |spans|
    ensures r >= 0 ==> !spans[r].flagsInfo.rematched
    ensures forall k :: r < k < |spans| ==> spans[k].flagsInfo.rematched
    decreases |spans|
  {
    if spans == [] then -1
    else if !spans[|spans| - 1].flagsInfo.rematched then |spans| - 1
    else
      var r := LastForward(spans[..|spans| - 1]);
      assert forall k :: 0 <= k < |spans| - 1 ==> spans[..|spans| - 1][k] == spans[k];
      r
  }

  /** Every consecutive unfolding of `Run` takes one more step. */
  lemma RunUnfold(alignment: seq<Step>, recognized: seq<RecognizedWord>, reference: seq<ReferenceWord>, prev: int)
    requires WellIndexed(alignment, |recognized|, |reference|) && alignment != []
    ensures WellIndexed(alignment[..|alignment| - 1], |recognized|, |reference|)
    ensures Run(alignment, recognized, reference, prev)
         == Next(Run(alignment[..|alignment| - 1], recognized, reference, prev), alignment[|alignment| - 1],
                 recognized, reference, prev)
  {
    var init := alignment[..|alignment| - 1];
    assert forall k :: 0 <= k < |init| ==> init[k] == alignment[k];
  }

  /** What `Next` does to the list of spans: keep it, or add one span at the end. */
  lemma NextSpans(st: SpanState, s: Step, recognized: seq<RecognizedWord>, reference: seq<ReferenceWord>, prev: int)
    requires LastMatchOk(st, |reference|) && StepIndexed(s, |recognized|, |reference|)
    ensures
      && (s.op in {MATCH, SUBST} ==> Next(st, s, recognized, reference, prev).spans == st.spans + [MatchSpan(s, recognized, reference)] && Next(st, s, recognized, reference, prev).lastMatch == s.j - 1)
      && (s.op !in {MATCH, SUBST} ==> Next(st, s, recognized, reference, prev).lastMatch == st.lastMatch)
      && (s.op !in {MATCH, SUBST, INS} ==> Next(st, s, recognized, reference, prev).spans == st.spans)
      && (s.op == INS && st.lastMatch == -1 ==> Next(st, s, recognized, reference, prev).spans == st.spans)
      && (s.op == INS && st.lastMatch != -1 ==>
            var rec := recognized[s.i - 1];
            var k := Rematch(reference, st.lastMatch, rec.word, reference[st.lastMatch].ayahNumber - prev);
            (k == -1 ==> Next(st, s, recognized, reference, prev).spans == st.spans) && (k != -1 ==> Next(st, s, recognized, reference, prev).spans == st.spans + [RematchSpan(k, rec, reference)]))
  {
  }

  /** A span built from one reference word and one recognised word, flagged consistently. */
  predicate SpanFromWords(sp: SegmentedWordSpan, recognized: seq<RecognizedWord>, reference: seq<ReferenceWord>)
  {
    && 0 <= sp.referenceIndexStart < |reference| && sp.referenceIndexEnd == sp.referenceIndexStart + 1
    && sp.referenceWordsSegment == reference[sp.referenceIndexStart].word
    && (exists r :: 0 <= r < |recognized| && sp.inputWordsSegment == recognized[r].word
                    && sp.start == recognized[r].startTime && sp.end == recognized[r].endTime)
    && sp.flags in {7, 11} && sp.flagsInfo.matchedInput && sp.flagsInfo.matchedReference
    && (sp.flagsInfo.exact <==> sp.flags == 7) && (sp.flagsInfo.inexact <==> sp.flags == 11)
    && (sp.flagsInfo.rematched ==> sp.flags == 7 && sp.inputWordsSegment == sp.referenceWordsSegment)
  }

  lemma MatchSpanFromWords(s: Step, recognized: seq<RecognizedWord>, reference: seq<ReferenceWord>)
    requires s.op in {MATCH, SUBST} && StepIndexed(s, |recognized|, |reference|)
    ensures SpanFromWords(MatchSpan(s, recognized, reference), recognized, reference)
  {
    var r := s.i - 1;
    assert MatchSpan(s, recognized, reference).inputWordsSegment == recognized[r].word;
  }

  lemma RematchSpanFromWords(k: nat, r: nat, recognized: seq<RecognizedWord>, reference: seq<ReferenceWord>)
    requires k < |reference| && r < |recognized| && reference[k].word == recognized[r].word
    ensures SpanFromWords(RematchSpan(k, recognized[r], reference), recognized, reference)
  {
  }

  /**
   * Every span covers one existing reference word and carries that word, the
   * text and timing of one recognised word, and flags 7 (exact) or 11
   * (inexact) that agree with its `flags_info`; a rematched span is exact and
   * its two words are equal.
   */
  lemma {:induction false} SpansFromWords(alignment: seq<Step>, recognized: seq<RecognizedWord>,
                                          reference: seq<ReferenceWord>, prev: int)
    requires WellIndexed(alignment, |recognized|, |reference|)
    ensures
      forall p :: 0 <= p < |WordSpansOf(alignment, recognized, reference, prev)| ==> SpanFromWords(WordSpansOf(alignment, recognized, reference, prev)[p], recognized, reference)
    decreases |alignment|
  {
    if alignment != [] {
      var init := alignment[..|alignment| - 1];
      var s := alignment[|alignment| - 1];
      RunUnfold(alignment, recognized, reference, prev);
      SpansFromWords(init, recognized, reference, prev);
      var st := Run(init, recognized, reference, prev);
      assert WordSpansOf(init, recognized, reference, prev) == st.spans;
      NextSpans(st, s, recognized, reference, prev);
      var spans := Run(alignment, recognized, reference, prev).spans;
      assert WordSpansOf(alignment, recognized, reference, prev) == spans;
      if spans != st.spans {
        var x := spans[|spans| - 1];
        assert spans == st.spans + [x];
        if s.op in {MATCH, SUBST} {
          MatchSpanFromWords(s, recognized, reference);
        } else {
          var k := Rematch(reference, st.lastMatch, recognized[s.i - 1].word, reference[st.lastMatch].ayahNumber - prev);
          RematchSpanFromWords(k, s.i - 1, recognized, reference);
        }
        assert SpanFromWords(x, recognized, reference);
        forall p | 0 <= p < |spans| ensures SpanFromWords(spans[p], recognized, reference) {
          if p < |st.spans| { assert spans[p] == st.spans[p]; }
        }
      }
    }
  }

  /** The forward spans are exactly the spans of the alignment's matches and substitutions, in order. */
  lemma {:induction false} ForwardSpansAreDiagonal(alignment: seq<Step>, recognized: seq<RecognizedWord>,
                                                   reference: seq<ReferenceWord>, prev: int)
    requires WellIndexed(alignment, |recognized|, |reference|)
    ensures Forward(WordSpansOf(alignment, recognized, reference, prev)) == DiagonalSpans(alignment, recognized, reference)
    decreases |alignment|
  {
    if alignment != [] {
      var init := alignment[..|alignment| - 1];
      var s := alignment[|alignment| - 1];
      RunUnfold(alignment, recognized, reference, prev);
      ForwardSpansAreDiagonal(init, recognized, reference, prev);
      var st := Run(init, recognized, reference, prev);
      assert WordSpansOf(init, recognized, reference, prev) == st.spans;
      NextSpans(st, s, recognized, reference, prev);
      var spans := Run(alignment, recognized, reference, prev).spans;
      assert WordSpansOf(alignment, recognized, reference, prev) == spans;
      if spans != st.spans {
        assert spans[..|spans| - 1] == st.spans;
      }
    }
  }

  /** One span per match or substitution, and at most one more per insertion. */
  lemma {:induction false} SpanCount(alignment: seq<Step>, recognized: seq<RecognizedWord>,
                                     reference: seq<ReferenceWord>, prev: int)
    requires WellIndexed(alignment, |recognized|, |reference|)
    ensures Count(alignment, {MATCH, SUBST}) <= |WordSpansOf(alignment, recognized, reference, prev)|
    ensures |WordSpansOf(alignment, recognized, reference, prev)| <= Count(alignment, {INS, MATCH, SUBST})
    decreases |alignment|
  {
    ForwardSpansAreDiagonal(alignment, recognized, reference, prev);
    if alignment != [] {
      var init := alignment[..|alignment| - 1];
      var s := alignment[|alignment| - 1];
      RunUnfold(alignment, recognized, reference, prev);
      SpanCount(init, recognized, reference, prev);
      NextSpans(Run(init, recognized, reference, prev), s, recognized, reference, prev);
    }
  }

  /** `last_match_ref_idx` is the reference position of the latest forward span, or -1 before the first. */
  lemma {:induction false} LastMatchIsLastForward(alignment: seq<Step>, recognized: seq<RecognizedWord>,
                                                  reference: seq<ReferenceWord>, prev: int)
    requires WellIndexed(alignment, |recognized|, |reference|)
    ensures
      var q := LastForward(Run(alignment, recognized, reference, prev).spans);
      Run(alignment, recognized, reference, prev).lastMatch == if q == -1 then -1 else Run(alignment, recognized, reference, prev).spans[q].referenceIndexStart
    decreases |alignment|
  {
    if alignment != [] {
      var init := alignment[..|alignment| - 1];
      var s := alignment[|alignment| - 1];
      RunUnfold(alignment, recognized, reference, prev);
      LastMatchIsLastForward(init, recognized, reference, prev);
      var st := Run(init, recognized, reference, prev);
      assert WordSpansOf(init, recognized, reference, prev) == st.spans;
      NextSpans(st, s, recognized, reference, prev);
      var spans := Run(alignment, recognized, reference, prev).spans;
      assert WordSpansOf(alignment, recognized, reference, prev) == spans;
      if spans != st.spans {
        assert spans[..|spans| - 1] == st.spans;
      }
    }
  }

  /**
   * A rematched span looks back from the latest forward span before it: it
   * lies at or before that span's reference position, every reference word in
   * between lies in an ayah numbered at least the forward span's ayah minus
   * `previous_ayahs_to_match`, and none of the words after it up to that
   * position equals the recognised word.
   */
  predicate RematchOk(before: seq<SegmentedWordSpan>, sp: SegmentedWordSpan, reference: seq<ReferenceWord>, prev: int)
  {
    var q := LastForward(before);
    && q != -1
    && 0 <= sp.referenceIndexStart <= before[q].referenceIndexStart < |reference|
    && InWindow(reference, sp.referenceIndexStart, before[q].referenceIndexStart,
                reference[before[q].referenceIndexStart].ayahNumber - prev)
    && forall x :: sp.referenceIndexStart < x <= before[q].referenceIndexStart ==>
         reference[x].word != sp.inputWordsSegment
  }

  predicate RematchesInWindow(spans: seq<SegmentedWordSpan>, reference: seq<ReferenceWord>, prev: int)
  {
    forall p :: 0 <= p < |spans| && spans[p].flagsInfo.rematched ==> RematchOk(spans[..p], spans[p], reference, prev)
  }

  lemma RematchesInWindowSnoc(spans: seq<SegmentedWordSpan>, sp: SegmentedWordSpan, reference: seq<ReferenceWord>, prev: int)
    requires RematchesInWindow(spans, reference, prev)
    requires sp.flagsInfo.rematched ==> RematchOk(spans, sp, reference, prev)
    ensures RematchesInWindow(spans + [sp], reference, prev)
  {
    var t := spans + [sp];
    forall p | 0 <= p < |t| && t[p].flagsInfo.rematched ensures RematchOk(t[..p], t[p], reference, prev) {
      if p < |spans| {
        assert t[..p] == spans[..p] && t[p] == spans[p];
      } else {
        assert t[..p] == spans;
      }
    }
  }

  lemma {:induction false} RematchWindow(alignment: seq<Step>, recognized: seq<RecognizedWord>,
                                         reference: seq<ReferenceWord>, prev: int)
    requires WellIndexed(alignment, |recognized|, |reference|)
    ensures RematchesInWindow(WordSpansOf(alignment, recognized, reference, prev), reference, prev)
    decreases |alignment|
  {
    if alignment != [] {
      var init := alignment[..|alignment| - 1];
      var s := alignment[|alignment| - 1];
      RunUnfold(alignment, recognized, reference, prev);
      RematchWindow(init, recognized, reference, prev);
      LastMatchIsLastForward(init, recognized, reference, prev);
      var st := Run(init, recognized, reference, prev);
      assert WordSpansOf(init, recognized, reference, prev) == st.spans;
      NextSpans(st, s, recognized, reference, prev);
      var spans := Run(alignment, recognized, reference, prev).spans;
      assert WordSpansOf(alignment, recognized, reference, prev) == spans;
      if spans != st.spans {
        var x := spans[|spans| - 1];
        assert spans == st.spans + [x];
        if s.op == INS {
          var rec := recognized[s.i - 1];
          var k := Rematch(reference, st.lastMatch, rec.word, reference[st.lastMatch].ayahNumber - prev);
          assert x == RematchSpan(k, rec, reference);
          assert RematchOk(st.spans, x, reference, prev);
        }
        RematchesInWindowSnoc(st.spans, x, reference, prev);
      }
    }
  }

  /** With a negative look-back (`previous_ayahs_to_match == -1`) nothing is rematched. */
  lemma {:induction false} NegativeWindowNoRematch(alignment: seq<Step>, recognized: seq<RecognizedWord>,
                                                   reference: seq<ReferenceWord>, prev: int)
    requires WellIndexed(alignment, |recognized|, |reference|) && prev < 0
    ensures
      forall p :: 0 <= p < |WordSpansOf(alignment, recognized, reference, prev)| ==> !WordSpansOf(alignment, recognized, reference, prev)[p].flagsInfo.rematched
    decreases |alignment|
  {
    if alignment != [] {
      var init := alignment[..|alignment| - 1];
      var s := alignment[|alignment| - 1];
      RunUnfold(alignment, recognized, reference, prev);
      NegativeWindowNoRematch(init, recognized, reference, prev);
      var st := Run(init, recognized, reference, prev);
      assert WordSpansOf(init, recognized, reference, prev) == st.spans;
      NextSpans(st, s, recognized, reference, prev);
      var spans := Run(alignment, recognized, reference, prev).spans;
      assert WordSpansOf(alignment, recognized, reference, prev) == spans;
      if s.op == INS && st.lastMatch != -1 {
        var k := Rematch(reference, st.lastMatch, recognized[s.i - 1].word, reference[st.lastMatch].ayahNumber - prev);
        assert k == -1;
      }
      if spans != st.spans {
        assert s.op in {MATCH, SUBST};
        forall p | 0 <= p < |spans| ensures !spans[p].flagsInfo.rematched {
          if p < |st.spans| { assert spans[p] == st.spans[p]; }
        }
      }
    }
  }

  /** Diagonal steps are labelled by word equality: code 3 exactly when the two words are equal. */
  predicate Labelled(alignment: seq<Step>, recognized: seq<RecognizedWord>, reference: seq<ReferenceWord>)
    requires WellIndexed(alignment, |recognized|, |reference|)
  {
    forall k :: 0 <= k < |alignment| && alignment[k].op in {MATCH, SUBST} ==>
      (alignment[k].op == MATCH <==> recognized[alignment[k].i - 1].word == reference[alignment[k].j - 1].word)
  }

  /** An edit path between the word texts is labelled by word equality. */
  lemma PathIsLabelled(recognized: seq<RecognizedWord>, reference: seq<ReferenceWord>, steps: seq<Step>)
    requires IsPath(RecognizedTexts(recognized), ReferenceTexts(reference), steps, |recognized|, |reference|)
    ensures WellIndexed(steps, |recognized|, |reference|)
    ensures Labelled(steps, recognized, reference)
  {
    var a, b := RecognizedTexts(recognized), ReferenceTexts(reference);
    PathInside(a, b, steps, |recognized|, |reference|);
    forall k | 0 <= k < |steps| ensures StepIndexed(steps[k], |recognized|, |reference|) {
      assert ValidStep(a, b, steps[k]);
    }
    forall k | 0 <= k < |steps| && steps[k].op in {MATCH, SUBST}
      ensures steps[k].op == MATCH <==> recognized[steps[k].i - 1].word == reference[steps[k].j - 1].word
    {
      var s := steps[k];
      assert ValidStep(a, b, s);
      assert a[s.i - 1] == recognized[s.i - 1].word && b[s.j - 1] == reference[s.j - 1].word;
    }
  }

  /** For a labelled alignment a span is exact exactly when its two words are equal. */
  lemma {:induction false} ExactIffSameWord(alignment: seq<Step>, recognized: seq<RecognizedWord>,
                                            reference: seq<ReferenceWord>, prev: int)
    requires WellIndexed(alignment, |recognized|, |reference|) && Labelled(alignment, recognized, reference)
    ensures
      forall p :: 0 <= p < |WordSpansOf(alignment, recognized, reference, prev)| ==> (WordSpansOf(alignment, recognized, reference, prev)[p].flagsInfo.exact <==> WordSpansOf(alignment, recognized, reference, prev)[p].inputWordsSegment == WordSpansOf(alignment, recognized, reference, prev)[p].referenceWordsSegment)
    decreases |alignment|
  {
    if alignment != [] {
      var init := alignment[..|alignment| - 1];
      var s := alignment[|alignment| - 1];
      RunUnfold(alignment, recognized, reference, prev);
      assert Labelled(init, recognized, reference) by {
        assert forall k :: 0 <= k < |init| ==> init[k] == alignment[k];
      }
      ExactIffSameWord(init, recognized, reference, prev);
      var st := Run(init, recognized, reference, prev);
      assert WordSpansOf(init, recognized, reference, prev) == st.spans;
      NextSpans(st, s, recognized, reference, prev);
      var spans := Run(alignment, recognized, reference, prev).spans;
      assert WordSpansOf(alignment, recognized, reference, prev) == spans;
      if spans != st.spans {
        var x := spans[|spans| - 1];
        assert spans == st.spans + [x];
        assert x.flagsInfo.exact <==> x.inputWordsSegment == x.referenceWordsSegment;
        forall p | 0 <= p < |spans|
          ensures spans[p].flagsInfo.exact <==> spans[p].inputWordsSegment == spans[p].referenceWordsSegment
        {
          if p < |st.spans| { assert spans[p] == st.spans[p]; }
        }
      }
    }
  }

  /** Later diagonal steps have strictly larger columns than every earlier step. */
  predicate ColumnsIncrease(alignment: seq<Step>)
  {
    forall k1, k2 :: 0 <= k1 < k2 < |alignment| && alignment[k2].op in {MATCH, SUBST} ==> alignment[k1].j < alignment[k2].j
  }

  lemma PathColumnsIncrease(a: seq<string>, b: seq<string>, steps: seq<Step>, i: int, j: int)
    requires IsPath(a, b, steps, i, j)
    ensures ColumnsIncrease(steps)
  {
    PathColumnsMonotone(a, b, steps, i, j);
  }

  /** A bound on the columns of the diagonal steps bounds the diagonal spans' reference positions. */
  lemma {:induction false} DiagonalSpansBelow(alignment: seq<Step>, recognized: seq<RecognizedWord>,
                                              reference: seq<ReferenceWord>, c: int)
    requires WellIndexed(alignment, |recognized|, |reference|)
    requires forall k :: 0 <= k < |alignment| ==> alignment[k].j - 1 < c
    ensures forall p :: 0 <= p < |DiagonalSpans(alignment, recognized, reference)| ==>
      DiagonalSpans(alignment, recognized, reference)[p].referenceIndexStart < c
    decreases |alignment|
  {
    if alignment != [] {
      var init := alignment[..|alignment| - 1];
      assert forall k :: 0 <= k < |init| ==> init[k] == alignment[k];
      DiagonalSpansBelow(init, recognized, reference, c);
    }
  }

  /** When diagonal columns increase, the forward spans' reference positions strictly increase. */
  lemma {:induction false} DiagonalSpansIncrease(alignment: seq<Step>, recognized: seq<RecognizedWord>, reference: seq<ReferenceWord>)
    requires WellIndexed(alignment, |recognized|, |reference|) && ColumnsIncrease(alignment)
    ensures
      forall p, q :: 0 <= p < q < |DiagonalSpans(alignment, recognized, reference)| ==> DiagonalSpans(alignment, recognized, reference)[p].referenceIndexStart < DiagonalSpans(alignment, recognized, reference)[q].referenceIndexStart
    decreases |alignment|
  {
    if alignment != [] {
      var init := alignment[..|alignment| - 1];
      var s := alignment[|alignment| - 1];
      assert forall k :: 0 <= k < |init| ==> init[k] == alignment[k];
      assert ColumnsIncrease(init);
      DiagonalSpansIncrease(init, recognized, reference);
      var d0 := DiagonalSpans(init, recognized, reference);
      var d := DiagonalSpans(alignment, recognized, reference);
      if s.op in {MATCH, SUBST} {
        assert forall k :: 0 <= k < |init| ==> init[k].j < s.j;
        DiagonalSpansBelow(init, recognized, reference, s.j - 1);
        assert d == d0 + [MatchSpan(s, recognized, reference)];
        forall p, q | 0 <= p < q < |d| ensures d[p].referenceIndexStart < d[q].referenceIndexStart {
          assert d[p] == d0[p];
          if q < |d0| {
            assert d[q] == d0[q];
          }
        }
      } else {
        assert d == d0;
      }
    }
  }
}
