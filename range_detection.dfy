// The range detector of the metadata service: `detect_ayah_range_from_transcription`
// (cleaning the transcription, two-round surah voting, the start-ayah
// correction) and the selection logic of `get_ayahs`, over a word index and
// a corpus map passed in.

module RangeDetection {
  import opened Common
  import opened Models
  import opened ArabicText
  import opened WordMatching
  import opened AyahRange

  /** `max_unmatched_words` and `max_allowed_gap` as the detector calls them (their defaults). */
  const MaxUnmatchedWords: int := 2
  const MaxAllowedGap: int := 2

  /** A transcription segment; `text` is None when the segment has no "text" key. */
  datatype Segment = Segment(text: Option<string>)

  /**
   * A transcription dictionary: `segments` is None when the key is missing,
   * and `otherKeys` says whether the dictionary holds any other key (which
   * decides its truthiness when "segments" is missing).
   */
  datatype Transcription = Transcription(segments: Option<seq<Segment>>, otherKeys: bool)

  /** `transcription.get("segments")` is truthy. */
  predicate HasSegments(t: Transcription)
  {
    t.segments.Some? && t.segments.value != []
  }

  /** The cleaned words of the segments that carry a text, in segment order. */
  function TranscribedWords(segments: seq<Segment>): seq<string>
    decreases |segments|
  {
    if segments == [] then []
    else
      var last := segments[|segments| - 1];
      TranscribedWords(segments[..|segments| - 1]) + (if last.text.Some? then CleanText(last.text.value) else [])
  }

  /** Every transcribed word is non-empty and made of kept letters only. */
  lemma {:induction false} TranscribedWordsClean(segments: seq<Segment>)
    ensures forall k :: 0 <= k < |TranscribedWords(segments)| ==>
      TranscribedWords(segments)[k] != [] && AllKept(TranscribedWords(segments)[k])
    decreases |segments|
  {
    if segments != [] {
      var n := |segments| - 1;
      TranscribedWordsClean(segments[..n]);
      var prefix := TranscribedWords(segments[..n]);
      var more := if segments[n].text.Some? then CleanText(segments[n].text.value) else [];
      if segments[n].text.Some? {
        CleanTextSpec(segments[n].text.value);
      }
      var all := prefix + more;
      forall k | 0 <= k < |all| ensures all[k] != [] && AllKept(all[k]) {
        if k < |prefix| {
          assert all[k] == prefix[k];
        } else {
          assert all[k] == more[k - |prefix|];
        }
      }
    }
  }

  // ---------------------------------------------------------------------
  // Round one: surah frequencies
  // ---------------------------------------------------------------------

  /** `surah_frequencies`: its keys in insertion order and its counts. */
  datatype Tally = Tally(order: seq<int>, counts: map<int, nat>)

  /** `surah_frequencies.get(surah, 0)` */
  function Count(t: Tally, surah: int): nat
  {
    if surah in t.counts then t.counts[surah] else 0
  }

  /** Counting one more match. */
  function AddMatch(t: Tally, m: WordMatch): Tally
  {
    Tally(if m.surah in t.counts then t.order else t.order + [m.surah], t.counts[m.surah := Count(t, m.surah) + 1])
  }

  /** Counting the matches of one sequence, in order. */
  function TallySequence(t: Tally, sequence: seq<WordMatch>): Tally
    decreases |sequence|
  {
    if sequence == [] then t
    else AddMatch(TallySequence(t, sequence[..|sequence| - 1]), sequence[|sequence| - 1])
  }

  /** The frequencies the first round builds from its sequences. */
  function TallyOf(matches: seq<seq<WordMatch>>): Tally
    decreases |matches|
  {
    if matches == [] then Tally([], map[])
    else TallySequence(TallyOf(matches[..|matches| - 1]), matches[|matches| - 1])
  }

  /** The number of matches of `surah` in one sequence. */
  function SurahCount(sequence: seq<WordMatch>, surah: int): nat
    decreases |sequence|
  {
    if sequence == [] then 0
    else SurahCount(sequence[..|sequence| - 1], surah) + (if sequence[|sequence| - 1].surah == surah then 1 else 0)
  }

  /** The number of matches of `surah` over all sequences. */
  function Occurrences(matches: seq<seq<WordMatch>>, surah: int): nat
    decreases |matches|
  {
    if matches == [] then 0
    else Occurrences(matches[..|matches| - 1], surah) + SurahCount(matches[|matches| - 1], surah)
  }

  /** The keys are listed once each, and a surah is a key exactly when it has been counted. */
  ghost predicate TallyOk(t: Tally)
  {
    && (forall i, j :: 0 <= i < j < |t.order| ==> t.order[i] != t.order[j])
    && (forall s :: s in t.counts <==> s in t.order)
    && (forall s :: s in t.counts ==> t.counts[s] > 0)
  }

  lemma {:induction false} TallySequenceSpec(t: Tally, sequence: seq<WordMatch>, surah: int)
    requires TallyOk(t)
    ensures TallyOk(TallySequence(t, sequence))
    ensures Count(TallySequence(t, sequence), surah) == Count(t, surah) + SurahCount(sequence, surah)
    decreases |sequence|
  {
    if sequence != [] {
      var n := |sequence| - 1;
      TallySequenceSpec(t, sequence[..n], surah);
      var u := TallySequence(t, sequence[..n]);
      var m := sequence[n];
      var v := AddMatch(u, m);
      forall i, j | 0 <= i < j < |v.order| ensures v.order[i] != v.order[j] {
        if m.surah !in u.counts && j == |u.order| {
          assert v.order[j] == m.surah && v.order[i] == u.order[i];
          assert u.order[i] in u.order;
        }
      }
    }
  }

  /**
   * Each surah's frequency is its number of matches over all sequences, the
   * keys are distinct, and a surah is a key exactly when it has a match.
   */
  lemma {:induction false} TallyOfSpec(matches: seq<seq<WordMatch>>, surah: int)
    ensures TallyOk(TallyOf(matches))
    ensures Count(TallyOf(matches), surah) == Occurrences(matches, surah)
    ensures surah in TallyOf(matches).order <==> Occurrences(matches, surah) > 0
    decreases |matches|
  {
    if matches != [] {
      var n := |matches| - 1;
      TallyOfSpec(matches[..n], surah);
      TallySequenceSpec(TallyOf(matches[..n]), matches[n], surah);
    }
  }

  /** A non-empty sequence counts its first match's surah. */
  lemma {:induction false} SurahCountFirst(sequence: seq<WordMatch>)
    requires sequence != []
    ensures SurahCount(sequence, sequence[0].surah) > 0
    decreases |sequence|
  {
    if |sequence| > 1 {
      SurahCountFirst(sequence[..|sequence| - 1]);
    }
  }

  /** With one non-empty sequence among them, the frequencies are not empty. */
  lemma {:induction false} OccurrencesPositive(matches: seq<seq<WordMatch>>, k: int)
    requires 0 <= k < |matches| && matches[k] != []
    ensures Occurrences(matches, matches[k][0].surah) > 0
    decreases |matches|
  {
    var n := |matches| - 1;
    if k == n {
      SurahCountFirst(matches[k]);
    } else {
      assert matches[..n][k] == matches[k];
      OccurrencesPositive(matches[..n], k);
    }
  }

  /** `max(surah_frequencies.items(), key=count)[0]` over the keys listed so far: a later key wins only with a strictly larger count. */
  function MostFrequentIn(order: seq<int>, t: Tally): int
    requires order != []
    decreases |order|
  {
    if |order| == 1 then order[0]
    else
      var best := MostFrequentIn(order[..|order| - 1], t);
      var last := order[|order| - 1];
      if Count(t, last) > Count(t, best) then last else best
  }

  /** The surah the first round votes for. */
  function MostFrequent(t: Tally): int
    requires t.order != []
  {
    MostFrequentIn(t.order, t)
  }

  /** Key `i` has the largest count, and every key inserted before it has a strictly smaller one. */
  ghost predicate FirstMaximalAt(order: seq<int>, t: Tally, i: int)
  {
    && 0 <= i < |order|
    && (forall j :: 0 <= j < |order| ==> Count(t, order[j]) <= Count(t, order[i]))
    && (forall j :: 0 <= j < i ==> Count(t, order[j]) < Count(t, order[i]))
  }

  /** The vote is the first key, in insertion order, with the largest count. */
  lemma {:induction false} MostFrequentInSpec(order: seq<int>, t: Tally) returns (i: int)
    requires order != []
    ensures FirstMaximalAt(order, t, i) && MostFrequentIn(order, t) == order[i]
    decreases |order|
  {
    if |order| == 1 {
      i := 0;
    } else {
      var n := |order| - 1;
      var init := order[..n];
      var i0 := MostFrequentInSpec(init, t);
      assert forall j :: 0 <= j < n ==> order[j] == init[j];
      if Count(t, order[n]) > Count(t, MostFrequentIn(init, t)) {
        i := n;
      } else {
        i := i0;
      }
    }
  }

  /** The first round: None when it finds no sequence, else the voted surah. */
  function Voted(index: WordIndex, words: seq<string>): Option<int>
  {
    var round1 := ConsecutiveMatches(index, words, None, MaxUnmatchedWords);
    if round1 == [] then None
    else
      var frequencies := TallyOf(round1);
      if frequencies.order == [] then None else Some(MostFrequent(frequencies))
  }

  /**
   * The first round votes exactly when it finds a sequence (so the "no surah
   * frequencies" branch is unreachable), and the vote is the first surah, in
   * order of first appearance, with the most matches.
   */
  lemma VotedSpec(index: WordIndex, words: seq<string>) returns (i: int)
    ensures Voted(index, words).Some? <==> ConsecutiveMatches(index, words, None, MaxUnmatchedWords) != []
    ensures Voted(index, words).Some? ==>
      var round1 := ConsecutiveMatches(index, words, None, MaxUnmatchedWords);
      FirstMaximalAt(TallyOf(round1).order, TallyOf(round1), i)
      && Voted(index, words).value == TallyOf(round1).order[i]
      && Occurrences(round1, Voted(index, words).value) > 0
      && forall s :: Occurrences(round1, s) <= Occurrences(round1, Voted(index, words).value)
  {
    i := 0;
    var round1 := ConsecutiveMatches(index, words, None, MaxUnmatchedWords);
    if round1 != [] {
      ConsecutiveMatchesSpec(index, words, None, MaxUnmatchedWords);
      var t := TallyOf(round1);
      var first := round1[0][0].surah;
      OccurrencesPositive(round1, 0);
      TallyOfSpec(round1, first);
      i := MostFrequentInSpec(t.order, t);
      var v := t.order[i];
      TallyOfSpec(round1, v);
      forall s ensures Occurrences(round1, s) <= Occurrences(round1, v) {
        TallyOfSpec(round1, s);
        if Occurrences(round1, s) > 0 {
          var j :| 0 <= j < |t.order| && t.order[j] == s;
        }
      }
    }
  }

  // ---------------------------------------------------------------------
  // The detector
  // ---------------------------------------------------------------------

  /** The sequences the detector hands to the range search, from the scope it searched. */
  function FinalMatches(index: WordIndex, words: seq<string>, target: Option<int>): seq<seq<WordMatch>>
  {
    ConsecutiveMatches(index, words, target, MaxUnmatchedWords)
  }

  /** The scope of the last round: the requested surah, or the first round's vote. */
  function SearchScope(index: WordIndex, words: seq<string>, surahNumber: Option<int>): Option<int>
  {
    if Restricted(surahNumber) then surahNumber else Voted(index, words)
  }

  /** The checks after the range search: a range outside the requested surah is dropped, and a start at ayah 2 is moved to 1 under the correction flag. */
  function Finish(r: Range, surahNumber: Option<int>, firstAyahCorrection: bool): Range
  {
    if Restricted(surahNumber) && r.surah != surahNumber then NoRange
    else if firstAyahCorrection && r.start == Some(2) then Range(r.surah, Some(1), r.end)
    else r
  }

  /** The last round in scope `target`, the range search, and the checks after it. */
  function RangeInScope(index: WordIndex, words: seq<string>, target: Option<int>, surahNumber: Option<int>, firstAyahCorrection: bool): Range
  {
    var matches := FinalMatches(index, words, target);
    if matches == [] then NoRange
    else
      ConsecutiveMatchesNonEmpty(index, words, target, MaxUnmatchedWords);
      Finish(AyahRangeOf(matches, MaxAllowedGap), surahNumber, firstAyahCorrection)
  }

  /** `detect_ayah_range_from_transcription`, using the corrected range search. */
  function Detection(index: WordIndex, transcription: Transcription, surahNumber: Option<int>, firstAyahCorrection: bool): Range
  {
    if !HasSegments(transcription) || index == map[] then NoRange
    else
      var words := TranscribedWords(transcription.segments.value);
      var target := SearchScope(index, words, surahNumber);
      if target.None? then NoRange
      else RangeInScope(index, words, target, surahNumber, firstAyahCorrection)
  }

  /** A transcription without segments, or an empty word index, gives no range. */
  lemma DetectionWithoutInput(index: WordIndex, transcription: Transcription, surahNumber: Option<int>, firstAyahCorrection: bool)
    requires !HasSegments(transcription) || index == map[]
    ensures Detection(index, transcription, surahNumber, firstAyahCorrection) == NoRange
  {
  }

  /** The sequences of the last round for a transcription with segments. */
  function LastRound(index: WordIndex, transcription: Transcription, surahNumber: Option<int>): seq<seq<WordMatch>>
    requires HasSegments(transcription)
  {
    var words := TranscribedWords(transcription.segments.value);
    FinalMatches(index, words, SearchScope(index, words, surahNumber))
  }

  /**
   * The range search followed by the final checks yields a first longest
   * run: found in the requested surah when one was given, with the start
   * moved from 2 to 1 under the correction flag.
   */
  lemma FinishIsLongestRun(matches: seq<seq<WordMatch>>, surahNumber: Option<int>, firstAyahCorrection: bool) returns (j: int)
    requires NonEmptySequences(matches) && matches != []
    requires Finish(AyahRangeOf(matches, MaxAllowedGap), surahNumber, firstAyahCorrection) != NoRange
    ensures LongestAt(MatchRuns(matches, MaxAllowedGap), j)
    ensures |MatchRuns(matches, MaxAllowedGap)[j].ayahs| >= 2
    ensures Finish(AyahRangeOf(matches, MaxAllowedGap), surahNumber, firstAyahCorrection) == Range(
      Some(MatchRuns(matches, MaxAllowedGap)[j].surah),
      Some(if firstAyahCorrection && MatchRuns(matches, MaxAllowedGap)[j].ayahs[0] == 2 then 1
           else MatchRuns(matches, MaxAllowedGap)[j].ayahs[0]),
      Some(MatchRuns(matches, MaxAllowedGap)[j].ayahs[|MatchRuns(matches, MaxAllowedGap)[j].ayahs| - 1]))
    ensures Restricted(surahNumber) ==> MatchRuns(matches, MaxAllowedGap)[j].surah == surahNumber.value
  {
    var r := AyahRangeOf(matches, MaxAllowedGap);
    FinishKeepsNoRange(surahNumber, firstAyahCorrection);
    assert r != NoRange;
    var rs := MatchRuns(matches, MaxAllowedGap);
    MatchRunsNonEmpty(matches, MaxAllowedGap);
    j := PickSpec(rs);
    var b := Pick(rs);
    assert r == (if b.length < 2 || b.surah.None? then NoRange else Range(b.surah, b.start, b.end));
    assert rs != [];
    var run := rs[j];
    assert r == Range(Some(run.surah), Some(run.ayahs[0]), Some(run.ayahs[|run.ayahs| - 1]));
  }

  lemma FinishKeepsNoRange(surahNumber: Option<int>, firstAyahCorrection: bool)
    ensures Finish(NoRange, surahNumber, firstAyahCorrection) == NoRange
  {
  }

  /** A detected range is the range search on the last round, passed through the final checks. */
  lemma DetectionIsFinish(index: WordIndex, transcription: Transcription, surahNumber: Option<int>, firstAyahCorrection: bool)
    requires HasSegments(transcription)
    requires Detection(index, transcription, surahNumber, firstAyahCorrection) != NoRange
    ensures LastRound(index, transcription, surahNumber) != []
    ensures NonEmptySequences(LastRound(index, transcription, surahNumber))
    ensures Detection(index, transcription, surahNumber, firstAyahCorrection)
      == Finish(AyahRangeOf(LastRound(index, transcription, surahNumber), MaxAllowedGap), surahNumber, firstAyahCorrection)
  {
    var words := TranscribedWords(transcription.segments.value);
    ConsecutiveMatchesNonEmpty(index, words, SearchScope(index, words, surahNumber), MaxUnmatchedWords);
  }

  /** Under the correction flag a detected range never starts at ayah 2. */
  lemma DetectionCorrected(index: WordIndex, transcription: Transcription, surahNumber: Option<int>)
    ensures Detection(index, transcription, surahNumber, true).start != Some(2)
  {
  }

  /** `RangeInScope` with the range search as written, whose end is the largest ayah of the last grouped surah. */
  function RangeInScopeAsWritten(index: WordIndex, words: seq<string>, target: Option<int>, surahNumber: Option<int>, firstAyahCorrection: bool): Range
  {
    var matches := FinalMatches(index, words, target);
    if matches == [] then NoRange
    else
      ConsecutiveMatchesNonEmpty(index, words, target, MaxUnmatchedWords);
      Finish(AyahRangeAsWritten(matches, MaxAllowedGap), surahNumber, firstAyahCorrection)
  }

  /** `detect_ayah_range_from_transcription` as written, with the range search as written. */
  function DetectionAsWritten(index: WordIndex, transcription: Transcription, surahNumber: Option<int>, firstAyahCorrection: bool): Range
  {
    if !HasSegments(transcription) || index == map[] then NoRange
    else
      var words := TranscribedWords(transcription.segments.value);
      var target := SearchScope(index, words, surahNumber);
      if target.None? then NoRange
      else RangeInScopeAsWritten(index, words, target, surahNumber, firstAyahCorrection)
  }

  /** The final checks look only at the surah and start, and pass the end through. */
  lemma FinishDiffersOnlyInEnd(r: Range, r': Range, surahNumber: Option<int>, firstAyahCorrection: bool)
    requires r.surah == r'.surah && r.start == r'.start && (r.end.Some? <==> r'.end.Some?)
    ensures Finish(r, surahNumber, firstAyahCorrection).surah == Finish(r', surahNumber, firstAyahCorrection).surah
    ensures Finish(r, surahNumber, firstAyahCorrection).start == Finish(r', surahNumber, firstAyahCorrection).start
    ensures Finish(r, surahNumber, firstAyahCorrection).end.Some? <==> Finish(r', surahNumber, firstAyahCorrection).end.Some?
  {
  }

  /** In one scope, the range as written agrees with the corrected one except for the end ayah. */
  lemma RangeInScopeAsWrittenDiffersOnlyInEnd(index: WordIndex, words: seq<string>, target: Option<int>, surahNumber: Option<int>, firstAyahCorrection: bool)
    ensures RangeInScopeAsWritten(index, words, target, surahNumber, firstAyahCorrection).surah
      == RangeInScope(index, words, target, surahNumber, firstAyahCorrection).surah
    ensures RangeInScopeAsWritten(index, words, target, surahNumber, firstAyahCorrection).start
      == RangeInScope(index, words, target, surahNumber, firstAyahCorrection).start
    ensures RangeInScopeAsWritten(index, words, target, surahNumber, firstAyahCorrection).end.Some?
      <==> RangeInScope(index, words, target, surahNumber, firstAyahCorrection).end.Some?
  {
    var matches := FinalMatches(index, words, target);
    if matches != [] {
      ConsecutiveMatchesNonEmpty(index, words, target, MaxUnmatchedWords);
      AsWrittenDiffersOnlyInEnd(matches, MaxAllowedGap);
      FinishDiffersOnlyInEnd(AyahRangeAsWritten(matches, MaxAllowedGap), AyahRangeOf(matches, MaxAllowedGap),
                             surahNumber, firstAyahCorrection);
    }
  }

  /** The detector as written agrees with the corrected one except for the end ayah. */
  lemma DetectionAsWrittenDiffersOnlyInEnd(index: WordIndex, transcription: Transcription, surahNumber: Option<int>, firstAyahCorrection: bool)
    ensures DetectionAsWritten(index, transcription, surahNumber, firstAyahCorrection).surah
      == Detection(index, transcription, surahNumber, firstAyahCorrection).surah
    ensures DetectionAsWritten(index, transcription, surahNumber, firstAyahCorrection).start
      == Detection(index, transcription, surahNumber, firstAyahCorrection).start
    ensures DetectionAsWritten(index, transcription, surahNumber, firstAyahCorrection).end.Some?
      <==> Detection(index, transcription, surahNumber, firstAyahCorrection).end.Some?
  {
    if HasSegments(transcription) && index != map[] {
      var words := TranscribedWords(transcription.segments.value);
      var target := SearchScope(index, words, surahNumber);
      if target.Some? {
        assert DetectionAsWritten(index, transcription, surahNumber, firstAyahCorrection)
          == RangeInScopeAsWritten(index, words, target, surahNumber, firstAyahCorrection);
        assert Detection(index, transcription, surahNumber, firstAyahCorrection)
          == RangeInScope(index, words, target, surahNumber, firstAyahCorrection);
        RangeInScopeAsWrittenDiffersOnlyInEnd(index, words, target, surahNumber, firstAyahCorrection);
      }
    }
  }

  /** Every match of a surah-restricted round lies in that surah. */
  lemma FinalMatchesInTarget(index: WordIndex, words: seq<string>, target: Option<int>)
    requires Restricted(target)
    ensures forall k, p :: 0 <= k < |FinalMatches(index, words, target)| && 0 <= p < |FinalMatches(index, words, target)[k]| ==>
      FinalMatches(index, words, target)[k][p].surah == target.value
  {
    var m: seq<seq<WordMatch>> := FinalMatches(index, words, target);
    ConsecutiveMatchesSpec(index, words, target, MaxUnmatchedWords);
    forall k: int, p: int | 0 <= k < |m| && 0 <= p < |m[k]|
      ensures m[k][p].surah == target.value
    {
      RunInTarget(index, target, MaxUnmatchedWords, m[k], p);
    }
  }

  /** In a surah-restricted round, the as-written range ends at the largest ayah matched anywhere in the round. */
  lemma RangeInScopeAsWrittenEnd(index: WordIndex, words: seq<string>, target: Option<int>, surahNumber: Option<int>, firstAyahCorrection: bool)
    requires Restricted(target)
    requires RangeInScopeAsWritten(index, words, target, surahNumber, firstAyahCorrection) != NoRange
    ensures RangeInScopeAsWritten(index, words, target, surahNumber, firstAyahCorrection).end.Some?
    ensures
      var m := FinalMatches(index, words, target);
      var e := RangeInScopeAsWritten(index, words, target, surahNumber, firstAyahCorrection).end.value;
      && (exists k, p :: 0 <= k < |m| && 0 <= p < |m[k]| && m[k][p].ayah == e)
      && (forall k, p :: 0 <= k < |m| && 0 <= p < |m[k]| ==> m[k][p].ayah <= e)
  {
    var m: seq<seq<WordMatch>> := FinalMatches(index, words, target);
    ConsecutiveMatchesNonEmpty(index, words, target, MaxUnmatchedWords);
    FinalMatchesInTarget(index, words, target);
    var r := AyahRangeAsWritten(m, MaxAllowedGap);
    FinishKeepsNoRange(surahNumber, firstAyahCorrection);
    assert r != NoRange;
    AsWrittenEndInOneSurah(m, MaxAllowedGap, target.value);
  }

  /**
   * When the last round is restricted to a surah (the requested one, or the
   * vote), the detector as written ends its range at the largest ayah
   * matched anywhere in that round.
   */
  lemma DetectionAsWrittenEnd(index: WordIndex, transcription: Transcription, surahNumber: Option<int>, firstAyahCorrection: bool)
    requires HasSegments(transcription)
    requires Restricted(SearchScope(index, TranscribedWords(transcription.segments.value), surahNumber))
    requires DetectionAsWritten(index, transcription, surahNumber, firstAyahCorrection) != NoRange
    ensures DetectionAsWritten(index, transcription, surahNumber, firstAyahCorrection).end.Some?
    ensures
      var m := LastRound(index, transcription, surahNumber);
      var e := DetectionAsWritten(index, transcription, surahNumber, firstAyahCorrection).end.value;
      && (exists k, p :: 0 <= k < |m| && 0 <= p < |m[k]| && m[k][p].ayah == e)
      && (forall k, p :: 0 <= k < |m| && 0 <= p < |m[k]| ==> m[k][p].ayah <= e)
  {
    var words := TranscribedWords(transcription.segments.value);
    var target := SearchScope(index, words, surahNumber);
    var r := RangeInScopeAsWritten(index, words, target, surahNumber, firstAyahCorrection);
    assert DetectionAsWritten(index, transcription, surahNumber, firstAyahCorrection) == r;
    assert LastRound(index, transcription, surahNumber) == FinalMatches(index, words, target);
    RangeInScopeAsWrittenEnd(index, words, target, surahNumber, firstAyahCorrection);
  }

  /** The detector, step by step: word extraction, the optional first round, the last round and the range search. */
  method DetectAyahRangeFromTranscription(index: WordIndex, transcription: Transcription, surahNumber: Option<int>, firstAyahCorrection: bool)
    returns (r: Range)
    ensures r == Detection(index, transcription, surahNumber, firstAyahCorrection)
  {
    if !HasSegments(transcription) {
      return NoRange;
    }
    if index == map[] {
      return NoRange;
    }
    var transcribedWords := ExtractTranscribedWords(transcription.segments.value);
    var target := ChooseScope(index, transcribedWords, surahNumber);
    if target.None? {
      return NoRange;
    }
    r := FindRangeInScope(index, transcribedWords, target, surahNumber, firstAyahCorrection);
  }

  /** The requested surah, or else the first round and its vote. */
  method ChooseScope(index: WordIndex, transcribedWords: seq<string>, surahNumber: Option<int>) returns (target: Option<int>)
    ensures target == SearchScope(index, transcribedWords, surahNumber)
  {
    if Restricted(surahNumber) {
      return surahNumber;
    }
    var round1Matches := FindConsecutiveMatches(index, transcribedWords, None, MaxUnmatchedWords);
    if round1Matches == [] {
      return None;
    }
    var surahFrequencies := CountSurahs(round1Matches);
    if surahFrequencies.order == [] {
      return None;
    }
    var mostLikelySurah := MostFrequent(surahFrequencies);
    target := Some(mostLikelySurah);
  }

  /** The last round, the range search and the checks after it. */
  method FindRangeInScope(index: WordIndex, transcribedWords: seq<string>, target: Option<int>, surahNumber: Option<int>, firstAyahCorrection: bool)
    returns (r: Range)
    ensures r == RangeInScope(index, transcribedWords, target, surahNumber, firstAyahCorrection)
  {
    var matches := FindConsecutiveMatches(index, transcribedWords, target, MaxUnmatchedWords);
    if matches == [] {
      return NoRange;
    }
    ConsecutiveMatchesNonEmpty(index, transcribedWords, target, MaxUnmatchedWords);
    r := DetermineAyahRange(matches, MaxAllowedGap);
    if Restricted(surahNumber) && r.surah != surahNumber {
      return NoRange;
    }
    if firstAyahCorrection && r.start == Some(2) {
      r := Range(r.surah, Some(1), r.end);
    }
  }

  /** The loop collecting the cleaned words of every segment that has a text. */
  method ExtractTranscribedWords(segments: seq<Segment>) returns (transcribedWords: seq<string>)
    ensures transcribedWords == TranscribedWords(segments)
  {
    transcribedWords := [];
    for k := 0 to |segments|
      invariant transcribedWords == TranscribedWords(segments[..k])
    {
      assert segments[..k + 1][..k] == segments[..k];
      if segments[k].text.Some? {
        var words := CleanText(segments[k].text.value);
        transcribedWords := transcribedWords + words;
      }
    }
    assert segments[..|segments|] == segments;
  }

  /** The nested loop filling `surah_frequencies`. */
  method CountSurahs(round1Matches: seq<seq<WordMatch>>) returns (surahFrequencies: Tally)
    ensures surahFrequencies == TallyOf(round1Matches)
  {
    surahFrequencies := Tally([], map[]);
    for k := 0 to |round1Matches|
      invariant surahFrequencies == TallyOf(round1Matches[..k])
    {
      assert round1Matches[..k + 1][..k] == round1Matches[..k];
      ghost var before := surahFrequencies;
      var sequence := round1Matches[k];
      for i := 0 to |sequence|
        invariant surahFrequencies == TallySequence(before, sequence[..i])
      {
        assert sequence[..i + 1][..i] == sequence[..i];
        var surah := sequence[i].surah;
        var count := if surah in surahFrequencies.counts then surahFrequencies.counts[surah] else 0;
        var order := if surah in surahFrequencies.counts then surahFrequencies.order else surahFrequencies.order + [surah];
        surahFrequencies := Tally(order, surahFrequencies.counts[surah := count + 1]);
      }
      assert sequence[..|sequence|] == sequence;
    }
    assert round1Matches[..|round1Matches|] == round1Matches;
  }

  // ---------------------------------------------------------------------
  // get_ayahs
  // ---------------------------------------------------------------------

  /** `surah_to_simple_ayahs.json` once loaded: surah number → ayah number → text. */
  type Corpus = map<int, map<int, string>>

  /** What `get_ayahs` returns or raises. */
  datatype AyahsResult =
    | ValueError
    | NotDetected
    | Ayahs(surah: int, ayahNumbers: Option<seq<int>>, texts: seq<string>)

  /** `ayah_numbers` is truthy. */
  predicate NumbersGiven(ayahNumbers: Option<seq<int>>)
  {
    ayahNumbers.Some? && ayahNumbers.value != []
  }

  /** `transcription` is truthy: present and a non-empty dictionary. */
  predicate TranscriptionGiven(transcription: Option<Transcription>)
  {
    transcription.Some? && (transcription.value.segments.Some? || transcription.value.otherKeys)
  }

  /** An optional integer is truthy. */
  predicate Nonzero(n: Option<int>)
  {
    n.Some? && n.value != 0
  }

  /** The comprehension's filter: every key when no list is given, else the listed ones. */
  function Selected(keys: seq<int>, ayahNumbers: Option<seq<int>>): (r: seq<int>)
    decreases |keys|
  {
    if keys == [] then []
    else
      var k := keys[|keys| - 1];
      Selected(keys[..|keys| - 1], ayahNumbers) + (if !NumbersGiven(ayahNumbers) || k in ayahNumbers.value then [k] else [])
  }

  /** The filter keeps exactly the keys that pass. */
  lemma {:induction false} SelectedMembers(keys: seq<int>, ayahNumbers: Option<seq<int>>)
    ensures forall k :: k in Selected(keys, ayahNumbers) <==> k in keys && (!NumbersGiven(ayahNumbers) || k in ayahNumbers.value)
    decreases |keys|
  {
    if keys != [] {
      var n := |keys| - 1;
      SelectedMembers(keys[..n], ayahNumbers);
      assert keys == keys[..n] + [keys[n]];
    }
  }

  /** The filter keeps the keys that pass, in their order. */
  lemma {:induction false} SelectedSpec(keys: seq<int>, ayahNumbers: Option<seq<int>>)
    requires StrictlyIncreasing(keys)
    ensures StrictlyIncreasing(Selected(keys, ayahNumbers))
    ensures forall k :: k in Selected(keys, ayahNumbers) <==> k in keys && (!NumbersGiven(ayahNumbers) || k in ayahNumbers.value)
    ensures forall i :: 0 <= i < |Selected(keys, ayahNumbers)| ==> Selected(keys, ayahNumbers)[i] in keys
    decreases |keys|
  {
    SelectedMembers(keys, ayahNumbers);
    if keys != [] {
      var n := |keys| - 1;
      var init := keys[..n];
      assert StrictlyIncreasing(init) by {
        forall i, j | 0 <= i < j < |init| ensures init[i] < init[j] {
          assert init[i] == keys[i] && init[j] == keys[j];
        }
      }
      SelectedSpec(init, ayahNumbers);
      var s := Selected(init, ayahNumbers);
      if !NumbersGiven(ayahNumbers) || keys[n] in ayahNumbers.value {
        assert Selected(keys, ayahNumbers) == s + [keys[n]];
        forall i | 0 <= i < |s| ensures s[i] < keys[n] {
          assert s[i] in init;
          var p :| 0 <= p < n && init[p] == s[i];
          assert init[p] == keys[p];
        }
        IncreasingConcat(s, [keys[n]]);
      } else {
        assert Selected(keys, ayahNumbers) == s;
      }
    }
  }

  /** The filter returns every key when no list is given. */
  lemma {:induction false} SelectedAll(keys: seq<int>, ayahNumbers: Option<seq<int>>)
    requires !NumbersGiven(ayahNumbers)
    ensures Selected(keys, ayahNumbers) == keys
    decreases |keys|
  {
    if keys != [] {
      SelectedAll(keys[..|keys| - 1], ayahNumbers);
      assert keys == keys[..|keys| - 1] + [keys[|keys| - 1]];
    }
  }

  /** The texts of the selected ayahs, in key order. */
  function Texts(ayahs: map<int, string>, keys: seq<int>): (r: seq<string>)
    requires forall i :: 0 <= i < |keys| ==> keys[i] in ayahs
    ensures |r| == |keys|
    ensures forall i :: 0 <= i < |keys| ==> r[i] == ayahs[keys[i]]
    decreases |keys|
  {
    if keys == [] then []
    else Texts(ayahs, keys[..|keys| - 1]) + [ayahs[keys[|keys| - 1]]]
  }

  /** The keys of a surah's ayah map in ascending numeric order. */
  function SortedKeys(ayahs: map<int, string>): (r: seq<int>)
    ensures StrictlyIncreasing(r)
    ensures forall k :: k in r <==> k in ayahs
  {
    Sorted(ayahs.Keys)
  }

  /** The ayah list a surah-only request settles on before the filter. */
  function SettledNumbers(index: WordIndex, surah: int, ayahNumbers: Option<seq<int>>, transcription: Option<Transcription>): Option<seq<int>>
  {
    if NumbersGiven(ayahNumbers) then ayahNumbers
    else if surah >= 78 then None
    else if TranscriptionGiven(transcription) then
      var d := Detection(index, transcription.value, Some(surah), true);
      if Nonzero(d.start) && Nonzero(d.end) then Some(RangeInclusive(d.start.value, d.end.value)) else ayahNumbers
    else ayahNumbers
  }

  /** The selection logic of `get_ayahs`, with the loaded corpus and word index passed in. */
  function GetAyahs(corpus: Corpus, index: WordIndex, surahNumber: Option<int>, ayahNumbers: Option<seq<int>>,
                    transcription: Option<Transcription>): AyahsResult
  {
    if !Restricted(surahNumber) && !TranscriptionGiven(transcription) then ValueError
    else
      var detected := if Restricted(surahNumber) then NoRange else Detection(index, transcription.value, None, true);
      if !Restricted(surahNumber) && !(Nonzero(detected.surah) && Nonzero(detected.start) && Nonzero(detected.end)) then NotDetected
      else
        var surah := if Restricted(surahNumber) then surahNumber.value else detected.surah.value;
        var requested := if Restricted(surahNumber) then ayahNumbers else Some(RangeInclusive(detected.start.value, detected.end.value));
        if surah !in corpus then ValueError
        else
          var numbers := SettledNumbers(index, surah, requested, transcription);
          SelectedSpec(SortedKeys(corpus[surah]), numbers);
          Ayahs(surah, numbers, Texts(corpus[surah], Selected(SortedKeys(corpus[surah]), numbers)))
  }

  /** ValueError with neither a surah nor a transcription, or for a surah the corpus lacks. */
  lemma GetAyahsErrors(corpus: Corpus, index: WordIndex, surahNumber: Option<int>, ayahNumbers: Option<seq<int>>,
                       transcription: Option<Transcription>)
    ensures !Restricted(surahNumber) && !TranscriptionGiven(transcription) ==>
      GetAyahs(corpus, index, surahNumber, ayahNumbers, transcription) == ValueError
    ensures Restricted(surahNumber) && surahNumber.value !in corpus ==>
      GetAyahs(corpus, index, surahNumber, ayahNumbers, transcription) == ValueError
  {
  }

  /** A failed detection, with no surah given, returns the empty list. */
  lemma GetAyahsNotDetected(corpus: Corpus, index: WordIndex, ayahNumbers: Option<seq<int>>, transcription: Option<Transcription>)
    requires TranscriptionGiven(transcription)
    ensures
      var d := Detection(index, transcription.value, None, true);
      GetAyahs(corpus, index, None, ayahNumbers, transcription) == NotDetected
      <==> !(Nonzero(d.surah) && Nonzero(d.start) && Nonzero(d.end))
  {
  }

  /**
   * The texts come back in ascending ayah order, one per corpus ayah that the
   * settled list admits (every ayah when the list is falsy); listed ayahs the
   * corpus lacks are ignored.
   */
  lemma GetAyahsTexts(corpus: Corpus, index: WordIndex, surahNumber: Option<int>, ayahNumbers: Option<seq<int>>,
                      transcription: Option<Transcription>) returns (keys: seq<int>)
    requires GetAyahs(corpus, index, surahNumber, ayahNumbers, transcription).Ayahs?
    ensures
      var res := GetAyahs(corpus, index, surahNumber, ayahNumbers, transcription);
      && res.surah in corpus
      && StrictlyIncreasing(keys)
      && (forall k :: k in keys <==> k in corpus[res.surah] && (!NumbersGiven(res.ayahNumbers) || k in res.ayahNumbers.value))
      && |res.texts| == |keys|
      && (forall i :: 0 <= i < |keys| ==> keys[i] in corpus[res.surah] && res.texts[i] == corpus[res.surah][keys[i]])
  {
    var res := GetAyahs(corpus, index, surahNumber, ayahNumbers, transcription);
    keys := Selected(SortedKeys(corpus[res.surah]), res.ayahNumbers);
    SelectedSpec(SortedKeys(corpus[res.surah]), res.ayahNumbers);
  }

  /** A surah from 78 on, with no ayah list, returns every ayah of the surah in order. */
  lemma GetAyahsWholeSurah(corpus: Corpus, index: WordIndex, surah: int, ayahNumbers: Option<seq<int>>,
                           transcription: Option<Transcription>)
    requires surah != 0 && surah >= 78 && surah in corpus && !NumbersGiven(ayahNumbers)
    ensures GetAyahs(corpus, index, Some(surah), ayahNumbers, transcription) ==
      Ayahs(surah, None, Texts(corpus[surah], SortedKeys(corpus[surah])))
  {
    SelectedAll(SortedKeys(corpus[surah]), None);
  }

  /** A given surah and ayah list are kept as they are. */
  lemma GetAyahsGiven(corpus: Corpus, index: WordIndex, surah: int, ayahNumbers: Option<seq<int>>,
                      transcription: Option<Transcription>)
    requires surah != 0 && surah in corpus && NumbersGiven(ayahNumbers)
    ensures GetAyahs(corpus, index, Some(surah), ayahNumbers, transcription).Ayahs?
    ensures GetAyahs(corpus, index, Some(surah), ayahNumbers, transcription).surah == surah
    ensures GetAyahs(corpus, index, Some(surah), ayahNumbers, transcription).ayahNumbers == ayahNumbers
  {
  }

  /** With no surah given, a successful detection fixes the surah and the inclusive ayah range. */
  lemma GetAyahsDetected(corpus: Corpus, index: WordIndex, ayahNumbers: Option<seq<int>>, transcription: Option<Transcription>)
    requires GetAyahs(corpus, index, None, ayahNumbers, transcription).Ayahs?
    ensures TranscriptionGiven(transcription)
    ensures
      var d := Detection(index, transcription.value, None, true);
      var res := GetAyahs(corpus, index, None, ayahNumbers, transcription);
      && d.surah == Some(res.surah) && d.start.Some? && d.end.Some?
      && (d.start.value <= d.end.value ==> res.ayahNumbers == Some(RangeInclusive(d.start.value, d.end.value)))
  {
  }

  // ---------------------------------------------------------------------
  // get_surah_name
  // ---------------------------------------------------------------------

  /** What `get_surah_name` returns or raises. */
  datatype NameResult = FileNotFound | NameNotFound | Name(name: string)

  /**
   * `get_surah_name`, with the loaded `quran-metadata-surah-name.json` passed
   * in (None when the file is missing): the name filed under the number, or
   * the error.
   */
  function GetSurahName(metadata: Option<map<int, string>>, surahNumber: int): (r: NameResult)
    ensures r == FileNotFound <==> metadata.None?
    ensures r == NameNotFound <==> metadata.Some? && surahNumber !in metadata.value
    ensures r.Name? ==> r.name == metadata.value[surahNumber]
  {
    if metadata.None? then FileNotFound
    else if surahNumber !in metadata.value then NameNotFound
    else Name(metadata.value[surahNumber])
  }

  /**
   * With a metadata file that names exactly the surahs 1 to 114, the lookup
   * fails exactly for a number outside 1..114, which is the documented
   * ValueError; the code itself only checks that the key is present.
   */
  lemma SurahNameRange(metadata: map<int, string>, surahNumber: int)
    requires forall n :: n in metadata <==> 1 <= n <= 114
    ensures GetSurahName(Some(metadata), surahNumber) == NameNotFound <==> !(1 <= surahNumber <= 114)
    ensures GetSurahName(Some(metadata), surahNumber).Name? <==> 1 <= surahNumber <= 114
  {
  }
}
