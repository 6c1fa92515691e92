/**
 * `AyahMatchingService.match_ayahs`: clean the recognised words and the
 * reference words, fill the alignment matrices, trace the cheapest edit
 * path back, turn it into word spans (with no ayahs of rematch window) and
 * collect the per-ayah timestamps.
 */
module AyahMatching {
  import opened Common
  import opened PyText
  import opened ArabicText
  import opened Models
  import opened Alignment
  import opened WordSpans
  import opened AyahTimestamps

  /**
   * One entry of `word_segments`, as a dictionary: `word`, `start` and `end`
   * are None when the key is missing (WhisperX leaves out the timing of a
   * word it could not align), and `score` is the optional score.
   */
  datatype WordSegment = WordSegment(word: Option<string>, start: Option<real>, end: Option<real>, score: Option<real>)

  /** The dictionary `match_ayahs` returns. */
  datatype MatchedAyahsAndSpans = MatchedAyahsAndSpans(ayahTimestamps: seq<AyahTimestamp>, wordSpans: seq<SegmentedWordSpan>)

  // ---------------------------------------------------------------- recognised words

  /**
   * The cleaned text of every segment. The list-level definitions below take
   * these texts as a parameter, so that their lemmas never unfold the cleaning.
   */
  function SegmentTexts(segments: seq<WordSegment>): seq<string>
  {
    Map(SegmentText, segments)
  }

  function SegmentText(segment: WordSegment): string
  {
    CleanWord(segment.word.GetOr([]))
  }

  /**
   * Reading the segment raises `KeyError`: it has no "word", or its cleaned
   * text is kept and it has no "start" or no "end".
   */
  predicate MissingKey(segment: WordSegment, text: string)
  {
    segment.word.None? || (text != [] && (segment.start.None? || segment.end.None?))
  }

  /**
   * The recognised words of the segments, given each segment's cleaned text;
   * None is the `KeyError` of a segment with a missing key.
   */
  function Recognized(segments: seq<WordSegment>, texts: seq<string>): Option<seq<RecognizedWord>>
    requires |texts| == |segments|
    decreases |segments|
  {
    if segments == [] then Some([])
    else
      var n := |segments| - 1;
      var prev := Recognized(segments[..n], texts[..n]);
      if prev.None? || MissingKey(segments[n], texts[n]) then None
      else
        Some(prev.value
             + (if texts[n] != [] then [RecognizedWord(texts[n], segments[n].start.value, segments[n].end.value, segments[n].score)] else []))
  }

  /** `_extract_recognized_words` on the list of segments. */
  function RecognizedFrom(segments: seq<WordSegment>): Option<seq<RecognizedWord>>
  {
    Recognized(segments, SegmentTexts(segments))
  }

  /** The extraction fails exactly when some segment has a missing key. */
  lemma {:induction false} RecognizedFails(segments: seq<WordSegment>, texts: seq<string>)
    requires |texts| == |segments|
    ensures Recognized(segments, texts).None? <==> exists k :: 0 <= k < |segments| && MissingKey(segments[k], texts[k])
    decreases |segments|
  {
    if segments != [] {
      var n := |segments| - 1;
      RecognizedFails(segments[..n], texts[..n]);
      if Recognized(segments[..n], texts[..n]).None? {
        var k :| 0 <= k < n && MissingKey(segments[..n][k], texts[..n][k]);
        assert MissingKey(segments[k], texts[k]);
      } else if !MissingKey(segments[n], texts[n]) {
        forall k | 0 <= k < |segments|
          ensures !MissingKey(segments[k], texts[k])
        {
          if k < n {
            assert segments[..n][k] == segments[k] && texts[..n][k] == texts[k];
          }
        }
      }
    }
  }

  /** A failure on a prefix of the segments is a failure on all of them. */
  lemma {:induction false} RecognizedPrefixFails(segments: seq<WordSegment>, texts: seq<string>, k: nat)
    requires |texts| == |segments| && k <= |segments|
    requires Recognized(segments[..k], texts[..k]).None?
    ensures Recognized(segments, texts).None?
    decreases |segments|
  {
    if k < |segments| {
      var n := |segments| - 1;
      assert segments[..n][..k] == segments[..k] && texts[..n][..k] == texts[..k];
      RecognizedPrefixFails(segments[..n], texts[..n], k);
    } else {
      assert segments[..k] == segments && texts[..k] == texts;
    }
  }

  /**
   * `_extract_recognized_words` raises `KeyError` exactly when some segment
   * has no "word", or has a non-empty cleaned word and no "start" or "end".
   */
  lemma RecognizedFromFails(segments: seq<WordSegment>)
    ensures RecognizedFrom(segments).None? <==>
      exists k :: 0 <= k < |segments| && MissingKey(segments[k], CleanWord(segments[k].word.GetOr([])))
  {
    var texts := SegmentTexts(segments);
    RecognizedFails(segments, texts);
    forall k | 0 <= k < |segments|
      ensures texts[k] == CleanWord(segments[k].word.GetOr([]))
    {
      MapAt(SegmentText, segments, k);
    }
  }

  /** The positions of the non-empty texts, in order. */
  function Survivors(texts: seq<string>): seq<int>
    decreases |texts|
  {
    if texts == [] then []
    else
      var n := |texts| - 1;
      Survivors(texts[..n]) + (if texts[n] != [] then [n] else [])
  }

  /** The surviving positions increase and are exactly the positions of the non-empty texts. */
  lemma {:induction false} SurvivorsSpec(texts: seq<string>)
    ensures StrictlyIncreasing(Survivors(texts))
    ensures forall k :: k in Survivors(texts) <==> 0 <= k < |texts| && texts[k] != []
    decreases |texts|
  {
    if texts != [] {
      var n := |texts| - 1;
      var init := texts[..n];
      SurvivorsSpec(init);
      var ks := Survivors(init);
      var tail := if texts[n] != [] then [n] else [];
      assert Survivors(texts) == ks + tail;
      forall k ensures k in ks + tail <==> 0 <= k < |texts| && texts[k] != [] {
        if 0 <= k < n { assert init[k] == texts[k]; }
      }
      forall p | 0 <= p < |ks| ensures ks[p] < n {
        assert ks[p] in ks;
      }
      IncreasingConcat(ks, tail);
    }
  }

  /**
   * The `p`-th recognised word is the `p`-th surviving segment, with its
   * cleaned text and its timing and score unchanged.
   */
  lemma {:induction false} RecognizedAt(segments: seq<WordSegment>, texts: seq<string>)
    requires |texts| == |segments|
    requires Recognized(segments, texts).Some?
    ensures |Recognized(segments, texts).value| == |Survivors(texts)|
    ensures forall p :: 0 <= p < |Survivors(texts)| ==>
      0 <= Survivors(texts)[p] < |segments|
      && segments[Survivors(texts)[p]].start.Some? && segments[Survivors(texts)[p]].end.Some?
      && Recognized(segments, texts).value[p]
         == RecognizedWord(texts[Survivors(texts)[p]], segments[Survivors(texts)[p]].start.value,
                           segments[Survivors(texts)[p]].end.value, segments[Survivors(texts)[p]].score)
    decreases |segments|
  {
    if segments != [] {
      var n := |segments| - 1;
      var segs, init := segments[..n], texts[..n];
      RecognizedAt(segs, init);
      var prev, ks := Recognized(segs, init).value, Survivors(init);
      var r, rs := Recognized(segments, texts).value, Survivors(texts);
      assert r == prev + (if texts[n] != [] then [RecognizedWord(texts[n], segments[n].start.value, segments[n].end.value, segments[n].score)] else []);
      assert rs == ks + (if texts[n] != [] then [n] else []);
      forall p | 0 <= p < |rs|
        ensures 0 <= rs[p] < |segments|
        ensures segments[rs[p]].start.Some? && segments[rs[p]].end.Some?
        ensures r[p] == RecognizedWord(texts[rs[p]], segments[rs[p]].start.value, segments[rs[p]].end.value, segments[rs[p]].score)
      {
        if p < |ks| {
          assert rs[p] == ks[p] && r[p] == prev[p];
          assert segs[ks[p]] == segments[ks[p]] && init[ks[p]] == texts[ks[p]];
        }
      }
    }
  }

  /**
   * The recognised words are the segments whose cleaned word is not empty,
   * in order, each carrying its cleaned word, which is non-empty and clean.
   */
  lemma RecognizedWordsClean(segments: seq<WordSegment>)
    requires RecognizedFrom(segments).Some?
    ensures forall p :: 0 <= p < |RecognizedFrom(segments).value| ==>
      RecognizedFrom(segments).value[p].word != [] && CleanWord(RecognizedFrom(segments).value[p].word) == RecognizedFrom(segments).value[p].word
  {
    var texts := SegmentTexts(segments);
    RecognizedAt(segments, texts);
    SurvivorsSpec(texts);
    forall p | 0 <= p < |RecognizedFrom(segments).value|
      ensures RecognizedFrom(segments).value[p].word != []
      ensures CleanWord(RecognizedFrom(segments).value[p].word) == RecognizedFrom(segments).value[p].word
    {
      var k := Survivors(texts)[p];
      assert k in Survivors(texts);
      MapAt(SegmentText, segments, k);
      CleanWordIdempotent(segments[k].word.GetOr([]));
    }
  }

  /** One more segment: what `Recognized` adds for the segment at position `k`. */
  lemma RecognizedSnoc(segments: seq<WordSegment>, texts: seq<string>, k: nat)
    requires |texts| == |segments| && k < |segments|
    ensures Recognized(segments[..k + 1], texts[..k + 1]) ==
      if Recognized(segments[..k], texts[..k]).None? || MissingKey(segments[k], texts[k]) then None
      else Some(Recognized(segments[..k], texts[..k]).value
                + (if texts[k] != [] then [RecognizedWord(texts[k], segments[k].start.value, segments[k].end.value, segments[k].score)] else []))
  {
    assert segments[..k + 1][..k] == segments[..k] && texts[..k + 1][..k] == texts[..k];
  }

  /**
   * `_extract_recognized_words`; a missing `word_segments` key reads as the
   * empty list, and a segment with a missing key ends it with the `KeyError`.
   */
  method ExtractRecognizedWords(wordSegments: Option<seq<WordSegment>>) returns (recognizedWords: Option<seq<RecognizedWord>>)
    ensures recognizedWords == RecognizedFrom(wordSegments.GetOr([]))
  {
    var segments := wordSegments.GetOr([]);
    ghost var texts := SegmentTexts(segments);
    var words: seq<RecognizedWord> := [];
    for k := 0 to |segments|
      invariant Recognized(segments[..k], texts[..k]) == Some(words)
    {
      RecognizedSnoc(segments, texts, k);
      MapAt(SegmentText, segments, k);
      if segments[k].word.None? {
        RecognizedPrefixFails(segments, texts, k + 1);
        return None;
      }
      var word := CleanWord(segments[k].word.value);
      assert texts[k] == word;
      if word != [] {
        if segments[k].start.None? || segments[k].end.None? {
          RecognizedPrefixFails(segments, texts, k + 1);
          return None;
        }
        words := words + [RecognizedWord(word, segments[k].start.value, segments[k].end.value, segments[k].score)];
      } else {
        assert words + [] == words;
      }
    }
    assert segments[..|segments|] == segments && texts[..|segments|] == texts;
    return Some(words);
  }

  // ---------------------------------------------------------------- reference words

  /** The non-empty words, in order. */
  function NonEmptyWords(ws: seq<string>): seq<string>
    decreases |ws|
  {
    if ws == [] then [] else (if ws[0] != [] then [ws[0]] else []) + NonEmptyWords(ws[1..])
  }

  lemma {:induction false} NonEmptyWordsSpec(ws: seq<string>)
    ensures |NonEmptyWords(ws)| <= |ws|
    ensures forall w :: w in NonEmptyWords(ws) <==> w in ws && w != []
    decreases |ws|
  {
    if ws != [] {
      NonEmptyWordsSpec(ws[1..]);
      assert forall w :: w in ws <==> w == ws[0] || w in ws[1..];
    }
  }

  /** `[w for w in [clean(w) for w in words] if w]`. */
  function CleanedWords(words: seq<string>): seq<string>
  {
    NonEmptyWords(seq(|words|, i requires 0 <= i < |words| => CleanWord(words[i])))
  }

  /** Every kept word is non-empty, clean, and the cleaning of one of the input words. */
  lemma CleanedWordsSpec(words: seq<string>)
    ensures |CleanedWords(words)| <= |words|
    ensures forall w :: w in CleanedWords(words) ==>
      w != [] && CleanWord(w) == w && exists i :: 0 <= i < |words| && w == CleanWord(words[i])
  {
    var cs := seq(|words|, i requires 0 <= i < |words| => CleanWord(words[i]));
    NonEmptyWordsSpec(cs);
    forall w | w in CleanedWords(words)
      ensures w != [] && CleanWord(w) == w && exists i :: 0 <= i < |words| && w == CleanWord(words[i])
    {
      var i :| 0 <= i < |cs| && cs[i] == w;
      CleanWordIdempotent(words[i]);
    }
  }

  /** Python truthiness of `ayah_numbers`: `None` and `[]` are both false. */
  predicate Truthy(ayahNumbers: Option<seq<int>>)
  {
    ayahNumbers.Some? && ayahNumbers.value != []
  }

  /** The ayah number of the `i`-th reference ayah: the given number, or `i + 1`. */
  function AyahIndex(ayahNumbers: Option<seq<int>>, i: nat): int
    requires Truthy(ayahNumbers) ==> i < |ayahNumbers.value|
  {
    if Truthy(ayahNumbers) then ayahNumbers.value[i] else i + 1
  }

  /** The cleaned, non-empty words of one reference ayah. */
  function AyahText(ayah: string): seq<string>
  {
    CleanedWords(Split(ayah))
  }

  /** The cleaned words of every reference ayah. */
  function AyahTexts(ayahs: seq<string>): seq<seq<string>>
  {
    Map(AyahText, ayahs)
  }

  /** The reference words of one ayah, appended after `offset` earlier words. */
  function AyahWords(words: seq<string>, ayahNumber: int, numbered: bool, offset: int): seq<ReferenceWord>
  {
    seq(|words|, k requires 0 <= k < |words| =>
      ReferenceWord(words[k], ayahNumber, if numbered then -1 else offset + k + 1, k + 1))
  }

  /** The reference words of the first `n` ayahs, given each ayah's cleaned words. */
  function ReferenceFrom(texts: seq<seq<string>>, ayahNumbers: Option<seq<int>>, n: nat): seq<ReferenceWord>
    requires n <= |texts|
    requires Truthy(ayahNumbers) ==> n <= |ayahNumbers.value|
  {
    if n == 0 then []
    else
      var prev := ReferenceFrom(texts, ayahNumbers, n - 1);
      prev + AyahWords(texts[n - 1], AyahIndex(ayahNumbers, n - 1), Truthy(ayahNumbers), |prev|)
  }

  /**
   * `_extract_reference_words`: `None` stands for the `IndexError` raised
   * when `ayah_numbers` is non-empty but shorter than the list of ayahs.
   */
  function ReferenceWordsOf(ayahs: seq<string>, ayahNumbers: Option<seq<int>>): Option<seq<ReferenceWord>>
  {
    if Truthy(ayahNumbers) && |ayahNumbers.value| < |ayahs| then None
    else Some(ReferenceFrom(AyahTexts(ayahs), ayahNumbers, |ayahs|))
  }

  /** Every word of `r` is one of the words of `texts[i]` for some `i < n`. */
  predicate AmongAyahWords(r: seq<ReferenceWord>, texts: seq<seq<string>>, n: nat)
    requires n <= |texts|
  {
    forall p {:trigger r[p]} :: 0 <= p < |r| ==> exists i :: 0 <= i < n && r[p].word in texts[i]
  }

  /** Every reference word is a word of the cleaned text of one of the ayahs. */
  lemma {:induction false} ReferenceWordsFromAyahs(texts: seq<seq<string>>, ayahNumbers: Option<seq<int>>, n: nat)
    requires n <= |texts| && (Truthy(ayahNumbers) ==> n <= |ayahNumbers.value|)
    ensures AmongAyahWords(ReferenceFrom(texts, ayahNumbers, n), texts, n)
  {
    if n > 0 {
      ReferenceWordsFromAyahs(texts, ayahNumbers, n - 1);
      var prev := ReferenceFrom(texts, ayahNumbers, n - 1);
      var r := ReferenceFrom(texts, ayahNumbers, n);
      var w := AyahWords(texts[n - 1], AyahIndex(ayahNumbers, n - 1), Truthy(ayahNumbers), |prev|);
      assert r == prev + w;
      forall p | 0 <= p < |r| ensures exists i :: 0 <= i < n && r[p].word in texts[i] {
        if p < |prev| {
          assert r[p] == prev[p];
          var i :| 0 <= i < n - 1 && prev[p].word in texts[i];
        } else {
          assert r[p] == w[p - |prev|];
          assert r[p].word == texts[n - 1][p - |prev|];
          assert r[p].word in texts[n - 1];
        }
      }
    }
  }

  /** Every reference word is non-empty and already clean. */
  lemma ReferenceWordsClean(ayahs: seq<string>, ayahNumbers: Option<seq<int>>)
    requires ReferenceWordsOf(ayahs, ayahNumbers).Some?
    ensures forall p :: 0 <= p < |ReferenceWordsOf(ayahs, ayahNumbers).value| ==>
      ReferenceWordsOf(ayahs, ayahNumbers).value[p].word != []
      && CleanWord(ReferenceWordsOf(ayahs, ayahNumbers).value[p].word) == ReferenceWordsOf(ayahs, ayahNumbers).value[p].word
  {
    var texts := AyahTexts(ayahs);
    var r := ReferenceFrom(texts, ayahNumbers, |ayahs|);
    ReferenceWordsFromAyahs(texts, ayahNumbers, |ayahs|);
    forall p | 0 <= p < |r| ensures r[p].word != [] && CleanWord(r[p].word) == r[p].word {
      var i :| 0 <= i < |ayahs| && r[p].word in texts[i];
      MapAt(AyahText, ayahs, i);
      CleanedWordsSpec(Split(ayahs[i]));
    }
  }

  /** `position_wrt_surah` of the reference word at 1-based position `p`: -1 once `ayah_numbers` is given. */
  function SurahPosition(ayahNumbers: Option<seq<int>>, p: int): int
  {
    if Truthy(ayahNumbers) then -1 else p
  }

  /**
   * `position_wrt_surah` is the 1-based position in the whole list when no
   * ayah numbers are given, and -1 when they are.
   */
  lemma {:induction false} SurahPositions(texts: seq<seq<string>>, ayahNumbers: Option<seq<int>>, n: nat)
    requires n <= |texts| && (Truthy(ayahNumbers) ==> n <= |ayahNumbers.value|)
    ensures forall p :: 0 <= p < |ReferenceFrom(texts, ayahNumbers, n)| ==>
      ReferenceFrom(texts, ayahNumbers, n)[p].positionWrtSurah == SurahPosition(ayahNumbers, p + 1)
  {
    if n > 0 {
      SurahPositions(texts, ayahNumbers, n - 1);
      var prev := ReferenceFrom(texts, ayahNumbers, n - 1);
      var r := ReferenceFrom(texts, ayahNumbers, n);
      forall p | 0 <= p < |r| ensures r[p].positionWrtSurah == SurahPosition(ayahNumbers, p + 1) {
        if p < |prev| { assert r[p] == prev[p]; }
      }
    }
  }

  lemma SliceAt<T>(s: seq<T>, a: seq<T>, b: seq<T>, k: nat)
    requires |a| + |b| <= |s| && s[..|a| + |b|] == a + b && k < |b|
    ensures s[|a| + k] == b[k]
  {
    assert s[|a| + k] == s[..|a| + |b|][|a| + k];
  }

  /** The reference words of the first `i` ayahs open the reference words of the first `n`. */
  lemma {:induction false} ReferencePrefix(texts: seq<seq<string>>, ayahNumbers: Option<seq<int>>, i: nat, n: nat)
    requires i <= n <= |texts| && (Truthy(ayahNumbers) ==> n <= |ayahNumbers.value|)
    ensures |ReferenceFrom(texts, ayahNumbers, i)| <= |ReferenceFrom(texts, ayahNumbers, n)|
    ensures ReferenceFrom(texts, ayahNumbers, n)[..|ReferenceFrom(texts, ayahNumbers, i)|] == ReferenceFrom(texts, ayahNumbers, i)
    decreases n
  {
    if i < n {
      ReferencePrefix(texts, ayahNumbers, i, n - 1);
      var prev := ReferenceFrom(texts, ayahNumbers, n - 1);
      var m := |ReferenceFrom(texts, ayahNumbers, i)|;
      assert ReferenceFrom(texts, ayahNumbers, n)[..m] == prev[..m];
    }
  }

  /**
   * The words of ayah `i` follow the words of the ayahs before it; its `k`-th
   * kept word carries that ayah's number, `position_wrt_ayah` k + 1 (the
   * count restarts at 1 in every ayah) and, without `ayah_numbers`, its
   * 1-based position among all reference words (-1 with them).
   */
  lemma {:induction false} AyahPositions(texts: seq<seq<string>>, ayahNumbers: Option<seq<int>>, n: nat, i: nat)
    requires n <= |texts| && (Truthy(ayahNumbers) ==> n <= |ayahNumbers.value|)
    requires i < n
    ensures |ReferenceFrom(texts, ayahNumbers, i)| + |texts[i]| <= |ReferenceFrom(texts, ayahNumbers, n)|
    ensures forall k :: 0 <= k < |texts[i]| ==>
      ReferenceFrom(texts, ayahNumbers, n)[|ReferenceFrom(texts, ayahNumbers, i)| + k]
      == ReferenceWord(texts[i][k], AyahIndex(ayahNumbers, i), SurahPosition(ayahNumbers, |ReferenceFrom(texts, ayahNumbers, i)| + k + 1), k + 1)
  {
    ReferencePrefix(texts, ayahNumbers, i + 1, n);
    ReferenceFromNext(texts, ayahNumbers, i);
    var all := ReferenceFrom(texts, ayahNumbers, n);
    var prev := ReferenceFrom(texts, ayahNumbers, i);
    var w := AyahWords(texts[i], AyahIndex(ayahNumbers, i), Truthy(ayahNumbers), |prev|);
    forall k | 0 <= k < |texts[i]|
      ensures all[|prev| + k] == ReferenceWord(texts[i][k], AyahIndex(ayahNumbers, i), SurahPosition(ayahNumbers, |prev| + k + 1), k + 1)
    {
      SliceAt(all, prev, w, k);
    }
  }

  /**
   * An ayah number occurs among the reference words exactly when it labels
   * an ayah that has a word left after cleaning.
   */
  lemma {:induction false} ReferenceAyahNumbers(texts: seq<seq<string>>, ayahNumbers: Option<seq<int>>, n: nat)
    requires n <= |texts| && (Truthy(ayahNumbers) ==> n <= |ayahNumbers.value|)
    ensures forall a :: a in AyahNumbers(ReferenceFrom(texts, ayahNumbers, n)) <==>
      exists i :: 0 <= i < n && AyahIndex(ayahNumbers, i) == a && texts[i] != []
  {
    if n > 0 {
      ReferenceAyahNumbers(texts, ayahNumbers, n - 1);
      var prev := ReferenceFrom(texts, ayahNumbers, n - 1);
      var b := AyahIndex(ayahNumbers, n - 1);
      var r := ReferenceFrom(texts, ayahNumbers, n);
      forall a
        ensures a in AyahNumbers(r) <==> exists i :: 0 <= i < n && AyahIndex(ayahNumbers, i) == a && texts[i] != []
      {
        if a in AyahNumbers(r) {
          var p :| 0 <= p < |r| && r[p].ayahNumber == a;
          if p < |prev| {
            assert prev[p] == r[p];
            assert a in AyahNumbers(prev);
            var i :| 0 <= i < n - 1 && AyahIndex(ayahNumbers, i) == a && texts[i] != [];
          } else {
            assert a == b;
            assert texts[n - 1] != [];
          }
        }
        if exists i :: 0 <= i < n && AyahIndex(ayahNumbers, i) == a && texts[i] != [] {
          var i :| 0 <= i < n && AyahIndex(ayahNumbers, i) == a && texts[i] != [];
          if i < n - 1 {
            assert a in AyahNumbers(prev);
            var p :| 0 <= p < |prev| && prev[p].ayahNumber == a;
            assert r[p] == prev[p];
          } else {
            assert r[|prev|].ayahNumber == a;
          }
        }
      }
    }
  }

  /** The ayah numbers the first `n` ayahs are labelled with. */
  function LabelsUpTo(ayahNumbers: Option<seq<int>>, n: nat): set<int>
    requires Truthy(ayahNumbers) ==> n <= |ayahNumbers.value|
  {
    if n == 0 then {} else LabelsUpTo(ayahNumbers, n - 1) + {AyahIndex(ayahNumbers, n - 1)}
  }

  lemma {:induction false} LabelsUpToSpec(ayahNumbers: Option<seq<int>>, n: nat)
    requires Truthy(ayahNumbers) ==> n <= |ayahNumbers.value|
    ensures |LabelsUpTo(ayahNumbers, n)| <= n
    ensures forall a :: a in LabelsUpTo(ayahNumbers, n) <==> exists i :: 0 <= i < n && AyahIndex(ayahNumbers, i) == a
  {
    if n > 0 {
      LabelsUpToSpec(ayahNumbers, n - 1);
    }
  }

  /**
   * There are no more distinct ayah numbers among the reference words than
   * there are reference ayahs, so `reference_ayahs[idx]` in
   * `_extract_ayah_timestamps` is always in range.
   */
  lemma ReferenceAyahCount(ayahs: seq<string>, ayahNumbers: Option<seq<int>>)
    requires ReferenceWordsOf(ayahs, ayahNumbers).Some?
    ensures |AyahNumbers(ReferenceWordsOf(ayahs, ayahNumbers).value)| <= |ayahs|
  {
    var n := |ayahs|;
    var texts := AyahTexts(ayahs);
    ReferenceAyahNumbers(texts, ayahNumbers, n);
    LabelsUpToSpec(ayahNumbers, n);
    var r := ReferenceFrom(texts, ayahNumbers, n);
    assert AyahNumbers(r) <= LabelsUpTo(ayahNumbers, n) by {
      forall a | a in AyahNumbers(r) ensures a in LabelsUpTo(ayahNumbers, n) {
        var i :| 0 <= i < n && AyahIndex(ayahNumbers, i) == a && texts[i] != [];
      }
    }
    SubsetCard(AyahNumbers(r), LabelsUpTo(ayahNumbers, n));
  }

  /** `_extract_reference_words`. */
  method ExtractReferenceWords(referenceAyahs: seq<string>, ayahNumbers: Option<seq<int>>)
    returns (referenceWords: Option<seq<ReferenceWord>>)
    ensures referenceWords == ReferenceWordsOf(referenceAyahs, ayahNumbers)
  {
    ghost var texts := AyahTexts(referenceAyahs);
    var words: seq<ReferenceWord> := [];
    for i := 0 to |referenceAyahs|
      invariant Truthy(ayahNumbers) ==> i <= |ayahNumbers.value|
      invariant words == ReferenceFrom(texts, ayahNumbers, i)
    {
      var ayahIdx;
      if Truthy(ayahNumbers) {
        if i >= |ayahNumbers.value| {
          return None;
        }
        ayahIdx := ayahNumbers.value[i];
      } else {
        ayahIdx := i + 1;
      }
      var ayahWords := AyahText(referenceAyahs[i]);
      MapAt(AyahText, referenceAyahs, i);
      assert ayahIdx == AyahIndex(ayahNumbers, i);
      words := AppendAyahWords(words, ayahWords, ayahIdx, Truthy(ayahNumbers));
      ReferenceFromNext(texts, ayahNumbers, i);
    }
    return Some(words);
  }

  lemma ReferenceFromNext(texts: seq<seq<string>>, ayahNumbers: Option<seq<int>>, n: nat)
    requires n < |texts|
    requires Truthy(ayahNumbers) ==> n < |ayahNumbers.value|
    ensures ReferenceFrom(texts, ayahNumbers, n + 1)
         == ReferenceFrom(texts, ayahNumbers, n)
          + AyahWords(texts[n], AyahIndex(ayahNumbers, n), Truthy(ayahNumbers), |ReferenceFrom(texts, ayahNumbers, n)|)
  {
  }

  /** The inner `enumerate(words, start=1)` loop of `_extract_reference_words`. */
  method AppendAyahWords(referenceWords: seq<ReferenceWord>, words: seq<string>, ayahIdx: int, numbered: bool)
    returns (r: seq<ReferenceWord>)
    ensures r == referenceWords + AyahWords(words, ayahIdx, numbered, |referenceWords|)
  {
    r := referenceWords;
    for wordIdx := 1 to |words| + 1
      invariant r == referenceWords + AyahWords(words[..wordIdx - 1], ayahIdx, numbered, |referenceWords|)
    {
      var word := ReferenceWord(words[wordIdx - 1], ayahIdx, if numbered then -1 else |r| + 1, wordIdx);
      assert AyahWords(words[..wordIdx], ayahIdx, numbered, |referenceWords|)
          == AyahWords(words[..wordIdx - 1], ayahIdx, numbered, |referenceWords|) + [word];
      r := r + [word];
    }
    assert words[..|words|] == words;
  }

  // ---------------------------------------------------------------- the pipeline

  /** The alignment `match_ayahs` computes: the traceback of the filled back matrix. */
  function AlignmentOf(recognized: seq<RecognizedWord>, reference: seq<ReferenceWord>): (r: seq<Step>)
    ensures WellIndexed(r, |recognized|, |reference|)
  {
    var a := RecognizedTexts(recognized);
    var b := ReferenceTexts(reference);
    TraceIsCheapestPath(a, b, |a|, |b|);
    PathIsWellIndexed(a, b, Trace(BackMatrix(a, b), |a|, |b|));
    Trace(BackMatrix(a, b), |a|, |b|)
  }

  /**
   * `match_ayahs` as a function of its inputs; `None` is the `KeyError` of
   * the recognised words or the `IndexError` of the reference extraction.
   */
  function MatchAyahsOf(wordSegments: Option<seq<WordSegment>>, referenceAyahs: seq<string>,
                        ayahNumbers: Option<seq<int>>): Option<MatchedAyahsAndSpans>
  {
    var recognized := RecognizedFrom(wordSegments.GetOr([]));
    var reference := ReferenceWordsOf(referenceAyahs, ayahNumbers);
    if recognized.None? || reference.None? then None
    else
      var spans := WordSpansOf(AlignmentOf(recognized.value, reference.value), recognized.value, reference.value, 0);
      ReferenceAyahCount(referenceAyahs, ayahNumbers);
      Some(MatchedAyahsAndSpans(AyahTimestampsOf(spans, reference.value, referenceAyahs), spans))
  }

  /** `match_ayahs` (without the logging and the optional JSON dumps). */
  method MatchAyahs(wordSegments: Option<seq<WordSegment>>, referenceAyahs: seq<string>, ayahNumbers: Option<seq<int>>)
    returns (result: Option<MatchedAyahsAndSpans>)
    ensures result == MatchAyahsOf(wordSegments, referenceAyahs, ayahNumbers)
  {
    var recognized := ExtractRecognizedWords(wordSegments);
    if recognized.None? {
      return None;
    }
    var recognizedWords := recognized.value;
    var extracted := ExtractReferenceWords(referenceAyahs, ayahNumbers);
    if extracted.None? {
      return None;
    }
    var referenceWords := extracted.value;
    var costMatrix, backMatrix := ComputeAlignmentMatrices(recognizedWords, referenceWords);
    var alignmentWithOps := Traceback(backMatrix);
    assert alignmentWithOps == AlignmentOf(recognizedWords, referenceWords);
    var wordSpans := ConvertToWordSpans(alignmentWithOps, recognizedWords, referenceWords, 0);
    ReferenceAyahCount(referenceAyahs, ayahNumbers);
    var ayahTimestamps := ExtractAyahTimestamps(wordSpans, referenceWords, referenceAyahs);
    return Some(MatchedAyahsAndSpans(ayahTimestamps, wordSpans));
  }

  /**
   * `match_ayahs` fails exactly when a segment has a missing key, or when a
   * truthy `ayah_numbers` is shorter than the list of ayahs.
   */
  lemma MatchAyahsFails(wordSegments: Option<seq<WordSegment>>, referenceAyahs: seq<string>, ayahNumbers: Option<seq<int>>)
    ensures MatchAyahsOf(wordSegments, referenceAyahs, ayahNumbers).None? <==>
      (exists k :: 0 <= k < |wordSegments.GetOr([])|
         && MissingKey(wordSegments.GetOr([])[k], CleanWord(wordSegments.GetOr([])[k].word.GetOr([]))))
      || (Truthy(ayahNumbers) && |ayahNumbers.value| < |referenceAyahs|)
  {
    RecognizedFromFails(wordSegments.GetOr([]));
  }

  // ---------------------------------------------------------------- properties of the result

  /** The computed alignment is an edit path that no other edit path undercuts. */
  lemma AlignmentIsOptimal(recognized: seq<RecognizedWord>, reference: seq<ReferenceWord>, other: seq<Step>)
    requires IsPath(RecognizedTexts(recognized), ReferenceTexts(reference), other, |recognized|, |reference|)
    ensures IsPath(RecognizedTexts(recognized), ReferenceTexts(reference), AlignmentOf(recognized, reference),
                   |recognized|, |reference|)
    ensures PathCost(AlignmentOf(recognized, reference)) <= PathCost(other)
  {
    TracebackIsOptimal(RecognizedTexts(recognized), ReferenceTexts(reference), other);
  }

  /** A span of the result is flagged exact exactly when its recognised and reference words are equal. */
  lemma MatchedSpansExactIffSameWord(wordSegments: Option<seq<WordSegment>>, referenceAyahs: seq<string>,
                                     ayahNumbers: Option<seq<int>>)
    requires MatchAyahsOf(wordSegments, referenceAyahs, ayahNumbers).Some?
    ensures forall p :: 0 <= p < |MatchAyahsOf(wordSegments, referenceAyahs, ayahNumbers).value.wordSpans| ==>
      (MatchAyahsOf(wordSegments, referenceAyahs, ayahNumbers).value.wordSpans[p].flagsInfo.exact
       <==> MatchAyahsOf(wordSegments, referenceAyahs, ayahNumbers).value.wordSpans[p].inputWordsSegment
            == MatchAyahsOf(wordSegments, referenceAyahs, ayahNumbers).value.wordSpans[p].referenceWordsSegment)
  {
    var recognized := RecognizedFrom(wordSegments.GetOr([])).value;
    var reference := ReferenceWordsOf(referenceAyahs, ayahNumbers).value;
    var alignment := AlignmentOf(recognized, reference);
    TraceIsCheapestPath(RecognizedTexts(recognized), ReferenceTexts(reference), |recognized|, |reference|);
    PathIsLabelled(recognized, reference, alignment);
    ExactIffSameWord(alignment, recognized, reference, 0);
  }

  /** The forward (not rematched) spans of the result have strictly increasing reference positions. */
  lemma MatchedForwardSpansIncrease(wordSegments: Option<seq<WordSegment>>, referenceAyahs: seq<string>,
                                    ayahNumbers: Option<seq<int>>)
    requires MatchAyahsOf(wordSegments, referenceAyahs, ayahNumbers).Some?
    ensures forall p, q :: 0 <= p < q < |Forward(MatchAyahsOf(wordSegments, referenceAyahs, ayahNumbers).value.wordSpans)| ==>
      Forward(MatchAyahsOf(wordSegments, referenceAyahs, ayahNumbers).value.wordSpans)[p].referenceIndexStart
      < Forward(MatchAyahsOf(wordSegments, referenceAyahs, ayahNumbers).value.wordSpans)[q].referenceIndexStart
  {
    var recognized := RecognizedFrom(wordSegments.GetOr([])).value;
    var reference := ReferenceWordsOf(referenceAyahs, ayahNumbers).value;
    var alignment := AlignmentOf(recognized, reference);
    TraceIsCheapestPath(RecognizedTexts(recognized), ReferenceTexts(reference), |recognized|, |reference|);
    PathColumnsIncrease(RecognizedTexts(recognized), ReferenceTexts(reference), alignment, |recognized|, |reference|);
    ForwardSpansAreDiagonal(alignment, recognized, reference, 0);
    DiagonalSpansIncrease(alignment, recognized, reference);
  }

  /**
   * With no look-back ayahs, a rematched word of the result is found at or
   * before the latest forward match, within that match's ayah.
   */
  lemma MatchedRematchesInAyah(wordSegments: Option<seq<WordSegment>>, referenceAyahs: seq<string>,
                               ayahNumbers: Option<seq<int>>)
    requires MatchAyahsOf(wordSegments, referenceAyahs, ayahNumbers).Some?
    ensures RematchesInWindow(MatchAyahsOf(wordSegments, referenceAyahs, ayahNumbers).value.wordSpans,
                              ReferenceWordsOf(referenceAyahs, ayahNumbers).value, 0)
  {
    var recognized := RecognizedFrom(wordSegments.GetOr([])).value;
    var reference := ReferenceWordsOf(referenceAyahs, ayahNumbers).value;
    RematchWindow(AlignmentOf(recognized, reference), recognized, reference, 0);
  }

  /**
   * The ayah timestamps of the result are in increasing ayah order and each
   * spans exactly the word spans that touch its ayah's reference words.
   */
  lemma MatchedTimestamps(wordSegments: Option<seq<WordSegment>>, referenceAyahs: seq<string>,
                          ayahNumbers: Option<seq<int>>)
    requires MatchAyahsOf(wordSegments, referenceAyahs, ayahNumbers).Some?
    ensures StrictlyIncreasing(Numbers(MatchAyahsOf(wordSegments, referenceAyahs, ayahNumbers).value.ayahTimestamps))
    ensures Faithful(MatchAyahsOf(wordSegments, referenceAyahs, ayahNumbers).value.wordSpans,
                     ReferenceWordsOf(referenceAyahs, ayahNumbers).value,
                     MatchAyahsOf(wordSegments, referenceAyahs, ayahNumbers).value.ayahTimestamps)
  {
    var m := MatchAyahsOf(wordSegments, referenceAyahs, ayahNumbers).value;
    var reference := ReferenceWordsOf(referenceAyahs, ayahNumbers).value;
    ReferenceAyahCount(referenceAyahs, ayahNumbers);
    AyahTimestampsOrdered(m.wordSpans, reference, referenceAyahs);
    AyahTimestampsFaithful(m.wordSpans, reference, referenceAyahs);
  }
}
