/**
 * The consecutive-match scan of the range detector: each transcribed word is
 * looked up in the inverted word index, and neighbouring occurrences are
 * chained into runs. Up to a bounded number of unknown words in a row are
 * bridged by synthetic matches that continue the run.
 */
module WordMatching {
  import opened Common
  import opened Models

  /** One entry of the word index: where a word occurs in the Quran. */
  datatype Occurrence = Occurrence(surah: int, ayah: int, positionWrtSurah: int, positionWrtQuran: int)

  /** The inverted word index: a cleaned word and its occurrences. */
  type WordIndex = map<string, seq<Occurrence>>

  /** `word_index.get(word, [])` */
  function Lookup(index: WordIndex, word: string): seq<Occurrence>
  {
    if word in index then index[word] else []
  }

  /** `target_surah` is truthy: None and 0 both mean "search every surah". */
  predicate Restricted(target: Option<int>)
  {
    target.Some? && target.value != 0
  }

  predicate InScope(occ: Occurrence, target: Option<int>)
  {
    !Restricted(target) || occ.surah == target.value
  }

  function MatchOf(occ: Occurrence, word: string): WordMatch
  {
    WordMatch(occ.surah, occ.ayah, occ.positionWrtSurah, word)
  }

  /** The `matches_for_word` comprehension over a list of occurrences. */
  function ScopedMatches(occs: seq<Occurrence>, word: string, target: Option<int>): (r: seq<WordMatch>)
    ensures |r| <= |occs|
    decreases |occs|
  {
    if occs == [] then []
    else
      var rest := ScopedMatches(occs[..|occs| - 1], word, target);
      if InScope(occs[|occs| - 1], target) then rest + [MatchOf(occs[|occs| - 1], word)] else rest
  }

  /** The matches of one transcribed word in the searched scope, in index order. */
  function MatchesForWord(index: WordIndex, word: string, target: Option<int>): seq<WordMatch>
  {
    ScopedMatches(Lookup(index, word), word, target)
  }

  /** A match is produced exactly by an in-scope occurrence of the word. */
  lemma {:induction false} ScopedMatchesSpec(occs: seq<Occurrence>, word: string, target: Option<int>, m: WordMatch)
    ensures m in ScopedMatches(occs, word, target) <==>
      exists k :: 0 <= k < |occs| && InScope(occs[k], target) && m == MatchOf(occs[k], word)
    decreases |occs|
  {
    if occs != [] {
      var n := |occs| - 1;
      var init := occs[..n];
      ScopedMatchesSpec(init, word, target, m);
      if m in ScopedMatches(occs, word, target) {
        if m in ScopedMatches(init, word, target) {
          var k :| 0 <= k < n && InScope(init[k], target) && m == MatchOf(init[k], word);
          assert init[k] == occs[k];
        } else {
          assert InScope(occs[n], target) && m == MatchOf(occs[n], word);
        }
      }
      if exists k :: 0 <= k < |occs| && InScope(occs[k], target) && m == MatchOf(occs[k], word) {
        var k :| 0 <= k < |occs| && InScope(occs[k], target) && m == MatchOf(occs[k], word);
        if k < n {
          assert init[k] == occs[k];
        }
      }
    }
  }

  /** No match at all exactly when no occurrence of the word is in scope. */
  lemma {:induction false} ScopedMatchesEmpty(occs: seq<Occurrence>, word: string, target: Option<int>)
    ensures ScopedMatches(occs, word, target) == [] <==> forall k :: 0 <= k < |occs| ==> !InScope(occs[k], target)
    decreases |occs|
  {
    if occs != [] {
      var n := |occs| - 1;
      ScopedMatchesEmpty(occs[..n], word, target);
      if !InScope(occs[n], target) {
        forall k | 0 <= k < n ensures occs[k] == occs[..n][k] { }
      }
    }
  }

  /** Every match carries the looked-up word and, when restricted, the target surah. */
  lemma MatchesForWordMembers(index: WordIndex, word: string, target: Option<int>, m: WordMatch)
    requires m in MatchesForWord(index, word, target)
    ensures m.word == word
    ensures Restricted(target) ==> m.surah == target.value
  {
    ScopedMatchesSpec(Lookup(index, word), word, target, m);
  }

  /** `abs(m.position_wrt_surah - last.position_wrt_surah)` */
  function Distance(m: WordMatch, last: WordMatch): nat
  {
    if m.positionWrtSurah >= last.positionWrtSurah then m.positionWrtSurah - last.positionWrtSurah
    else last.positionWrtSurah - m.positionWrtSurah
  }

  /** A candidate continuation: same surah and ayah, at most two positions away. */
  predicate Near(m: WordMatch, last: WordMatch)
  {
    m.surah == last.surah && m.ayah == last.ayah && Distance(m, last) <= 2
  }

  /** The `candidates` comprehension of `find_best_continuation`. */
  function Candidates(ms: seq<WordMatch>, last: WordMatch): (r: seq<WordMatch>)
    ensures |r| <= |ms|
    decreases |ms|
  {
    if ms == [] then []
    else
      var rest := Candidates(ms[..|ms| - 1], last);
      if Near(ms[|ms| - 1], last) then rest + [ms[|ms| - 1]] else rest
  }

  /** Python's `min(candidates, key=distance)`: a later candidate wins only when strictly closer. */
  function Closest(cs: seq<WordMatch>, last: WordMatch): WordMatch
    requires cs != []
    decreases |cs|
  {
    if |cs| == 1 then cs[0]
    else
      var best := Closest(cs[..|cs| - 1], last);
      if Distance(cs[|cs| - 1], last) < Distance(best, last) then cs[|cs| - 1] else best
  }

  /** `find_best_continuation` */
  function BestContinuation(ms: seq<WordMatch>, last: WordMatch): Option<WordMatch>
  {
    var cs := Candidates(ms, last);
    if cs == [] then None else Some(Closest(cs, last))
  }

  /** Appending one match to the list updates the continuation as a left-to-right scan would. */
  lemma BestContinuationSnoc(ms: seq<WordMatch>, m: WordMatch, last: WordMatch)
    ensures BestContinuation(ms + [m], last) ==
      if !Near(m, last) then BestContinuation(ms, last)
      else if BestContinuation(ms, last).None? || Distance(m, last) < Distance(BestContinuation(ms, last).value, last)
      then Some(m)
      else BestContinuation(ms, last)
  {
    assert (ms + [m])[..|ms|] == ms;
    var cs := Candidates(ms, last);
    if Near(m, last) && cs != [] {
      assert (cs + [m])[..|cs|] == cs;
    }
  }

  /**
   * `ms[i]` is the continuation `min` picks: a candidate, strictly closer than
   * every earlier candidate and no farther than every later one.
   */
  predicate FirstClosestAt(ms: seq<WordMatch>, last: WordMatch, i: int)
  {
    && 0 <= i < |ms|
    && Near(ms[i], last)
    && (forall k :: 0 <= k < i && Near(ms[k], last) ==> Distance(ms[i], last) < Distance(ms[k], last))
    && (forall k :: i <= k < |ms| && Near(ms[k], last) ==> Distance(ms[i], last) <= Distance(ms[k], last))
  }

  /** There is no continuation exactly when no match is near; otherwise it is the first closest one. */
  lemma {:induction false} BestContinuationSpec(ms: seq<WordMatch>, last: WordMatch)
    ensures BestContinuation(ms, last).None? <==> forall k :: 0 <= k < |ms| ==> !Near(ms[k], last)
    ensures BestContinuation(ms, last).Some? ==>
      exists i :: FirstClosestAt(ms, last, i) && ms[i] == BestContinuation(ms, last).value
    decreases |ms|
  {
    if ms != [] {
      var n := |ms| - 1;
      var init, m := ms[..n], ms[n];
      assert ms == init + [m];
      BestContinuationSpec(init, last);
      BestContinuationSnoc(init, m, last);
      var b := BestContinuation(init, last);
      forall k | 0 <= k < n ensures ms[k] == init[k] { }
      if !Near(m, last) {
        if b.Some? {
          var i :| FirstClosestAt(init, last, i) && init[i] == b.value;
          assert FirstClosestAt(ms, last, i);
        }
      } else if b.None? || Distance(m, last) < Distance(b.value, last) {
        if b.Some? {
          var i :| FirstClosestAt(init, last, i) && init[i] == b.value;
          forall k | 0 <= k < n && Near(ms[k], last) ensures Distance(m, last) < Distance(ms[k], last) {
            if k < i {
              assert Distance(init[i], last) < Distance(init[k], last);
            } else {
              assert Distance(init[i], last) <= Distance(init[k], last);
            }
          }
        }
        assert FirstClosestAt(ms, last, n);
      } else {
        var i :| FirstClosestAt(init, last, i) && init[i] == b.value;
        assert FirstClosestAt(ms, last, i);
      }
    }
  }

  /** The scan's state: saved runs, the run being built, and the unmatched-word counter. */
  datatype ScanState = ScanState(saved: seq<seq<WordMatch>>, current: seq<WordMatch>, unmatched: int)

  /** The inner `save_sequence`: a run of fewer than two matches is dropped. */
  function SaveSequence(run: seq<WordMatch>, sequences: seq<seq<WordMatch>>): seq<seq<WordMatch>>
  {
    if |run| >= 2 then sequences + [run] else sequences
  }

  /** The synthetic match an unknown word gets: one position after the last match. */
  function Synthetic(last: WordMatch, word: string): WordMatch
  {
    WordMatch(last.surah, last.ayah, last.positionWrtSurah + 1, word)
  }

  /** One iteration of the scan loop over the transcribed words. */
  function Step(index: WordIndex, target: Option<int>, maxUnmatched: int, st: ScanState, word: string): ScanState
  {
    var ms := MatchesForWord(index, word, target);
    if ms == [] then
      if st.current != [] && st.unmatched < maxUnmatched then
        ScanState(st.saved, st.current + [Synthetic(st.current[|st.current| - 1], word)], st.unmatched + 1)
      else
        ScanState(SaveSequence(st.current, st.saved), [], 0)
    else if st.current != [] && BestContinuation(ms, st.current[|st.current| - 1]).Some? then
      ScanState(st.saved, st.current + [BestContinuation(ms, st.current[|st.current| - 1]).value], 0)
    else if st.current != [] then
      ScanState(SaveSequence(st.current, st.saved), [ms[0]], 0)
    else
      ScanState(st.saved, [ms[0]], 0)
  }

  /** The scan state after the given words. */
  function ScanWords(index: WordIndex, target: Option<int>, maxUnmatched: int, words: seq<string>): ScanState
    decreases |words|
  {
    if words == [] then ScanState([], [], 0)
    else Step(index, target, maxUnmatched, ScanWords(index, target, maxUnmatched, words[..|words| - 1]), words[|words| - 1])
  }

  /** The sort key `(-len(seq), seq[0].surah, seq[0].ayah, seq[0].position_wrt_surah)`. */
  datatype SortKey = SortKey(negLength: int, surah: int, ayah: int, position: int)

  /** The key of a run; saved runs are never empty, so the fallback is never used. */
  function KeyOf(run: seq<WordMatch>): SortKey
  {
    if run == [] then SortKey(0, 0, 0, 0)
    else SortKey(-|run|, run[0].surah, run[0].ayah, run[0].positionWrtSurah)
  }

  /** Lexicographic tuple comparison `a <= b`. */
  predicate KeyLe(a: SortKey, b: SortKey)
  {
    if a.negLength != b.negLength then a.negLength < b.negLength
    else if a.surah != b.surah then a.surah < b.surah
    else if a.ayah != b.ayah then a.ayah < b.ayah
    else a.position <= b.position
  }

  predicate SortedByKey(ss: seq<seq<WordMatch>>)
  {
    forall i, j :: 0 <= i < j < |ss| ==> KeyLe(KeyOf(ss[i]), KeyOf(ss[j]))
  }

  /** Inserts `run` after every element whose key is not greater (so equal keys keep their order). */
  function Insert(sorted: seq<seq<WordMatch>>, run: seq<WordMatch>): (r: seq<seq<WordMatch>>)
    ensures |r| == |sorted| + 1
    decreases |sorted|
  {
    if sorted == [] then [run]
    else if KeyLe(KeyOf(sorted[|sorted| - 1]), KeyOf(run)) then sorted + [run]
    else Insert(sorted[..|sorted| - 1], run) + [sorted[|sorted| - 1]]
  }

  /** Python's stable `list.sort(key=...)` on the saved runs. */
  function SortRuns(ss: seq<seq<WordMatch>>): (r: seq<seq<WordMatch>>)
    ensures |r| == |ss|
    decreases |ss|
  {
    if ss == [] then [] else Insert(SortRuns(ss[..|ss| - 1]), ss[|ss| - 1])
  }

  lemma {:induction false} InsertSpec(sorted: seq<seq<WordMatch>>, run: seq<WordMatch>)
    requires SortedByKey(sorted)
    ensures multiset(Insert(sorted, run)) == multiset(sorted) + multiset{run}
    ensures SortedByKey(Insert(sorted, run))
    decreases |sorted|
  {
    if sorted != [] {
      var n := |sorted| - 1;
      var init, last := sorted[..n], sorted[n];
      assert sorted == init + [last];
      if KeyLe(KeyOf(last), KeyOf(run)) {
        AppendSorted(sorted, run);
      } else {
        assert SortedByKey(init);
        InsertSpec(init, run);
        InsertBeforeLast(init, last, run, Insert(init, run));
      }
    }
  }

  /** A run whose key is not below the last one's goes at the end. */
  lemma AppendSorted(sorted: seq<seq<WordMatch>>, run: seq<WordMatch>)
    requires SortedByKey(sorted) && sorted != [] && KeyLe(KeyOf(sorted[|sorted| - 1]), KeyOf(run))
    ensures SortedByKey(sorted + [run])
  {
    var r := sorted + [run];
    forall i, j | 0 <= i < j < |r| ensures KeyLe(KeyOf(r[i]), KeyOf(r[j])) {
      if j == |sorted| {
        KeyLeTrans(KeyOf(sorted[i]), KeyOf(sorted[|sorted| - 1]), KeyOf(run));
      }
    }
  }

  /** A run whose key is below the last one's is inserted before it. */
  lemma InsertBeforeLast(init: seq<seq<WordMatch>>, last: seq<WordMatch>, run: seq<WordMatch>, ins: seq<seq<WordMatch>>)
    requires SortedByKey(init + [last]) && !KeyLe(KeyOf(last), KeyOf(run))
    requires SortedByKey(ins) && multiset(ins) == multiset(init) + multiset{run}
    ensures SortedByKey(ins + [last])
  {
    var sorted := init + [last];
    var r := ins + [last];
    forall i, j | 0 <= i < j < |r| ensures KeyLe(KeyOf(r[i]), KeyOf(r[j])) {
      if j == |ins| {
        assert r[i] == ins[i] && r[j] == last;
        assert r[i] in multiset(ins);
        if r[i] != run {
          assert r[i] in multiset(init);
          var k :| 0 <= k < |init| && init[k] == r[i];
          assert sorted[k] == r[i] && sorted[|init|] == last;
        }
      } else {
        assert r[i] == ins[i] && r[j] == ins[j];
      }
    }
  }

  lemma KeyLeTrans(a: SortKey, b: SortKey, c: SortKey)
    requires KeyLe(a, b) && KeyLe(b, c)
    ensures KeyLe(a, c)
  {
  }

  /** The sort returns a key-ordered permutation of its input. */
  lemma {:induction false} SortRunsSpec(ss: seq<seq<WordMatch>>)
    ensures SortedByKey(SortRuns(ss))
    ensures multiset(SortRuns(ss)) == multiset(ss)
    decreases |ss|
  {
    if ss != [] {
      var n := |ss| - 1;
      var init, sortedInit := ss[..n], SortRuns(ss[..n]);
      SortRunsSpec(init);
      assert SortRuns(ss) == Insert(sortedInit, ss[n]);
      InsertSpec(sortedInit, ss[n]);
      assert ss == init + [ss[n]];
      assert multiset(ss) == multiset(init) + multiset{ss[n]};
    }
  }

  /** `_find_consecutive_matches`: the saved runs, longest first. */
  function ConsecutiveMatches(index: WordIndex, words: seq<string>, target: Option<int>, maxUnmatched: int): seq<seq<WordMatch>>
  {
    var st := ScanWords(index, target, maxUnmatched, words);
    SortRuns(SaveSequence(st.current, st.saved))
  }

  /** A match made up for a word that has no match in scope. */
  predicate IsSynthetic(index: WordIndex, target: Option<int>, m: WordMatch)
  {
    MatchesForWord(index, m.word, target) == []
  }

  /** How `m` may follow `prev` in a run: as its synthetic successor or as its best continuation. */
  predicate Linked(index: WordIndex, target: Option<int>, prev: WordMatch, m: WordMatch)
  {
    if IsSynthetic(index, target, m) then m == Synthetic(prev, m.word)
    else BestContinuation(MatchesForWord(index, m.word, target), prev) == Some(m)
  }

  /** The number of synthetic matches at the end of a run. */
  function TrailingSynthetic(index: WordIndex, target: Option<int>, run: seq<WordMatch>): nat
    decreases |run|
  {
    if run == [] || !IsSynthetic(index, target, run[|run| - 1]) then 0
    else 1 + TrailingSynthetic(index, target, run[..|run| - 1])
  }

  /**
   * A run the scan may build: it starts with a real match, each later match is
   * linked to its predecessor, and no stretch of synthetic matches is longer
   * than `maxUnmatched`.
   */
  predicate ValidRun(index: WordIndex, target: Option<int>, maxUnmatched: int, run: seq<WordMatch>)
  {
    && run != []
    && run[0] in MatchesForWord(index, run[0].word, target)
    && (forall p :: 0 < p < |run| ==> Linked(index, target, run[p - 1], run[p]))
    && (forall p :: 0 < p <= |run| ==>
          TrailingSynthetic(index, target, run[..p]) == 0 || TrailingSynthetic(index, target, run[..p]) <= maxUnmatched)
  }

  predicate ScanOk(index: WordIndex, target: Option<int>, maxUnmatched: int, st: ScanState)
  {
    && (forall k :: 0 <= k < |st.saved| ==> |st.saved[k]| >= 2 && ValidRun(index, target, maxUnmatched, st.saved[k]))
    && (st.current == [] ==> st.unmatched == 0)
    && (st.current != [] ==>
          ValidRun(index, target, maxUnmatched, st.current) && st.unmatched == TrailingSynthetic(index, target, st.current))
  }

  lemma SaveSequenceOk(index: WordIndex, target: Option<int>, maxUnmatched: int, st: ScanState)
    requires ScanOk(index, target, maxUnmatched, st)
    ensures forall k :: 0 <= k < |SaveSequence(st.current, st.saved)| ==>
      |SaveSequence(st.current, st.saved)[k]| >= 2 && ValidRun(index, target, maxUnmatched, SaveSequence(st.current, st.saved)[k])
  {
  }

  /** Appending a match to a valid run leaves its prefixes as they were. */
  lemma ExtendRun(index: WordIndex, target: Option<int>, maxUnmatched: int, run: seq<WordMatch>, m: WordMatch)
    requires ValidRun(index, target, maxUnmatched, run)
    requires Linked(index, target, run[|run| - 1], m)
    requires TrailingSynthetic(index, target, run + [m]) == 0 || TrailingSynthetic(index, target, run + [m]) <= maxUnmatched
    ensures ValidRun(index, target, maxUnmatched, run + [m])
  {
    var r := run + [m];
    assert r[0] == run[0];
    forall p | 0 < p < |r| ensures Linked(index, target, r[p - 1], r[p]) {
      if p < |run| {
        assert r[p - 1] == run[p - 1] && r[p] == run[p];
      }
    }
    forall p | 0 < p <= |r|
      ensures TrailingSynthetic(index, target, r[..p]) == 0 || TrailingSynthetic(index, target, r[..p]) <= maxUnmatched
    {
      if p <= |run| {
        assert r[..p] == run[..p];
      } else {
        assert r[..p] == r;
      }
    }
  }

  /** One scan step keeps the scan state well formed. */
  lemma StepOk(index: WordIndex, target: Option<int>, maxUnmatched: int, st: ScanState, word: string)
    requires ScanOk(index, target, maxUnmatched, st)
    ensures ScanOk(index, target, maxUnmatched, Step(index, target, maxUnmatched, st, word))
  {
    if MatchesForWord(index, word, target) == [] {
      StepUnmatchedOk(index, target, maxUnmatched, st, word);
    } else {
      StepMatchedOk(index, target, maxUnmatched, st, word);
    }
  }

  lemma StepUnmatchedOk(index: WordIndex, target: Option<int>, maxUnmatched: int, st: ScanState, word: string)
    requires ScanOk(index, target, maxUnmatched, st)
    requires MatchesForWord(index, word, target) == []
    ensures ScanOk(index, target, maxUnmatched, Step(index, target, maxUnmatched, st, word))
  {
    var c := st.current;
    if c != [] && st.unmatched < maxUnmatched {
      var m := Synthetic(c[|c| - 1], word);
      assert IsSynthetic(index, target, m);
      assert (c + [m])[..|c|] == c;
      ExtendRun(index, target, maxUnmatched, c, m);
    } else {
      SaveSequenceOk(index, target, maxUnmatched, st);
    }
  }

  lemma StepMatchedOk(index: WordIndex, target: Option<int>, maxUnmatched: int, st: ScanState, word: string)
    requires ScanOk(index, target, maxUnmatched, st)
    requires MatchesForWord(index, word, target) != []
    ensures ScanOk(index, target, maxUnmatched, Step(index, target, maxUnmatched, st, word))
  {
    var ms := MatchesForWord(index, word, target);
    var c := st.current;
    if c != [] && BestContinuation(ms, c[|c| - 1]).Some? {
      var m := BestContinuation(ms, c[|c| - 1]).value;
      BestContinuationSpec(ms, c[|c| - 1]);
      var i :| FirstClosestAt(ms, c[|c| - 1], i) && ms[i] == m;
      MatchesForWordMembers(index, word, target, m);
      ContinueOk(index, target, maxUnmatched, st, m);
    } else {
      MatchesForWordMembers(index, word, target, ms[0]);
      RestartOk(index, target, maxUnmatched, st, ms[0]);
    }
  }

  /** A real best continuation extends the current run and clears the unmatched count. */
  lemma ContinueOk(index: WordIndex, target: Option<int>, maxUnmatched: int, st: ScanState, m: WordMatch)
    requires ScanOk(index, target, maxUnmatched, st) && st.current != []
    requires MatchesForWord(index, m.word, target) != []
    requires BestContinuation(MatchesForWord(index, m.word, target), st.current[|st.current| - 1]) == Some(m)
    ensures ScanOk(index, target, maxUnmatched, ScanState(st.saved, st.current + [m], 0))
  {
    var c := st.current;
    assert (c + [m])[..|c|] == c;
    assert TrailingSynthetic(index, target, c + [m]) == 0;
    ExtendRun(index, target, maxUnmatched, c, m);
  }

  /** A real match with no continuation starts a new run, saving the current one. */
  lemma RestartOk(index: WordIndex, target: Option<int>, maxUnmatched: int, st: ScanState, m: WordMatch)
    requires ScanOk(index, target, maxUnmatched, st)
    requires m in MatchesForWord(index, m.word, target)
    ensures ScanOk(index, target, maxUnmatched, ScanState(SaveSequence(st.current, st.saved), [m], 0))
    ensures ScanOk(index, target, maxUnmatched, ScanState(st.saved, [m], 0))
  {
    var r := [m];
    assert r[..1] == r;
    assert ValidRun(index, target, maxUnmatched, r);
    SaveSequenceOk(index, target, maxUnmatched, st);
  }

  lemma {:induction false} ScanWordsOk(index: WordIndex, target: Option<int>, maxUnmatched: int, words: seq<string>)
    ensures ScanOk(index, target, maxUnmatched, ScanWords(index, target, maxUnmatched, words))
    decreases |words|
  {
    if words != [] {
      ScanWordsOk(index, target, maxUnmatched, words[..|words| - 1]);
      StepOk(index, target, maxUnmatched, ScanWords(index, target, maxUnmatched, words[..|words| - 1]), words[|words| - 1]);
    }
  }

  /** Every returned run has a first match. */
  lemma ConsecutiveMatchesNonEmpty(index: WordIndex, words: seq<string>, target: Option<int>, maxUnmatched: int)
    ensures forall k :: 0 <= k < |ConsecutiveMatches(index, words, target, maxUnmatched)| ==>
      ConsecutiveMatches(index, words, target, maxUnmatched)[k] != []
  {
    ConsecutiveMatchesSpec(index, words, target, maxUnmatched);
  }

  /**
   * Every returned run has at least two matches and is a valid run; the runs
   * are ordered by the sort key and are exactly the runs the scan saved.
   */
  lemma ConsecutiveMatchesSpec(index: WordIndex, words: seq<string>, target: Option<int>, maxUnmatched: int)
    ensures forall k :: 0 <= k < |ConsecutiveMatches(index, words, target, maxUnmatched)| ==>
      |ConsecutiveMatches(index, words, target, maxUnmatched)[k]| >= 2
      && ValidRun(index, target, maxUnmatched, ConsecutiveMatches(index, words, target, maxUnmatched)[k])
    ensures SortedByKey(ConsecutiveMatches(index, words, target, maxUnmatched))
    ensures multiset(ConsecutiveMatches(index, words, target, maxUnmatched)) ==
      multiset(SaveSequence(ScanWords(index, target, maxUnmatched, words).current, ScanWords(index, target, maxUnmatched, words).saved))
  {
    var st := ScanWords(index, target, maxUnmatched, words);
    ScanWordsOk(index, target, maxUnmatched, words);
    var saved := SaveSequence(st.current, st.saved);
    SaveSequenceOk(index, target, maxUnmatched, st);
    SortRunsSpec(saved);
    ValidRunsPermuted(index, target, maxUnmatched, saved, SortRuns(saved));
  }

  /** A reordering of valid runs of length at least two holds only such runs. */
  lemma ValidRunsPermuted(index: WordIndex, target: Option<int>, maxUnmatched: int, saved: seq<seq<WordMatch>>, r: seq<seq<WordMatch>>)
    requires forall k :: 0 <= k < |saved| ==> |saved[k]| >= 2 && ValidRun(index, target, maxUnmatched, saved[k])
    requires multiset(r) == multiset(saved)
    ensures forall k :: 0 <= k < |r| ==> |r[k]| >= 2 && ValidRun(index, target, maxUnmatched, r[k])
  {
    forall k | 0 <= k < |r| ensures |r[k]| >= 2 && ValidRun(index, target, maxUnmatched, r[k]) {
      assert r[k] in multiset(saved);
      var j :| 0 <= j < |saved| && saved[j] == r[k];
    }
  }

  /**
   * A linked match stays in its predecessor's surah and ayah; a real one is at
   * most two positions away, a synthetic one exactly one position on.
   */
  lemma LinkedFacts(index: WordIndex, target: Option<int>, prev: WordMatch, m: WordMatch)
    requires Linked(index, target, prev, m)
    ensures m.surah == prev.surah && m.ayah == prev.ayah
    ensures IsSynthetic(index, target, m) ==> m.positionWrtSurah == prev.positionWrtSurah + 1
    ensures !IsSynthetic(index, target, m) ==> Distance(m, prev) <= 2
  {
    if !IsSynthetic(index, target, m) {
      var ms := MatchesForWord(index, m.word, target);
      BestContinuationSpec(ms, prev);
      var i :| FirstClosestAt(ms, prev, i) && ms[i] == m;
    }
  }

  /** Every match of a valid run has the surah and ayah of its first match. */
  lemma {:induction false} RunSameAyah(index: WordIndex, target: Option<int>, maxUnmatched: int, run: seq<WordMatch>, p: nat)
    requires ValidRun(index, target, maxUnmatched, run)
    requires p < |run|
    ensures run[p].surah == run[0].surah && run[p].ayah == run[0].ayah
  {
    if p > 0 {
      RunSameAyah(index, target, maxUnmatched, run, p - 1);
      LinkedFacts(index, target, run[p - 1], run[p]);
    }
  }

  /** With a target surah every match of a valid run, synthetic or not, lies in that surah. */
  lemma RunInTarget(index: WordIndex, target: Option<int>, maxUnmatched: int, run: seq<WordMatch>, p: nat)
    requires Restricted(target)
    requires ValidRun(index, target, maxUnmatched, run)
    requires p < |run|
    ensures run[p].surah == target.value
  {
    MatchesForWordMembers(index, run[0].word, target, run[0]);
    RunSameAyah(index, target, maxUnmatched, run, p);
  }

  /** `_find_consecutive_matches` as the loop of the source. */
  method FindConsecutiveMatches(index: WordIndex, transcribedWords: seq<string>, target: Option<int>, maxUnmatched: int)
    returns (matches: seq<seq<WordMatch>>)
    ensures matches == ConsecutiveMatches(index, transcribedWords, target, maxUnmatched)
  {
    matches := [];
    var currentSequence: seq<WordMatch> := [];
    var unmatchedCount := 0;
    for i := 0 to |transcribedWords|
      invariant ScanState(matches, currentSequence, unmatchedCount)
        == ScanWords(index, target, maxUnmatched, transcribedWords[..i])
    {
      ScanWordsSnoc(index, target, maxUnmatched, transcribedWords, i);
      matches, currentSequence, unmatchedCount :=
        ScanWord(index, target, maxUnmatched, matches, currentSequence, unmatchedCount, transcribedWords[i]);
    }
    assert transcribedWords[..|transcribedWords|] == transcribedWords;
    matches := SaveSequence(currentSequence, matches);
    matches := SortRuns(matches);
  }

  lemma ScanWordsSnoc(index: WordIndex, target: Option<int>, maxUnmatched: int, words: seq<string>, i: nat)
    requires i < |words|
    ensures ScanWords(index, target, maxUnmatched, words[..i + 1]) ==
      Step(index, target, maxUnmatched, ScanWords(index, target, maxUnmatched, words[..i]), words[i])
  {
    assert words[..i + 1][..i] == words[..i];
    assert words[..i + 1][i] == words[i];
  }

  /** One pass of the loop over the transcribed words. */
  method ScanWord(index: WordIndex, target: Option<int>, maxUnmatched: int,
                  matches0: seq<seq<WordMatch>>, currentSequence0: seq<WordMatch>, unmatchedCount0: int, word: string)
    returns (matches: seq<seq<WordMatch>>, currentSequence: seq<WordMatch>, unmatchedCount: int)
    ensures ScanState(matches, currentSequence, unmatchedCount) ==
      Step(index, target, maxUnmatched, ScanState(matches0, currentSequence0, unmatchedCount0), word)
  {
    matches, currentSequence, unmatchedCount := matches0, currentSequence0, unmatchedCount0;
    var matchesForWord := MatchesForWord(index, word, target);
    if matchesForWord == [] {
      if currentSequence != [] && unmatchedCount < maxUnmatched {
        unmatchedCount := unmatchedCount + 1;
        var lastMatch := currentSequence[|currentSequence| - 1];
        var syntheticMatch := WordMatch(lastMatch.surah, lastMatch.ayah, lastMatch.positionWrtSurah + 1, word);
        currentSequence := currentSequence + [syntheticMatch];
      } else {
        matches := SaveSequence(currentSequence, matches);
        currentSequence := [];
        unmatchedCount := 0;
      }
    } else {
      unmatchedCount := 0;
      var nextMatch: Option<WordMatch> := None;
      if currentSequence != [] {
        nextMatch := BestContinuation(matchesForWord, currentSequence[|currentSequence| - 1]);
      }
      if nextMatch.Some? {
        currentSequence := currentSequence + [nextMatch.value];
      } else {
        if currentSequence != [] {
          matches := SaveSequence(currentSequence, matches);
        }
        currentSequence := [matchesForWord[0]];
      }
    }
  }
}
