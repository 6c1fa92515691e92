/**
 * The whole-verse memorization use case: a page's verses merged with the
 * user's recorded attempts, the rolled-up progress per juz and per page with
 * the number of fully memorized ones, and the detail view of one attempt.
 */
module VerseMemorization {
  import opened Common
  import opened MemorizationRules

  /** A stored attempt; every column is text and none is null. */
  datatype VerseRow = VerseRow(id: string, surah: string, verse: string, score: string, status: string)

  /** The `progress` attached to a verse: `id`, `status`, `score`. */
  datatype VerseProgress = VerseProgress(id: Option<string>, status: string, score: Score)

  /** `{...verse, progress}` */
  datatype MergedVerse<V> = MergedVerse(verse: Verse<V>, progress: VerseProgress)

  /** The map key of a stored attempt. */
  function RowKey(row: VerseRow): string
  {
    VerseKey(row.surah, row.verse)
  }

  /** `statusMap.get(key) || 'new'` */
  function StatusOr(m: map<string, string>, key: string): string
  {
    if key in m && m[key] != "" then m[key] else "new"
  }

  /** The progress of the verse with key `key`, read from the three maps. */
  function ProgressOf(key: string, scores: map<string, string>, ids: map<string, string>, statuses: map<string, string>): VerseProgress
  {
    VerseProgress(IdOr(ids, key), StatusOr(statuses, key), ScoreOr(scores, key))
  }

  /** The `.map` over the page's verses. */
  function MergeVersesWith<V>(verses: seq<Verse<V>>, scores: map<string, string>, ids: map<string, string>, statuses: map<string, string>): (r: seq<MergedVerse<V>>)
    ensures |r| == |verses|
    decreases |verses|
  {
    if verses == [] then []
    else
      var v := verses[|verses| - 1];
      MergeVersesWith(verses[..|verses| - 1], scores, ids, statuses) + [MergedVerse(v, ProgressOf(v.key, scores, ids, statuses))]
  }

  /** The `merged` list of `getVerseMemorization`. */
  function MergeVerses<V>(verses: seq<Verse<V>>, history: seq<VerseRow>): seq<MergedVerse<V>>
  {
    MergeVersesWith(verses,
      HistoryMap(KeyedBy(history, RowKey, (p: VerseRow) => p.score)),
      HistoryMap(KeyedBy(history, RowKey, (p: VerseRow) => p.id)),
      HistoryMap(KeyedBy(history, RowKey, (p: VerseRow) => p.status)))
  }

  /** The progress a stored attempt gives its verse. */
  function RowProgress(row: VerseRow): VerseProgress
  {
    VerseProgress(if row.id != "" then Some(row.id) else None,
                  if row.status != "" then row.status else "new",
                  if row.score != "" then ScoreText(row.score) else ScoreZero)
  }

  /** The progress of a verse nobody has recorded. */
  const Unrecorded := VerseProgress(None, "new", ScoreZero)

  lemma {:induction false} MergeVersesWithAt<V>(verses: seq<Verse<V>>, scores: map<string, string>, ids: map<string, string>, statuses: map<string, string>)
    ensures forall i :: 0 <= i < |verses| ==>
      MergeVersesWith(verses, scores, ids, statuses)[i] == MergedVerse(verses[i], ProgressOf(verses[i].key, scores, ids, statuses))
    decreases |verses|
  {
    if verses != [] {
      MergeVersesWithAt(verses[..|verses| - 1], scores, ids, statuses);
    }
  }

  /**
   * The merged list keeps the page's verses in order with all their fields;
   * a verse with no attempt gets `{id: null, status: 'new', score: 0}`, and a
   * verse with attempts gets the id, status and score of the last one, each
   * text defaulted when empty.
   */
  lemma MergeVersesSpec<V>(verses: seq<Verse<V>>, history: seq<VerseRow>, i: int) returns (last: int)
    requires 0 <= i < |verses|
    ensures |MergeVerses(verses, history)| == |verses|
    ensures MergeVerses(verses, history)[i].verse == verses[i]
    ensures (forall l :: 0 <= l < |history| ==> RowKey(history[l]) != verses[i].key) ==>
      MergeVerses(verses, history)[i].progress == Unrecorded
    ensures (exists l :: 0 <= l < |history| && RowKey(history[l]) == verses[i].key) ==>
      && 0 <= last < |history| && RowKey(history[last]) == verses[i].key
      && (forall l :: last < l < |history| ==> RowKey(history[l]) != verses[i].key)
      && MergeVerses(verses, history)[i].progress == RowProgress(history[last])
  {
    var key := verses[i].key;
    var fScore := (p: VerseRow) => p.score;
    var fId := (p: VerseRow) => p.id;
    var fStatus := (p: VerseRow) => p.status;
    MergeVersesWithAt(verses, HistoryMap(KeyedBy(history, RowKey, fScore)), HistoryMap(KeyedBy(history, RowKey, fId)),
      HistoryMap(KeyedBy(history, RowKey, fStatus)));
    last := 0;
    if exists l :: 0 <= l < |history| && RowKey(history[l]) == key {
      last := LastRow(history, RowKey, key);
      LastForKey(history, RowKey, fScore, key, last);
      LastForKey(history, RowKey, fId, key, last);
      LastForKey(history, RowKey, fStatus, key, last);
    } else {
      NoneForKey(history, RowKey, fScore, key);
      NoneForKey(history, RowKey, fId, key);
      NoneForKey(history, RowKey, fStatus, key);
    }
  }

  /** `totalMemorizedVerse`: the number of merged verses whose status is `'memorized'`. */
  function CountMemorizedVerses<V>(merged: seq<MergedVerse<V>>): nat
    decreases |merged|
  {
    if merged == [] then 0
    else CountMemorizedVerses(merged[..|merged| - 1]) + (if merged[|merged| - 1].progress.status == "memorized" then 1 else 0)
  }

  /** The count is the size of the set of memorized positions. */
  lemma {:induction false} CountMemorizedVersesSpec<V>(merged: seq<MergedVerse<V>>)
    ensures CountMemorizedVerses(merged) == |set i | 0 <= i < |merged| && merged[i].progress.status == "memorized"|
    decreases |merged|
  {
    if merged != [] {
      var n := |merged| - 1;
      CountMemorizedVersesSpec(merged[..n]);
      var before := set i | 0 <= i < n && merged[..n][i].progress.status == "memorized";
      var after := set i | 0 <= i < |merged| && merged[i].progress.status == "memorized";
      if merged[n].progress.status == "memorized" {
        assert after == before + {n};
      } else {
        assert after == before;
      }
    }
  }

  /** `getVerseMemorization`: the merged page and its memorized-verse count. */
  method GetVerseMemorization<V>(verses: seq<Verse<V>>, verseHistory: seq<VerseRow>) returns (memorizedVerse: nat, merged: seq<MergedVerse<V>>)
    ensures merged == MergeVerses(verses, verseHistory)
    ensures memorizedVerse == CountMemorizedVerses(merged)
  {
    var progressMap := HistoryMap(KeyedBy(verseHistory, RowKey, (p: VerseRow) => p.score));
    var idMap := HistoryMap(KeyedBy(verseHistory, RowKey, (p: VerseRow) => p.id));
    var statusMap := HistoryMap(KeyedBy(verseHistory, RowKey, (p: VerseRow) => p.status));
    memorizedVerse := 0;
    merged := [];
    for k := 0 to |verses|
      invariant merged == MergeVersesWith(verses[..k], progressMap, idMap, statusMap)
      invariant memorizedVerse == CountMemorizedVerses(merged)
    {
      assert verses[..k + 1][..k] == verses[..k];
      var verse := verses[k];
      var score := ScoreOr(progressMap, verse.key);
      var verseId := IdOr(idMap, verse.key);
      var statusVerse := StatusOr(statusMap, verse.key);
      if statusVerse == "memorized" {
        memorizedVerse := memorizedVerse + 1;
      }
      var entry := MergedVerse(verse, VerseProgress(verseId, statusVerse, score));
      assert (merged + [entry])[..|merged|] == merged;
      merged := merged + [entry];
    }
    assert verses[..|verses|] == verses;
  }

  /** The roll-up loop shared by the juz and page views: the merged list and its memorized count. */
  method MergeCounting<K(==)>(sections: seq<Section<K>>, history: seq<(K, int)>) returns (memorizedCount: nat, merged: seq<SectionProgress<K>>)
    ensures merged == MergeSections(sections, history)
    ensures memorizedCount == CountMemorized(merged)
  {
    var progressMap := HistoryMap(history);
    memorizedCount := 0;
    merged := [];
    for k := 0 to |sections|
      invariant merged == MergeWith(sections[..k], progressMap)
      invariant memorizedCount == CountMemorized(merged)
    {
      assert sections[..k + 1][..k] == sections[..k];
      var memorized := CountOrZero(progressMap, sections[k].key);
      var total := sections[k].total;
      var status;
      if memorized == 0 {
        status := New;
      } else if memorized < total {
        status := Memorizing;
      } else {
        status := Memorized;
      }
      if status == Memorized {
        memorizedCount := memorizedCount + 1;
      }
      var entry := SectionProgress(sections[k].key, memorized, total, PercentOf(memorized, total), status);
      assert (merged + [entry])[..|merged|] == merged;
      merged := merged + [entry];
    }
    assert sections[..|sections|] == sections;
  }

  /** `getJuzMemorization`: every juz with its progress, and the number fully memorized. */
  method GetJuzMemorization(juzs: seq<Section<int>>, juzHistory: seq<(int, int)>) returns (memorizedJuz: nat, merged: seq<SectionProgress<int>>)
    ensures merged == MergeSections(juzs, juzHistory)
    ensures memorizedJuz == CountMemorized(merged)
  {
    memorizedJuz, merged := MergeCounting(juzs, juzHistory);
  }

  /** `getPageMemorization`: every page of a juz with its progress, and the number fully memorized. */
  method GetPageMemorization(pages: seq<Section<int>>, pagesHistory: seq<(int, int)>) returns (memorizedPage: nat, merged: seq<SectionProgress<int>>)
    ensures merged == MergeSections(pages, pagesHistory)
    ensures memorizedPage == CountMemorized(merged)
  {
    memorizedPage, merged := MergeCounting(pages, pagesHistory);
  }

  // ---------------------------------------------------------------------
  // Detail of one attempt
  // ---------------------------------------------------------------------

  /** `key.split(":")[0]`: the text before the first colon, or the whole key. */
  function ChapterId(key: string): (r: string)
    decreases |key|
  {
    if key == [] || key[0] == ':' then "" else [key[0]] + ChapterId(key[1..])
  }

  /** The chapter id is a colon-free prefix of the key that stops at the first colon or at the end. */
  lemma {:induction false} ChapterIdSpec(key: string)
    ensures |ChapterId(key)| <= |key| && ChapterId(key) == key[..|ChapterId(key)|]
    ensures ':' !in ChapterId(key)
    ensures |ChapterId(key)| == |key| || key[|ChapterId(key)|] == ':'
    decreases |key|
  {
    if key != [] && key[0] != ':' {
      ChapterIdSpec(key[1..]);
    }
  }

  /** The detail's `progress`: the stored attempt, or the fallback when the lookup throws. */
  datatype DetailProgress<R> = Recorded(row: R) | Fallback(id: Option<string>, score: Option<string>, status: string)

  /** `{...verseDetail, chapter, progress}` */
  datatype VerseDetail<V, R> = VerseDetail(verse: Verse<V>, chapter: string, progress: DetailProgress<R>)

  /**
   * `getVerseDetailMemorization`: `chapterName` stands for the chapter
   * lookup's `name_simple`, and `history` is None when the attempt lookup
   * throws (no such attempt for this user).
   */
  function GetVerseDetailMemorization<V, R>(verseDetail: Verse<V>, chapterName: string -> string, history: Option<R>): (r: VerseDetail<V, R>)
    ensures r.verse == verseDetail
    ensures r.chapter == chapterName(ChapterId(verseDetail.key))
    ensures history.Some? <==> r.progress.Recorded?
    ensures history.Some? ==> r.progress.row == history.value
    ensures history.None? ==> r.progress == Fallback(None, None, "new")
  {
    var chapterId := ChapterId(verseDetail.key);
    var progress := if history.Some? then Recorded(history.value) else Fallback(None, None, "new");
    VerseDetail(verseDetail, chapterName(chapterId), progress)
  }

  /** The chapter is looked up by the surah part of a `surah:verse` key. */
  lemma ChapterOfVerseKey(surah: string, verse: string)
    requires ':' !in surah
    ensures ChapterId(VerseKey(surah, verse)) == surah
  {
    var key := VerseKey(surah, verse);
    ChapterIdSpec(key);
    var c := ChapterId(key);
    assert key[|surah|] == ':';
    assert forall m :: 0 <= m < |surah| ==> key[m] == surah[m];
  }
}
