/**
 * The per-ayah (word-by-word) memorization use case: a page's verses merged
 * with the user's recorded ayah attempts, and the rolled-up progress per juz
 * and per page (no memorized count in this variant).
 */
module AyahMemorization {
  import opened Common
  import opened MemorizationRules

  /** A stored ayah attempt; every column is text and none is null. */
  datatype AyahRow = AyahRow(id: string, ayah: string, surah: string, juz: string, score: string)

  /** The `progress` attached to a verse: `id`, `score`. */
  datatype AyahProgress = AyahProgress(id: Option<string>, score: Score)

  /** `{...verse, progress}` */
  datatype MergedAyah<V> = MergedAyah(verse: Verse<V>, progress: AyahProgress)

  /** The map key of a stored attempt, `surah:ayah`. */
  function AyahKey(row: AyahRow): string
  {
    VerseKey(row.surah, row.ayah)
  }

  /** The `.map` over the page's verses with the score and id maps. */
  function MergeAyahsWith<V>(verses: seq<Verse<V>>, scores: map<string, string>, ids: map<string, string>): (r: seq<MergedAyah<V>>)
    ensures |r| == |verses|
    decreases |verses|
  {
    if verses == [] then []
    else
      var v := verses[|verses| - 1];
      MergeAyahsWith(verses[..|verses| - 1], scores, ids) + [MergedAyah(v, AyahProgress(IdOr(ids, v.key), ScoreOr(scores, v.key)))]
  }

  /** `getAyahMemorization` */
  function GetAyahMemorization<V>(verses: seq<Verse<V>>, ayahHistory: seq<AyahRow>): seq<MergedAyah<V>>
  {
    MergeAyahsWith(verses,
      HistoryMap(KeyedBy(ayahHistory, AyahKey, (p: AyahRow) => p.score)),
      HistoryMap(KeyedBy(ayahHistory, AyahKey, (p: AyahRow) => p.id)))
  }

  /** The progress a stored attempt gives its verse. */
  function RowProgress(row: AyahRow): AyahProgress
  {
    AyahProgress(if row.id != "" then Some(row.id) else None, if row.score != "" then ScoreText(row.score) else ScoreZero)
  }

  lemma {:induction false} MergeAyahsWithAt<V>(verses: seq<Verse<V>>, scores: map<string, string>, ids: map<string, string>)
    ensures forall i :: 0 <= i < |verses| ==>
      MergeAyahsWith(verses, scores, ids)[i] == MergedAyah(verses[i], AyahProgress(IdOr(ids, verses[i].key), ScoreOr(scores, verses[i].key)))
    decreases |verses|
  {
    if verses != [] {
      MergeAyahsWithAt(verses[..|verses| - 1], scores, ids);
    }
  }

  /**
   * The merged list keeps the page's verses in order with all their fields;
   * a verse with no attempt gets `{id: null, score: 0}`, and a verse with
   * attempts gets the id and score of the last one, each defaulted when
   * empty.
   */
  lemma GetAyahMemorizationSpec<V>(verses: seq<Verse<V>>, ayahHistory: seq<AyahRow>, i: int) returns (last: int)
    requires 0 <= i < |verses|
    ensures |GetAyahMemorization(verses, ayahHistory)| == |verses|
    ensures GetAyahMemorization(verses, ayahHistory)[i].verse == verses[i]
    ensures (forall l :: 0 <= l < |ayahHistory| ==> AyahKey(ayahHistory[l]) != verses[i].key) ==>
      GetAyahMemorization(verses, ayahHistory)[i].progress == AyahProgress(None, ScoreZero)
    ensures (exists l :: 0 <= l < |ayahHistory| && AyahKey(ayahHistory[l]) == verses[i].key) ==>
      && 0 <= last < |ayahHistory| && AyahKey(ayahHistory[last]) == verses[i].key
      && (forall l :: last < l < |ayahHistory| ==> AyahKey(ayahHistory[l]) != verses[i].key)
      && GetAyahMemorization(verses, ayahHistory)[i].progress == RowProgress(ayahHistory[last])
  {
    var key := verses[i].key;
    var fScore := (p: AyahRow) => p.score;
    var fId := (p: AyahRow) => p.id;
    MergeAyahsWithAt(verses, HistoryMap(KeyedBy(ayahHistory, AyahKey, fScore)), HistoryMap(KeyedBy(ayahHistory, AyahKey, fId)));
    last := 0;
    if exists l :: 0 <= l < |ayahHistory| && AyahKey(ayahHistory[l]) == key {
      last := LastRow(ayahHistory, AyahKey, key);
      LastForKey(ayahHistory, AyahKey, fScore, key, last);
      LastForKey(ayahHistory, AyahKey, fId, key, last);
    } else {
      NoneForKey(ayahHistory, AyahKey, fScore, key);
      NoneForKey(ayahHistory, AyahKey, fId, key);
    }
  }

  /** `getJuzMemorization`: every juz with its progress. */
  function GetJuzMemorization(juzs: seq<Section<int>>, juzHistory: seq<(int, int)>): seq<SectionProgress<int>>
  {
    MergeSections(juzs, juzHistory)
  }

  /** `getPageMemorization`: every page of a juz with its progress. */
  function GetPageMemorization(pages: seq<Section<int>>, pagesHistory: seq<(int, int)>): seq<SectionProgress<int>>
  {
    MergeSections(pages, pagesHistory)
  }

  /**
   * A juz is new exactly when no history row mentions it or its last count
   * is 0, and memorized exactly when its last count is nonzero and reaches
   * the juz's verse total.
   */
  lemma JuzStatus(juzs: seq<Section<int>>, juzHistory: seq<(int, int)>, i: int)
    requires 0 <= i < |juzs|
    ensures |GetJuzMemorization(juzs, juzHistory)| == |juzs|
    ensures GetJuzMemorization(juzs, juzHistory)[i].key == juzs[i].key
    ensures GetJuzMemorization(juzs, juzHistory)[i].status == New <==> GetJuzMemorization(juzs, juzHistory)[i].versesMemorized == 0
    ensures GetJuzMemorization(juzs, juzHistory)[i].status == Memorized <==>
      GetJuzMemorization(juzs, juzHistory)[i].versesMemorized != 0 && GetJuzMemorization(juzs, juzHistory)[i].versesMemorized >= juzs[i].total
    ensures (forall j :: 0 <= j < |juzHistory| ==> juzHistory[j].0 != juzs[i].key) ==>
      GetJuzMemorization(juzs, juzHistory)[i].status == New
  {
    MergeSectionsSpec(juzs, juzHistory, i);
    var e := GetJuzMemorization(juzs, juzHistory)[i];
    StatusOfSpec(e.versesMemorized, juzs[i].total);
  }

  /**
   * A page's percentage is the rounded share of its verses memorized, and a
   * page with no history row is at 0 percent when it has verses.
   */
  lemma PagePercent(pages: seq<Section<int>>, pagesHistory: seq<(int, int)>, i: int)
    requires 0 <= i < |pages|
    ensures |GetPageMemorization(pages, pagesHistory)| == |pages|
    ensures GetPageMemorization(pages, pagesHistory)[i].key == pages[i].key
    ensures pages[i].total > 0 ==>
      var e := GetPageMemorization(pages, pagesHistory)[i];
      && e.percent.Some?
      && 2 * pages[i].total * e.percent.value <= 200 * e.versesMemorized + pages[i].total < 2 * pages[i].total * (e.percent.value + 1)
    ensures pages[i].total > 0 && (forall j :: 0 <= j < |pagesHistory| ==> pagesHistory[j].0 != pages[i].key) ==>
      GetPageMemorization(pages, pagesHistory)[i].percent == Some(0)
  {
    MergeSectionsSpec(pages, pagesHistory, i);
    var e := GetPageMemorization(pages, pagesHistory)[i];
    PercentOfSpec(e.versesMemorized, pages[i].total);
  }
}
