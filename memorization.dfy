/**
 * The progress roll-up rules shared by the two memorization use cases: a
 * history list turned into a lookup map (a later entry wins), the three-way
 * status of a juz or a page, and the merge of a Quran-service list with the
 * user's history.
 */
module MemorizationRules {
  import opened Common

  /** `"new"`, `"memorizing"`, `"memorized"` */
  datatype Status = New | Memorizing | Memorized

  /** The status of a juz or page with `memorized` of `total` verses memorized. */
  function StatusOf(memorized: int, total: int): Status
  {
    if memorized == 0 then New
    else if memorized < total then Memorizing
    else Memorized
  }

  /** No verse memorized is new, some but not all is memorizing, and all or more is memorized. */
  lemma StatusOfSpec(memorized: int, total: int)
    ensures StatusOf(memorized, total) == New <==> memorized == 0
    ensures StatusOf(memorized, total) == Memorizing <==> memorized != 0 && memorized < total
    ensures StatusOf(memorized, total) == Memorized <==> memorized != 0 && memorized >= total
  {
  }

  /** `new Map(entries)`: the entries inserted in order, so a later entry for a key replaces an earlier one. */
  function HistoryMap<K(==), V>(entries: seq<(K, V)>): map<K, V>
    decreases |entries|
  {
    if entries == [] then map[]
    else HistoryMap(entries[..|entries| - 1])[entries[|entries| - 1].0 := entries[|entries| - 1].1]
  }

  /** A key is in the map exactly when some entry has it. */
  lemma {:induction false} HistoryMapKeys<K, V>(entries: seq<(K, V)>, k: K)
    ensures k in HistoryMap(entries) <==> exists i :: 0 <= i < |entries| && entries[i].0 == k
    decreases |entries|
  {
    if entries != [] {
      var n := |entries| - 1;
      HistoryMapKeys(entries[..n], k);
      if exists i :: 0 <= i < |entries| && entries[i].0 == k {
        var i :| 0 <= i < |entries| && entries[i].0 == k;
        if i < n {
          assert entries[..n][i].0 == k;
        }
      }
      if k in HistoryMap(entries[..n]) {
        var i :| 0 <= i < n && entries[..n][i].0 == k;
        assert entries[i].0 == k;
      }
    }
  }

  /** A key's value is that of its last entry. */
  lemma {:induction false} HistoryMapLast<K, V>(entries: seq<(K, V)>, k: K) returns (i: int)
    requires k in HistoryMap(entries)
    ensures 0 <= i < |entries| && entries[i].0 == k && HistoryMap(entries)[k] == entries[i].1
    ensures forall j :: i < j < |entries| ==> entries[j].0 != k
    decreases |entries|
  {
    var n := |entries| - 1;
    if entries[n].0 == k {
      i := n;
    } else {
      i := HistoryMapLast(entries[..n], k);
      assert entries[..n][i] == entries[i];
      forall j | i < j < |entries| ensures entries[j].0 != k {
        if j < n {
          assert entries[..n][j] == entries[j];
        }
      }
    }
  }

  /** `history.map(p => [key(p), field(p)])` */
  function KeyedBy<R>(rows: seq<R>, key: R -> string, field: R -> string): (r: seq<(string, string)>)
    ensures |r| == |rows|
    decreases |rows|
  {
    if rows == [] then []
    else KeyedBy(rows[..|rows| - 1], key, field) + [(key(rows[|rows| - 1]), field(rows[|rows| - 1]))]
  }

  lemma {:induction false} KeyedByAt<R>(rows: seq<R>, key: R -> string, field: R -> string)
    ensures forall j :: 0 <= j < |rows| ==> KeyedBy(rows, key, field)[j] == (key(rows[j]), field(rows[j]))
    decreases |rows|
  {
    if rows != [] {
      KeyedByAt(rows[..|rows| - 1], key, field);
    }
  }

  /** The index of the last row whose key is `k`. */
  lemma {:induction false} LastRow<R>(rows: seq<R>, key: R -> string, k: string) returns (last: int)
    requires exists l :: 0 <= l < |rows| && key(rows[l]) == k
    ensures 0 <= last < |rows| && key(rows[last]) == k
    ensures forall l :: last < l < |rows| ==> key(rows[l]) != k
    decreases |rows|
  {
    var n := |rows| - 1;
    if key(rows[n]) == k {
      last := n;
    } else {
      var l :| 0 <= l < |rows| && key(rows[l]) == k;
      assert rows[..n][l] == rows[l];
      last := LastRow(rows[..n], key, k);
      assert rows[..n][last] == rows[last];
      forall l | last < l < |rows| ensures key(rows[l]) != k {
        if l < n {
          assert rows[..n][l] == rows[l];
        }
      }
    }
  }

  /** Keyed by any field, the map holds the field of the last row with key `k`. */
  lemma LastForKey<R>(rows: seq<R>, key: R -> string, field: R -> string, k: string, j: int)
    requires 0 <= j < |rows| && key(rows[j]) == k
    requires forall l :: j < l < |rows| ==> key(rows[l]) != k
    ensures k in HistoryMap(KeyedBy(rows, key, field))
    ensures HistoryMap(KeyedBy(rows, key, field))[k] == field(rows[j])
  {
    var entries := KeyedBy(rows, key, field);
    KeyedByAt(rows, key, field);
    assert entries[j].0 == k;
    HistoryMapKeys(entries, k);
    var i := HistoryMapLast(entries, k);
    assert key(rows[i]) == k;
    assert i == j;
    assert HistoryMap(entries)[k] == entries[j].1;
  }

  /** A key no row has is in no keyed map. */
  lemma NoneForKey<R>(rows: seq<R>, key: R -> string, field: R -> string, k: string)
    requires forall l :: 0 <= l < |rows| ==> key(rows[l]) != k
    ensures k !in HistoryMap(KeyedBy(rows, key, field))
  {
    KeyedByAt(rows, key, field);
    HistoryMapKeys(KeyedBy(rows, key, field), k);
  }

  /** `progressMap.get(key) || 0` for a verse count. */
  function CountOrZero<K(==)>(m: map<K, int>, key: K): int
  {
    if key in m && m[key] != 0 then m[key] else 0
  }

  // ---------------------------------------------------------------------
  // Juz and page roll-up
  // ---------------------------------------------------------------------

  /** A juz (`juz_number`, `verses_count`) or a page (`id`, `total_verses`) from the Quran service. */
  datatype Section<K> = Section(key: K, total: int)

  /**
   * `Math.round((memorized / total) * 100)` in exact arithmetic: the integer
   * nearest to 100 * memorized / total, halves rounded up; None for a zero
   * total, where the division gives NaN or an infinity.
   */
  function PercentOf(memorized: int, total: int): Option<int>
  {
    if total == 0 then None
    else if total > 0 then Some((200 * memorized + total) / (2 * total))
    else Some((-200 * memorized - total) / (-2 * total))
  }

  /** The percentage p is the rounded ratio: p <= 100 * memorized / total + 1/2 < p + 1. */
  lemma PercentOfSpec(memorized: int, total: int)
    ensures PercentOf(memorized, total).None? <==> total == 0
    ensures total > 0 ==>
      var p := PercentOf(memorized, total).value;
      2 * total * p <= 200 * memorized + total < 2 * total * (p + 1)
    ensures total < 0 ==>
      var p := PercentOf(memorized, total).value;
      -2 * total * p <= -200 * memorized - total < -2 * total * (p + 1)
  {
    if total > 0 {
      var a, b := 200 * memorized + total, 2 * total;
      assert b * (a / b) + a % b == a;
    } else if total < 0 {
      var a, b := -200 * memorized - total, -2 * total;
      assert b * (a / b) + a % b == a;
    }
  }

  /** One merged entry: `verses_memorized`, `verses_total`, `progress_percent` and `status`. */
  datatype SectionProgress<K> = SectionProgress(key: K, versesMemorized: int, versesTotal: int, percent: Option<int>, status: Status)

  /** The `.map` callback: the count from history, defaulting to 0, its percentage and its status. */
  function SectionProgressOf<K(==)>(section: Section<K>, history: map<K, int>): SectionProgress<K>
  {
    var memorized := CountOrZero(history, section.key);
    SectionProgress(section.key, memorized, section.total, PercentOf(memorized, section.total), StatusOf(memorized, section.total))
  }

  /** The merge over a list of sections with a history map. */
  function MergeWith<K(==)>(sections: seq<Section<K>>, history: map<K, int>): (r: seq<SectionProgress<K>>)
    ensures |r| == |sections|
    decreases |sections|
  {
    if sections == [] then []
    else MergeWith(sections[..|sections| - 1], history) + [SectionProgressOf(sections[|sections| - 1], history)]
  }

  /** `getJuzMemorization` / `getPageMemorization`: the Quran-service list merged with the history rows. */
  function MergeSections<K(==)>(sections: seq<Section<K>>, history: seq<(K, int)>): seq<SectionProgress<K>>
  {
    MergeWith(sections, HistoryMap(history))
  }

  lemma {:induction false} MergeWithAt<K>(sections: seq<Section<K>>, history: map<K, int>)
    ensures forall i :: 0 <= i < |sections| ==> MergeWith(sections, history)[i] == SectionProgressOf(sections[i], history)
    decreases |sections|
  {
    if sections != [] {
      var n := |sections| - 1;
      MergeWithAt(sections[..n], history);
    }
  }

  /**
   * The merged list has the Quran-service list's length and order; each
   * entry keeps the section's key and total, takes its count from the last
   * history row for that key (0 when there is none), and carries the status
   * of that count.
   */
  lemma MergeSectionsSpec<K>(sections: seq<Section<K>>, history: seq<(K, int)>, i: int)
    requires 0 <= i < |sections|
    ensures |MergeSections(sections, history)| == |sections|
    ensures MergeSections(sections, history)[i].key == sections[i].key
    ensures MergeSections(sections, history)[i].versesTotal == sections[i].total
    ensures MergeSections(sections, history)[i].status == StatusOf(MergeSections(sections, history)[i].versesMemorized, sections[i].total)
    ensures MergeSections(sections, history)[i].percent == PercentOf(MergeSections(sections, history)[i].versesMemorized, sections[i].total)
    ensures (forall j :: 0 <= j < |history| ==> history[j].0 != sections[i].key) ==>
      MergeSections(sections, history)[i].versesMemorized == 0 && MergeSections(sections, history)[i].status == New
    ensures (exists j :: 0 <= j < |history| && history[j].0 == sections[i].key) ==>
      exists j :: (
        && 0 <= j < |history| && history[j].0 == sections[i].key
        && (forall l :: j < l < |history| ==> history[l].0 != sections[i].key)
        && MergeSections(sections, history)[i].versesMemorized == history[j].1)
  {
    var m := HistoryMap(history);
    MergeWithAt(sections, m);
    HistoryMapKeys(history, sections[i].key);
    if sections[i].key in m {
      var j := HistoryMapLast(history, sections[i].key);
    }
  }

  /** The number of merged entries whose status is memorized. */
  function CountMemorized<K>(merged: seq<SectionProgress<K>>): nat
    decreases |merged|
  {
    if merged == [] then 0
    else CountMemorized(merged[..|merged| - 1]) + (if merged[|merged| - 1].status == Memorized then 1 else 0)
  }

  /** The count is the size of the set of memorized positions. */
  lemma {:induction false} CountMemorizedSpec<K>(merged: seq<SectionProgress<K>>)
    ensures CountMemorized(merged) == |set i | 0 <= i < |merged| && merged[i].status == Memorized|
    decreases |merged|
  {
    if merged != [] {
      var n := |merged| - 1;
      CountMemorizedSpec(merged[..n]);
      var before := set i | 0 <= i < n && merged[..n][i].status == Memorized;
      var after := set i | 0 <= i < |merged| && merged[i].status == Memorized;
      if merged[n].status == Memorized {
        assert after == before + {n};
      } else {
        assert after == before;
      }
    }
  }

  // ---------------------------------------------------------------------
  // Verses
  // ---------------------------------------------------------------------

  /** A verse from the Quran service: its `surah:verse` key and its other fields, kept as they are. */
  datatype Verse<V> = Verse(key: string, fields: V)

  /** A score as the merge returns it: the stored text, or the default 0. */
  datatype Score = ScoreText(text: string) | ScoreZero

  /** `` `${surah}:${verse}` `` */
  function VerseKey(surah: string, verse: string): string
  {
    surah + ":" + verse
  }

  /** `scoreMap.get(key) || 0` over the stored texts: a missing or empty text is 0. */
  function ScoreOr(m: map<string, string>, key: string): Score
  {
    if key in m && m[key] != "" then ScoreText(m[key]) else ScoreZero
  }

  /** `idMap.get(key) || null` */
  function IdOr(m: map<string, string>, key: string): Option<string>
  {
    if key in m && m[key] != "" then Some(m[key]) else None
  }
}
