/**
 * The one-off corpus extractor: each row of the Quran CSV gives a surah id,
 * a verse id and the ayah text; the opening bismillah is cut off the ayahs
 * that start with it, the text is cleaned with the shared Arabic filter, and
 * the result is filed under surah id → verse id.
 */
module AyahsExtractor {
  import opened Common
  import opened PyText
  import opened ArabicText

  /** The bismillah with its diacritics and the trailing space. */
  const BismillahPrefix: string :=
    "\U{0628}\U{0650}\U{0633}\U{0652}\U{0645}\U{0650} \U{0627}\U{0644}\U{0644}\U{0651}\U{064E}\U{0647}\U{0650} "
    + "\U{0627}\U{0644}\U{0631}\U{0651}\U{064E}\U{062D}\U{0652}\U{0645}\U{064E}\U{0670}\U{0646}\U{0650} "
    + "\U{0627}\U{0644}\U{0631}\U{0651}\U{064E}\U{062D}\U{0650}\U{064A}\U{0645}\U{0650} "

  /**
   * A CSV row: a field is None when its column is missing or the row is too
   * short to fill it.
   */
  datatype Row = Row(suraId: Option<string>, verseId: Option<string>, ayahText: Option<string>)

  /** surah id → verse id → cleaned text; the ids stay strings. */
  type SurahData = map<string, map<string, string>>

  /** A row that is neither skipped for an empty id nor for a missing field. */
  predicate Usable(row: Row)
  {
    row.suraId.Some? && row.verseId.Some? && row.ayahText.Some? && row.suraId.value != [] && row.verseId.value != []
  }

  /** The text with the bismillah prefix cut off when it starts with it. */
  function WithoutBismillah(text: string): string
  {
    if StartsWith(text, BismillahPrefix) then text[|BismillahPrefix|..] else text
  }

  /** The stored text of a usable row. */
  function CleanedText(row: Row): string
    requires Usable(row)
  {
    CleanWord(WithoutBismillah(row.ayahText.value))
  }

  /** One pass of the row loop. */
  function AddRow(surahData: SurahData, row: Row): SurahData
  {
    if !Usable(row) then surahData
    else
      var ayahs := if row.suraId.value in surahData then surahData[row.suraId.value] else map[];
      surahData[row.suraId.value := ayahs[row.verseId.value := CleanedText(row)]]
  }

  /** The map the extractor writes out, for the rows in file order. */
  function SurahDataOf(rows: seq<Row>): SurahData
    decreases |rows|
  {
    if rows == [] then map[] else AddRow(SurahDataOf(rows[..|rows| - 1]), rows[|rows| - 1])
  }

  /** Row `k` is usable and carries the ids `surah`, `verse`. */
  predicate Files(row: Row, surah: string, verse: string)
  {
    Usable(row) && row.suraId.value == surah && row.verseId.value == verse
  }

  /** The prefix is cut exactly when the text starts with it, and nothing else is cut. */
  lemma WithoutBismillahSpec(text: string)
    ensures StartsWith(text, BismillahPrefix) ==> text == BismillahPrefix + WithoutBismillah(text)
    ensures !StartsWith(text, BismillahPrefix) ==> WithoutBismillah(text) == text
  {
    if StartsWith(text, BismillahPrefix) {
      assert text == text[..|BismillahPrefix|] + text[|BismillahPrefix|..];
    }
  }

  /** The ayah that is just the bismillah, without the trailing space, is kept whole. */
  lemma BismillahAyahKept(text: string)
    requires text + " " == BismillahPrefix
    ensures WithoutBismillah(text) == text
  {
    assert |text| < |BismillahPrefix|;
  }

  /**
   * A surah and verse id pair is a key exactly when some usable row carries
   * it, and a surah id is a key exactly when some usable row carries it.
   */
  lemma SurahDataKeys(rows: seq<Row>, surah: string, verse: string)
    ensures surah in SurahDataOf(rows) <==> exists k :: 0 <= k < |rows| && Usable(rows[k]) && rows[k].suraId.value == surah
    ensures (surah in SurahDataOf(rows) && verse in SurahDataOf(rows)[surah]) <==>
      exists k :: 0 <= k < |rows| && Files(rows[k], surah, verse)
  {
    SurahKeys(rows, surah);
    VerseKeys(rows, surah, verse);
  }

  /** One more row adds its surah and, under it, its verse, when it is usable. */
  lemma AddRowKeys(surahData: SurahData, row: Row, surah: string, verse: string)
    ensures surah in AddRow(surahData, row) <==> surah in surahData || (Usable(row) && row.suraId.value == surah)
    ensures (surah in AddRow(surahData, row) && verse in AddRow(surahData, row)[surah]) <==>
      (surah in surahData && verse in surahData[surah]) || Files(row, surah, verse)
  {
  }

  lemma {:induction false} SurahKeys(rows: seq<Row>, surah: string)
    ensures surah in SurahDataOf(rows) <==> exists k :: 0 <= k < |rows| && Usable(rows[k]) && rows[k].suraId.value == surah
    decreases |rows|
  {
    if rows != [] {
      var n := |rows| - 1;
      var init := rows[..n];
      SurahKeys(init, surah);
      AddRowKeys(SurahDataOf(init), rows[n], surah, "");
      assert forall k :: 0 <= k < n ==> init[k] == rows[k];
      if exists k :: 0 <= k < |rows| && Usable(rows[k]) && rows[k].suraId.value == surah {
        var k :| 0 <= k < |rows| && Usable(rows[k]) && rows[k].suraId.value == surah;
        if k < n {
          assert Usable(init[k]) && init[k].suraId.value == surah;
        }
      }
    }
  }

  lemma {:induction false} VerseKeys(rows: seq<Row>, surah: string, verse: string)
    ensures (surah in SurahDataOf(rows) && verse in SurahDataOf(rows)[surah]) <==>
      exists k :: 0 <= k < |rows| && Files(rows[k], surah, verse)
    decreases |rows|
  {
    if rows != [] {
      var n := |rows| - 1;
      var init := rows[..n];
      VerseKeys(init, surah, verse);
      AddRowKeys(SurahDataOf(init), rows[n], surah, verse);
      assert forall k :: 0 <= k < n ==> init[k] == rows[k];
      if exists k :: 0 <= k < |rows| && Files(rows[k], surah, verse) {
        var k :| 0 <= k < |rows| && Files(rows[k], surah, verse);
        if k < n {
          assert Files(init[k], surah, verse);
        }
      }
    }
  }

  /** A stored text is the cleaned text of the last usable row with those ids: later rows overwrite. */
  lemma {:induction false} LastRowWins(rows: seq<Row>, surah: string, verse: string) returns (k: int)
    requires surah in SurahDataOf(rows) && verse in SurahDataOf(rows)[surah]
    ensures 0 <= k < |rows| && Files(rows[k], surah, verse)
    ensures SurahDataOf(rows)[surah][verse] == CleanedText(rows[k])
    ensures forall j :: k < j < |rows| ==> !Files(rows[j], surah, verse)
    decreases |rows|
  {
    var n := |rows| - 1;
    var init := rows[..n];
    if Files(rows[n], surah, verse) {
      k := n;
    } else {
      k := LastRowWins(init, surah, verse);
      assert init[k] == rows[k];
      forall j | k < j < |rows| ensures !Files(rows[j], surah, verse) {
        if j < n {
          assert init[j] == rows[j];
        }
      }
    }
  }

  /** Every stored text is already clean: single-spaced, kept letters and plain spaces only, and fixed by the filter. */
  lemma {:induction false} StoredTextsClean(rows: seq<Row>, surah: string, verse: string)
    requires surah in SurahDataOf(rows) && verse in SurahDataOf(rows)[surah]
    ensures SingleSpaced(SurahDataOf(rows)[surah][verse])
    ensures LettersAndSpaces(SurahDataOf(rows)[surah][verse])
    ensures CleanWord(SurahDataOf(rows)[surah][verse]) == SurahDataOf(rows)[surah][verse]
  {
    var k := LastRowWins(rows, surah, verse);
    var raw := WithoutBismillah(rows[k].ayahText.value);
    CleanWordSpec(raw);
    CleanWordIdempotent(raw);
  }

  /** The row loop filling `surah_data`. */
  method CreateSurahToSimpleAyahs(rows: seq<Row>) returns (surahData: SurahData)
    ensures surahData == SurahDataOf(rows)
  {
    surahData := map[];
    for k := 0 to |rows|
      invariant surahData == SurahDataOf(rows[..k])
    {
      SurahDataOfSnoc(rows, k);
      surahData := ReadRow(surahData, rows[k]);
    }
    assert rows[..|rows|] == rows;
  }

  lemma SurahDataOfSnoc(rows: seq<Row>, k: nat)
    requires k < |rows|
    ensures SurahDataOf(rows[..k + 1]) == AddRow(SurahDataOf(rows[..k]), rows[k])
  {
    assert rows[..k + 1][..k] == rows[..k];
    assert rows[..k + 1][k] == rows[k];
  }

  /** One pass of the loop over the csv rows; a row with a missing field is skipped. */
  method ReadRow(surahData0: SurahData, row: Row) returns (surahData: SurahData)
    ensures surahData == AddRow(surahData0, row)
  {
    surahData := surahData0;
    if row.suraId.None? || row.verseId.None? || row.ayahText.None? {
      return;
    }
    var suraIdStr := row.suraId.value;
    var verseIdStr := row.verseId.value;
    var ayahText := row.ayahText.value;
    if suraIdStr == [] || verseIdStr == [] {
      return;
    }
    var processedText;
    if StartsWith(ayahText, BismillahPrefix) {
      processedText := ayahText[|BismillahPrefix|..];
    } else {
      processedText := ayahText;
    }
    var cleanedText := CleanWord(processedText);
    if suraIdStr !in surahData {
      surahData := surahData[suraIdStr := map[]];
    }
    surahData := surahData[suraIdStr := surahData[suraIdStr][verseIdStr := cleanedText]];
  }
}
