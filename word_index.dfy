/**
 * The one-off word-index builder: every whitespace token of every ayah, in
 * file order, becomes one occurrence under its own key, numbered by a
 * Quran-wide counter. Both the list-of-records layout the detector reads and
 * the column layout of the alternative implementation are modelled.
 */
module QuranWordIndex {
  import opened Common
  import opened PyText
  import opened WordMatching

  /** One `ayah_num: ayah_text` entry of a surah, with the key already read as a number. */
  datatype AyahText = AyahText(ayah: int, text: string)

  /** One `surah_num: {…}` entry of the input file, ayahs in file order. */
  datatype SurahText = SurahText(surah: int, ayahs: seq<AyahText>)

  /** The loaded input file, surahs in file order. */
  type QuranData = seq<SurahText>

  /** A token with the numbers the builder records for it, before the Quran-wide counter. */
  datatype Token = Token(word: string, surah: int, ayah: int, positionWrtSurah: int)

  /** The tokens of one ayah: `enumerate(words, 1)`, so the position restarts at 1 in every ayah. */
  function AyahTokens(surah: int, ayah: int, words: seq<string>): (r: seq<Token>)
    ensures |r| == |words|
    decreases |words|
  {
    if words == [] then []
    else AyahTokens(surah, ayah, words[..|words| - 1]) + [Token(words[|words| - 1], surah, ayah, |words|)]
  }

  /** The tokens of a surah's ayahs, in order. */
  function SurahTokens(surah: int, ayahs: seq<AyahText>): seq<Token>
    decreases |ayahs|
  {
    if ayahs == [] then []
    else
      var last := ayahs[|ayahs| - 1];
      SurahTokens(surah, ayahs[..|ayahs| - 1]) + AyahTokens(surah, last.ayah, Split(last.text))
  }

  /** Every token of the file, in the order the builder visits them. */
  function QuranTokens(quranData: QuranData): seq<Token>
    decreases |quranData|
  {
    if quranData == [] then []
    else
      var last := quranData[|quranData| - 1];
      QuranTokens(quranData[..|quranData| - 1]) + SurahTokens(last.surah, last.ayahs)
  }

  /** The occurrence record of a token numbered `position` Quran-wide. */
  function OccurrenceOf(t: Token, position: int): Occurrence
  {
    Occurrence(t.surah, t.ayah, t.positionWrtSurah, position)
  }

  /** Creating the key when missing, then appending the occurrence. */
  function AddOccurrence(index: WordIndex, t: Token, position: int): WordIndex
  {
    index[t.word := Lookup(index, t.word) + [OccurrenceOf(t, position)]]
  }

  /** The index of a token sequence, token `k` numbered `k + 1`. */
  function IndexOf(tokens: seq<Token>): WordIndex
    decreases |tokens|
  {
    if tokens == [] then map[]
    else AddOccurrence(IndexOf(tokens[..|tokens| - 1]), tokens[|tokens| - 1], |tokens|)
  }

  /** `process_quran` on the loaded file. */
  function ProcessQuranOf(quranData: QuranData): WordIndex
  {
    IndexOf(QuranTokens(quranData))
  }

  // ---------------------------------------------------------------------
  // Properties of the tokens
  // ---------------------------------------------------------------------

  /** The `k`-th token of an ayah is its `k`-th word, at position `k + 1`. */
  lemma {:induction false} AyahTokensSpec(surah: int, ayah: int, words: seq<string>)
    ensures forall k :: 0 <= k < |words| ==> AyahTokens(surah, ayah, words)[k] == Token(words[k], surah, ayah, k + 1)
    decreases |words|
  {
    if words != [] {
      var n := |words| - 1;
      AyahTokensSpec(surah, ayah, words[..n]);
    }
  }

  // ---------------------------------------------------------------------
  // Properties of the index
  // ---------------------------------------------------------------------

  /**
   * Every recorded occurrence is the token its number points at, filed under
   * that token's own word.
   */
  lemma {:induction false} IndexSound(tokens: seq<Token>)
    ensures forall w, i :: w in IndexOf(tokens) && 0 <= i < |IndexOf(tokens)[w]| ==>
      && 1 <= IndexOf(tokens)[w][i].positionWrtQuran <= |tokens|
      && tokens[IndexOf(tokens)[w][i].positionWrtQuran - 1].word == w
      && IndexOf(tokens)[w][i] == OccurrenceOf(tokens[IndexOf(tokens)[w][i].positionWrtQuran - 1], IndexOf(tokens)[w][i].positionWrtQuran)
    decreases |tokens|
  {
    if tokens != [] {
      var n := |tokens| - 1;
      var init := tokens[..n];
      IndexSound(init);
      var before := IndexOf(init);
      var after: WordIndex := IndexOf(tokens);
      forall w: string, i: int | w in after && 0 <= i < |after[w]|
        ensures 1 <= after[w][i].positionWrtQuran <= |tokens|
        ensures tokens[after[w][i].positionWrtQuran - 1].word == w
        ensures after[w][i] == OccurrenceOf(tokens[after[w][i].positionWrtQuran - 1], after[w][i].positionWrtQuran)
      {
        if w == tokens[n].word && i == |Lookup(before, w)| {
          assert after[w][i] == OccurrenceOf(tokens[n], n + 1);
        } else {
          assert w in before && after[w][i] == before[w][i];
          assert tokens[before[w][i].positionWrtQuran - 1] == init[before[w][i].positionWrtQuran - 1];
        }
      }
    }
  }

  /** Every token is recorded under its word, with its number. */
  lemma {:induction false} IndexComplete(tokens: seq<Token>, p: int) returns (i: int)
    requires 1 <= p <= |tokens|
    ensures tokens[p - 1].word in IndexOf(tokens)
    ensures 0 <= i < |IndexOf(tokens)[tokens[p - 1].word]|
    ensures IndexOf(tokens)[tokens[p - 1].word][i] == OccurrenceOf(tokens[p - 1], p)
    decreases |tokens|
  {
    var n := |tokens| - 1;
    var init := tokens[..n];
    var before := IndexOf(init);
    if p == |tokens| {
      i := |Lookup(before, tokens[n].word)|;
    } else {
      i := IndexComplete(init, p);
      assert init[p - 1] == tokens[p - 1];
    }
  }

  /** Each key's occurrences are in increasing Quran-wide order, so no number is recorded twice. */
  lemma {:induction false} IndexIncreasing(tokens: seq<Token>)
    ensures forall w, i, j :: w in IndexOf(tokens) && 0 <= i < j < |IndexOf(tokens)[w]| ==>
      IndexOf(tokens)[w][i].positionWrtQuran < IndexOf(tokens)[w][j].positionWrtQuran
    decreases |tokens|
  {
    if tokens != [] {
      var n := |tokens| - 1;
      var init := tokens[..n];
      IndexIncreasing(init);
      IndexSound(init);
      var before := IndexOf(init);
      var after: WordIndex := IndexOf(tokens);
      forall w: string, i: int, j: int | w in after && 0 <= i < j < |after[w]|
        ensures after[w][i].positionWrtQuran < after[w][j].positionWrtQuran
      {
        assert w in before && after[w][i] == before[w][i];
        if w == tokens[n].word && j == |Lookup(before, w)| {
          assert after[w][j].positionWrtQuran == n + 1;
        } else {
          assert after[w][j] == before[w][j];
        }
      }
    }
  }

  /** The number of occurrences over all keys. */
  ghost function Total(index: WordIndex): nat
    decreases |index.Keys|
  {
    if index == map[] then 0
    else
      var w :| w in index;
      assert |(index - {w}).Keys| < |index.Keys| by {
        assert (index - {w}).Keys < index.Keys;
      }
      |index[w]| + Total(index - {w})
  }

  /** The total may be taken with any key first. */
  lemma {:induction false} TotalRemove(index: WordIndex, w: string)
    requires w in index
    ensures Total(index) == |index[w]| + Total(index - {w})
    decreases |index.Keys|
  {
    var v :| v in index && Total(index) == |index[v]| + Total(index - {v});
    if v != w {
      assert (index - {v}).Keys < index.Keys;
      assert (index - {w}).Keys < index.Keys;
      TotalRemove(index - {v}, w);
      TotalRemove(index - {w}, v);
      assert index - {v} - {w} == index - {w} - {v};
    }
  }

  /** Recording one occurrence adds one to the total. */
  lemma TotalAdd(index: WordIndex, t: Token, position: int)
    ensures Total(AddOccurrence(index, t, position)) == Total(index) + 1
  {
    var after := AddOccurrence(index, t, position);
    TotalRemove(after, t.word);
    if t.word in index {
      TotalRemove(index, t.word);
      assert after - {t.word} == index - {t.word};
    } else {
      assert after - {t.word} == index;
    }
  }

  /** There are exactly as many occurrences over all keys as there are tokens. */
  lemma {:induction false} IndexTotal(tokens: seq<Token>)
    ensures Total(IndexOf(tokens)) == |tokens|
    decreases |tokens|
  {
    if tokens != [] {
      var n := |tokens| - 1;
      IndexTotal(tokens[..n]);
      TotalAdd(IndexOf(tokens[..n]), tokens[n], n + 1);
    }
  }

  /** The keys are exactly the words of the tokens. */
  lemma {:induction false} IndexKeys(tokens: seq<Token>, w: string)
    ensures w in IndexOf(tokens) <==> exists k :: 0 <= k < |tokens| && tokens[k].word == w
    decreases |tokens|
  {
    if tokens != [] {
      var n := |tokens| - 1;
      IndexKeys(tokens[..n], w);
      if w in IndexOf(tokens[..n]) {
        var k :| 0 <= k < n && tokens[..n][k].word == w;
        assert tokens[k].word == w;
      }
      if exists k :: 0 <= k < |tokens| && tokens[k].word == w {
        var k :| 0 <= k < |tokens| && tokens[k].word == w;
        if k < n {
          assert tokens[..n][k].word == w;
        }
      }
    }
  }

  // ---------------------------------------------------------------------
  // process_quran
  // ---------------------------------------------------------------------

  /** The recursive token functions taken one step further. */
  lemma QuranTokensStep(quranData: QuranData, si: int)
    requires 0 <= si < |quranData|
    ensures QuranTokens(quranData[..si + 1]) == QuranTokens(quranData[..si]) + SurahTokens(quranData[si].surah, quranData[si].ayahs)
  {
    assert quranData[..si + 1][..si] == quranData[..si];
  }

  lemma SurahTokensStep(surah: int, ayahs: seq<AyahText>, ai: int)
    requires 0 <= ai < |ayahs|
    ensures SurahTokens(surah, ayahs[..ai + 1]) == SurahTokens(surah, ayahs[..ai]) + AyahTokens(surah, ayahs[ai].ayah, Split(ayahs[ai].text))
  {
    assert ayahs[..ai + 1][..ai] == ayahs[..ai];
  }

  lemma AyahTokensStep(surah: int, ayah: int, words: seq<string>, k: int)
    requires 0 <= k < |words|
    ensures AyahTokens(surah, ayah, words[..k + 1]) == AyahTokens(surah, ayah, words[..k]) + [Token(words[k], surah, ayah, k + 1)]
  {
    assert words[..k + 1][..k] == words[..k];
  }

  lemma IndexStep(done: seq<Token>, t: Token)
    ensures IndexOf(done + [t]) == AddOccurrence(IndexOf(done), t, |done| + 1)
  {
    assert (done + [t])[..|done|] == done;
  }

  /** Creating the key and then appending is one update of the key. */
  lemma RecordStep(before: WordIndex, t: Token, position: int, after: WordIndex)
    requires after == (if t.word in before then before else before[t.word := []])[t.word :=
      (if t.word in before then before else before[t.word := []])[t.word] + [OccurrenceOf(t, position)]]
    ensures after == AddOccurrence(before, t, position)
  {
    var w := t.word;
    var o := OccurrenceOf(t, position);
    if w !in before {
      assert before[w := []][w] + [o] == Lookup(before, w) + [o];
      assert before[w := []][w := Lookup(before, w) + [o]] == before[w := Lookup(before, w) + [o]];
    }
  }

  lemma ConcatAssoc(a: seq<Token>, b: seq<Token>, c: seq<Token>)
    ensures a + b + c == a + (b + c)
  {
  }

  /** The innermost loop of the builder: one ayah's words, with the Quran-wide counter. */
  method IndexAyah(wordIndex0: WordIndex, positionWrtQuran0: int, surah: int, ayah: int, words: seq<string>, ghost done: seq<Token>)
    returns (wordIndex: WordIndex, positionWrtQuran: int)
    requires wordIndex0 == IndexOf(done) && positionWrtQuran0 == |done| + 1
    ensures wordIndex == IndexOf(done + AyahTokens(surah, ayah, words))
    ensures positionWrtQuran == positionWrtQuran0 + |words|
  {
    wordIndex, positionWrtQuran := wordIndex0, positionWrtQuran0;
    ghost var sofar := done;
    assert words[..0] == [] && done + [] == done;
    for k := 0 to |words|
      invariant sofar == done + AyahTokens(surah, ayah, words[..k])
      invariant wordIndex == IndexOf(sofar)
      invariant positionWrtQuran == |sofar| + 1
    {
      AyahTokensStep(surah, ayah, words, k);
      var word := words[k];
      ghost var t := Token(word, surah, ayah, k + 1);
      ghost var before := wordIndex;
      if word !in wordIndex {
        wordIndex := wordIndex[word := []];
      }
      wordIndex := wordIndex[word := wordIndex[word] + [Occurrence(surah, ayah, k + 1, positionWrtQuran)]];
      RecordStep(before, t, positionWrtQuran, wordIndex);
      IndexStep(sofar, t);
      ConcatAssoc(done, AyahTokens(surah, ayah, words[..k]), [t]);
      sofar := sofar + [t];
      positionWrtQuran := positionWrtQuran + 1;
    }
    assert words[..|words|] == words;
  }

  /** The builder's three nested loops, with the Quran-wide counter. */
  method ProcessQuran(quranData: QuranData) returns (wordIndex: WordIndex)
    ensures wordIndex == ProcessQuranOf(quranData)
  {
    wordIndex := map[];
    var positionWrtQuran := 1;
    ghost var done: seq<Token> := [];
    for si := 0 to |quranData|
      invariant done == QuranTokens(quranData[..si])
      invariant wordIndex == IndexOf(done) && positionWrtQuran == |done| + 1
    {
      QuranTokensStep(quranData, si);
      var surah := quranData[si];
      ghost var surahStart := done;
      for ai := 0 to |surah.ayahs|
        invariant done == surahStart + SurahTokens(surah.surah, surah.ayahs[..ai])
        invariant wordIndex == IndexOf(done) && positionWrtQuran == |done| + 1
      {
        SurahTokensStep(surah.surah, surah.ayahs, ai);
        var ayah := surah.ayahs[ai];
        var words := Split(ayah.text);
        ConcatAssoc(surahStart, SurahTokens(surah.surah, surah.ayahs[..ai]), AyahTokens(surah.surah, ayah.ayah, words));
        wordIndex, positionWrtQuran := IndexAyah(wordIndex, positionWrtQuran, surah.surah, ayah.ayah, words, done);
        done := done + AyahTokens(surah.surah, ayah.ayah, words);
      }
      assert surah.ayahs[..|surah.ayahs|] == surah.ayahs;
    }
    assert quranData[..|quranData|] == quranData;
  }

  // ---------------------------------------------------------------------
  // process_quran_list_implementation
  // ---------------------------------------------------------------------

  /** One key of the column layout: four parallel lists. */
  datatype Columns = Columns(surah: seq<int>, ayah: seq<int>, positionWrtSurah: seq<int>, positionWrtQuran: seq<int>)

  /** Appending one occurrence to each of the four lists. */
  function AppendColumns(c: Columns, t: Token, position: int): Columns
  {
    Columns(c.surah + [t.surah], c.ayah + [t.ayah], c.positionWrtSurah + [t.positionWrtSurah], c.positionWrtQuran + [position])
  }

  /** Recording one occurrence under its word, starting four empty lists for a new word. */
  function RecordColumns(before: map<string, Columns>, t: Token, position: int): map<string, Columns>
  {
    var c := if t.word in before then before[t.word] else Columns([], [], [], []);
    before[t.word := AppendColumns(c, t, position)]
  }

  /** The column layout of a token sequence, token `k` numbered `k + 1`. */
  function ColumnIndexOf(tokens: seq<Token>): map<string, Columns>
    decreases |tokens|
  {
    if tokens == [] then map[]
    else RecordColumns(ColumnIndexOf(tokens[..|tokens| - 1]), tokens[|tokens| - 1], |tokens|)
  }

  /**
   * Both layouts have the same keys, and each key's four lists have the
   * length of its occurrence list, entry `k` of each being the matching field
   * of occurrence `k`.
   */
  lemma {:induction false} ColumnsAgree(tokens: seq<Token>, w: string)
    ensures w in ColumnIndexOf(tokens) <==> w in IndexOf(tokens)
    ensures w in IndexOf(tokens) ==>
      && |ColumnIndexOf(tokens)[w].surah| == |IndexOf(tokens)[w]|
      && |ColumnIndexOf(tokens)[w].ayah| == |IndexOf(tokens)[w]|
      && |ColumnIndexOf(tokens)[w].positionWrtSurah| == |IndexOf(tokens)[w]|
      && |ColumnIndexOf(tokens)[w].positionWrtQuran| == |IndexOf(tokens)[w]|
      && forall k :: 0 <= k < |IndexOf(tokens)[w]| ==>
           && ColumnIndexOf(tokens)[w].surah[k] == IndexOf(tokens)[w][k].surah
           && ColumnIndexOf(tokens)[w].ayah[k] == IndexOf(tokens)[w][k].ayah
           && ColumnIndexOf(tokens)[w].positionWrtSurah[k] == IndexOf(tokens)[w][k].positionWrtSurah
           && ColumnIndexOf(tokens)[w].positionWrtQuran[k] == IndexOf(tokens)[w][k].positionWrtQuran
    decreases |tokens|
  {
    if tokens != [] {
      var n := |tokens| - 1;
      ColumnsAgree(tokens[..n], w);
    }
  }

  lemma ColumnIndexStep(done: seq<Token>, t: Token)
    ensures ColumnIndexOf(done + [t]) == RecordColumns(ColumnIndexOf(done), t, |done| + 1)
  {
    var s := done + [t];
    assert s[..|s| - 1] == done;
    assert s[|s| - 1] == t;
  }

  lemma ColumnsRecordStep(before: map<string, Columns>, t: Token, position: int, after: map<string, Columns>)
    requires after == (if t.word in before then before else before[t.word := Columns([], [], [], [])])[t.word :=
      AppendColumns((if t.word in before then before else before[t.word := Columns([], [], [], [])])[t.word], t, position)]
    ensures after == RecordColumns(before, t, position)
  {
    var w := t.word;
    if w !in before {
      var e := Columns([], [], [], []);
      assert before[w := e][w] == e;
      assert before[w := e][w := AppendColumns(e, t, position)] == before[w := AppendColumns(e, t, position)];
    }
  }

  /** The innermost loop of the column builder. */
  method ColumnsAyah(wordIndex0: map<string, Columns>, positionWrtQuran0: int, surah: int, ayah: int, words: seq<string>, ghost done: seq<Token>)
    returns (wordIndex: map<string, Columns>, positionWrtQuran: int)
    requires wordIndex0 == ColumnIndexOf(done) && positionWrtQuran0 == |done| + 1
    ensures wordIndex == ColumnIndexOf(done + AyahTokens(surah, ayah, words))
    ensures positionWrtQuran == positionWrtQuran0 + |words|
  {
    wordIndex, positionWrtQuran := wordIndex0, positionWrtQuran0;
    ghost var sofar := done;
    assert words[..0] == [] && done + [] == done;
    for k := 0 to |words|
      invariant sofar == done + AyahTokens(surah, ayah, words[..k])
      invariant wordIndex == ColumnIndexOf(sofar)
      invariant positionWrtQuran == |sofar| + 1
    {
      AyahTokensStep(surah, ayah, words, k);
      var word := words[k];
      ghost var t := Token(word, surah, ayah, k + 1);
      ghost var before := wordIndex;
      if word !in wordIndex {
        wordIndex := wordIndex[word := Columns([], [], [], [])];
      }
      var c := wordIndex[word];
      wordIndex := wordIndex[word := Columns(c.surah + [surah], c.ayah + [ayah], c.positionWrtSurah + [k + 1], c.positionWrtQuran + [positionWrtQuran])];
      ColumnsRecordStep(before, t, positionWrtQuran, wordIndex);
      ColumnIndexStep(sofar, t);
      ConcatAssoc(done, AyahTokens(surah, ayah, words[..k]), [t]);
      sofar := sofar + [t];
      positionWrtQuran := positionWrtQuran + 1;
    }
    assert words[..|words|] == words;
  }

  /** The same three nested loops filling the column layout. */
  method ProcessQuranListImplementation(quranData: QuranData) returns (wordIndex: map<string, Columns>)
    ensures wordIndex == ColumnIndexOf(QuranTokens(quranData))
  {
    wordIndex := map[];
    var positionWrtQuran := 1;
    ghost var done: seq<Token> := [];
    for si := 0 to |quranData|
      invariant done == QuranTokens(quranData[..si])
      invariant wordIndex == ColumnIndexOf(done) && positionWrtQuran == |done| + 1
    {
      QuranTokensStep(quranData, si);
      var surah := quranData[si];
      ghost var surahStart := done;
      for ai := 0 to |surah.ayahs|
        invariant done == surahStart + SurahTokens(surah.surah, surah.ayahs[..ai])
        invariant wordIndex == ColumnIndexOf(done) && positionWrtQuran == |done| + 1
      {
        SurahTokensStep(surah.surah, surah.ayahs, ai);
        var ayah := surah.ayahs[ai];
        var words := Split(ayah.text);
        ConcatAssoc(surahStart, SurahTokens(surah.surah, surah.ayahs[..ai]), AyahTokens(surah.surah, ayah.ayah, words));
        wordIndex, positionWrtQuran := ColumnsAyah(wordIndex, positionWrtQuran, surah.surah, ayah.ayah, words, done);
        done := done + AyahTokens(surah.surah, ayah.ayah, words);
      }
      assert surah.ayahs[..|surah.ayahs|] == surah.ayahs;
    }
    assert quranData[..|quranData|] == quranData;
  }
}
