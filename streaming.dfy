/**
 * The live recitation follower of the streaming server: Arabic text
 * normalisation, word tokenisation, and the word-by-word follower that
 * advances through the target text as recognised words are accepted.
 */
module Streaming {
  import opened Common
  import opened PyText

  // ---------------------------------------------------------------------
  // normalize_arabic
  // ---------------------------------------------------------------------

  /** The marks the normaliser deletes: U+0610-U+061A, U+064B-U+065F, U+06D6-U+06ED. */
  predicate IsDiacritic(c: char)
  {
    ('\U{0610}' <= c <= '\U{061A}') || ('\U{064B}' <= c <= '\U{065F}') || ('\U{06D6}' <= c <= '\U{06ED}')
  }

  /** The letters the normaliser folds into another: the alef forms, waw and yeh with hamza, teh marbuta. */
  predicate IsFolded(c: char)
  {
    c == '\U{0625}' || c == '\U{0623}' || c == '\U{0671}' || c == '\U{0622}' || c == '\U{0624}' || c == '\U{0626}' || c == '\U{0629}'
  }

  /** A character of the Arabic block that the normaliser leaves as it is. */
  predicate IsNormalLetter(c: char)
  {
    '\U{0600}' <= c <= '\U{06FF}' && !IsDiacritic(c) && !IsFolded(c)
  }

  /** The deletion of the marks. */
  function RemoveDiacritics(s: string): (r: string)
    ensures |r| <= |s|
  {
    if s == [] then []
    else (if IsDiacritic(s[0]) then [] else [s[0]]) + RemoveDiacritics(s[1..])
  }

  /** The four letter substitutions: إأٱآا to ا, ؤ to و, ئ to ي, ة to ه. */
  function FoldChar(c: char): char
  {
    if c == '\U{0625}' || c == '\U{0623}' || c == '\U{0671}' || c == '\U{0622}' || c == '\U{0627}' then '\U{0627}'
    else if c == '\U{0624}' then '\U{0648}'
    else if c == '\U{0626}' then '\U{064A}'
    else if c == '\U{0629}' then '\U{0647}'
    else c
  }

  function FoldLetters(s: string): (r: string)
    ensures |r| == |s|
  {
    if s == [] then [] else [FoldChar(s[0])] + FoldLetters(s[1..])
  }

  /** Anything outside U+0600-U+06FF that is not whitespace becomes a space. */
  function MaskChar(c: char): char
  {
    if ('\U{0600}' <= c <= '\U{06FF}') || IsSpace(c) then c else ' '
  }

  function MaskForeign(s: string): (r: string)
    ensures |r| == |s|
  {
    if s == [] then [] else [MaskChar(s[0])] + MaskForeign(s[1..])
  }

  /** `normalize_arabic` */
  function NormalizeArabic(text: string): string
  {
    Strip(CollapseSpaces(MaskForeign(FoldLetters(RemoveDiacritics(Strip(text))))))
  }

  /** Every character is whitespace or a normal letter. */
  predicate SpacesAndNormal(s: string)
  {
    forall i :: 0 <= i < |s| ==> IsSpace(s[i]) || IsNormalLetter(s[i])
  }

  /** Every character is a normal letter. */
  predicate AllNormal(s: string)
  {
    forall i :: 0 <= i < |s| ==> IsNormalLetter(s[i])
  }

  /** Every character is a normal letter or a plain space. */
  predicate NormalAndPlainSpaces(s: string)
  {
    forall i :: 0 <= i < |s| ==> s[i] == ' ' || IsNormalLetter(s[i])
  }

  /** After the three passes, only whitespace and normal letters are left. */
  lemma {:induction false} PassesSpacesAndNormal(s: string)
    ensures SpacesAndNormal(MaskForeign(FoldLetters(RemoveDiacritics(s))))
    decreases |s|
  {
    if s != [] {
      PassesSpacesAndNormal(s[1..]);
      var tail := MaskForeign(FoldLetters(RemoveDiacritics(s[1..])));
      if IsDiacritic(s[0]) {
        assert RemoveDiacritics(s) == RemoveDiacritics(s[1..]);
      } else {
        var d := RemoveDiacritics(s[1..]);
        assert RemoveDiacritics(s) == [s[0]] + d;
        assert ([s[0]] + d)[0] == s[0] && ([s[0]] + d)[1..] == d;
        var f := FoldLetters([s[0]] + d);
        assert f == [FoldChar(s[0])] + FoldLetters(d);
        assert f[0] == FoldChar(s[0]) && f[1..] == FoldLetters(d);
        var m := MaskForeign(f);
        assert m == [MaskChar(FoldChar(s[0]))] + tail;
        forall i | 0 <= i < |m| ensures IsSpace(m[i]) || IsNormalLetter(m[i]) {
          if i > 0 {
            assert m[i] == tail[i - 1];
          }
        }
      }
    }
  }

  lemma {:induction false} NonSpaceNormal(s: string)
    ensures SpacesAndNormal(s) <==> AllNormal(NonSpace(s))
    decreases |s|
  {
    if s != [] {
      NonSpaceNormal(s[1..]);
      var h := if IsSpace(s[0]) then [] else [s[0]];
      var t := NonSpace(s[1..]);
      assert AllNormal(h + t) <==> AllNormal(h) && AllNormal(t) by {
        if AllNormal(h) && AllNormal(t) {
          forall i | 0 <= i < |h + t| ensures IsNormalLetter((h + t)[i]) {
            if i < |h| { assert (h + t)[i] == h[i]; } else { assert (h + t)[i] == t[i - |h|]; }
          }
        }
        if AllNormal(h + t) {
          forall i | 0 <= i < |h| ensures IsNormalLetter(h[i]) { assert (h + t)[i] == h[i]; }
          forall i | 0 <= i < |t| ensures IsNormalLetter(t[i]) { assert (h + t)[|h| + i] == t[i]; }
        }
      }
      assert SpacesAndNormal(s) <==> (IsSpace(s[0]) || IsNormalLetter(s[0])) && SpacesAndNormal(s[1..]) by {
        if (IsSpace(s[0]) || IsNormalLetter(s[0])) && SpacesAndNormal(s[1..]) {
          forall i | 0 <= i < |s| ensures IsSpace(s[i]) || IsNormalLetter(s[i]) {
            if i > 0 { assert s[i] == s[1..][i - 1]; }
          }
        }
        if SpacesAndNormal(s) {
          forall i | 0 <= i < |s[1..]| ensures IsSpace(s[1..][i]) || IsNormalLetter(s[1..][i]) { assert s[1..][i] == s[i + 1]; }
        }
      }
    }
  }

  /**
   * A normalised text is single-spaced and holds only plain spaces and
   * letters of the Arabic block that are neither marks nor folded letters.
   */
  lemma NormalizeArabicSpec(text: string)
    ensures SingleSpaced(NormalizeArabic(text))
    ensures NormalAndPlainSpaces(NormalizeArabic(text))
  {
    var m := MaskForeign(FoldLetters(RemoveDiacritics(Strip(text))));
    var c := CollapseSpaces(m);
    var r := Strip(c);
    StripCollapseSingleSpaced(m);
    PassesSpacesAndNormal(Strip(text));
    NonSpaceNormal(m);
    CollapseSpacesSpec(m);
    StripSpec(c);
    NonSpaceNormal(r);
    forall i | 0 <= i < |r| ensures r[i] == ' ' || IsNormalLetter(r[i]) {
    }
  }

  lemma {:induction false} RemoveDiacriticsNone(s: string)
    requires NormalAndPlainSpaces(s)
    ensures RemoveDiacritics(s) == s
    decreases |s|
  {
    if s != [] {
      assert NormalAndPlainSpaces(s[1..]) by {
        forall i | 0 <= i < |s[1..]| ensures s[1..][i] == ' ' || IsNormalLetter(s[1..][i]) { assert s[1..][i] == s[i + 1]; }
      }
      RemoveDiacriticsNone(s[1..]);
      assert s == [s[0]] + s[1..];
    }
  }

  lemma {:induction false} FoldLettersNone(s: string)
    requires NormalAndPlainSpaces(s)
    ensures FoldLetters(s) == s && MaskForeign(s) == s
    decreases |s|
  {
    if s != [] {
      assert NormalAndPlainSpaces(s[1..]) by {
        forall i | 0 <= i < |s[1..]| ensures s[1..][i] == ' ' || IsNormalLetter(s[1..][i]) { assert s[1..][i] == s[i + 1]; }
      }
      FoldLettersNone(s[1..]);
      assert s == [s[0]] + s[1..];
    }
  }

  /** Normalising twice is normalising once. */
  lemma NormalizeArabicIdempotent(text: string)
    ensures NormalizeArabic(NormalizeArabic(text)) == NormalizeArabic(text)
  {
    var s := NormalizeArabic(text);
    NormalizeArabicSpec(text);
    SingleSpacedFixed(s);
    assert Strip(s) == s by {
      assert StripLeft(s) == s;
      assert StripRight(s) == s;
    }
    RemoveDiacriticsNone(s);
    FoldLettersNone(s);
  }

  // ---------------------------------------------------------------------
  // tokenize_words
  // ---------------------------------------------------------------------

  /** `tokenize_words` */
  function TokenizeWords(text: string): seq<string>
  {
    var t := NormalizeArabic(text);
    if t == [] then [] else Split(t)
  }

  /**
   * There are no tokens exactly when the text normalises to nothing; the
   * tokens are non-empty, made of normal letters, and spell the normalised
   * text without its spaces.
   */
  lemma TokenizeWordsSpec(text: string)
    ensures TokenizeWords(text) == [] <==> NormalizeArabic(text) == []
    ensures forall k :: 0 <= k < |TokenizeWords(text)| ==> TokenizeWords(text)[k] != [] && AllNormal(TokenizeWords(text)[k])
    ensures Concat(TokenizeWords(text)) == NonSpace(NormalizeArabic(text))
  {
    var t := NormalizeArabic(text);
    NormalizeArabicSpec(text);
    SplitSpec(t);
    if t != [] {
      assert !IsSpace(t[0]);
      assert NonSpace(t) != [] by {
        assert t == [t[0]] + t[1..];
        NonSpaceAppend([t[0]], t[1..]);
      }
      assert Split(t) != [];
      var ws := Split(t);
      NonSpaceNormal(t);
      ConcatNormal(ws);
    }
  }

  lemma {:induction false} ConcatNormal(ws: seq<string>)
    requires AllNormal(Concat(ws))
    ensures forall k :: 0 <= k < |ws| ==> AllNormal(ws[k])
    decreases |ws|
  {
    if ws != [] {
      var a := ws[0];
      var b := Concat(ws[1..]);
      forall i | 0 <= i < |a| ensures IsNormalLetter(a[i]) { assert (a + b)[i] == a[i]; }
      forall i | 0 <= i < |b| ensures IsNormalLetter(b[i]) { assert (a + b)[|a| + i] == b[i]; }
      ConcatNormal(ws[1..]);
      forall k | 0 <= k < |ws| ensures AllNormal(ws[k]) {
        if k > 0 { assert ws[k] == ws[1..][k - 1]; }
      }
    }
  }

  // ---------------------------------------------------------------------
  // WordAlignmentEngine
  // ---------------------------------------------------------------------

  /** The events `feed` returns. */
  datatype Event =
    | WordCorrect(index: int, text: string, expected: string, score: real)
    | Progress(currentIndex: int, total: int)
    | WordUnmatched(index: int, text: string, expected: string, score: real)

  /** The follower's two counters and the events of the current call so far. */
  datatype FeedState = FeedState(currentIndex: int, lastSent: int, events: seq<Event>)

  /**
   * One recognised word: ignored once the target is exhausted, otherwise
   * scored against the expected word by `similarity` (a percentage) and
   * accepted when the score reaches the threshold.
   */
  function FeedStep(targetWords: seq<string>, matchThreshold: real, similarity: (string, string) -> real,
                    st: FeedState, p: string): FeedState
  {
    if !(0 <= st.currentIndex < |targetWords|) then st
    else
      var expected := targetWords[st.currentIndex];
      var score := similarity(p, expected);
      if score >= matchThreshold then
        var idx := st.currentIndex;
        var sent := if idx != st.lastSent then [WordCorrect(idx, p, expected, score)] else [];
        var lastSent := if idx != st.lastSent then idx else st.lastSent;
        FeedState(idx + 1, lastSent, st.events + sent + [Progress(idx + 1, |targetWords|)])
      else
        FeedState(st.currentIndex, st.lastSent, st.events + [WordUnmatched(st.currentIndex, p, expected, score)])
  }

  /** The words of one `feed` call, in order. */
  function FeedWords(targetWords: seq<string>, matchThreshold: real, similarity: (string, string) -> real,
                     st: FeedState, preds: seq<string>): FeedState
    decreases |preds|
  {
    if preds == [] then st
    else FeedStep(targetWords, matchThreshold, similarity, FeedWords(targetWords, matchThreshold, similarity, st, preds[..|preds| - 1]), preds[|preds| - 1])
  }

  /** The follower's invariant: the index is within the target and every sent index is behind it. */
  predicate Following(targetWords: seq<string>, st: FeedState)
  {
    0 <= st.currentIndex <= |targetWords| && st.lastSent < st.currentIndex
  }

  /** The number of `word_correct` events. */
  function Corrects(events: seq<Event>): nat
    decreases |events|
  {
    if events == [] then 0 else (if events[0].WordCorrect? then 1 else 0) + Corrects(events[1..])
  }

  lemma {:induction false} CorrectsAppend(a: seq<Event>, b: seq<Event>)
    ensures Corrects(a + b) == Corrects(a) + Corrects(b)
    decreases |a|
  {
    if a == [] {
      assert a + b == b;
    } else {
      assert (a + b)[0] == a[0];
      assert (a + b)[1..] == a[1..] + b;
      CorrectsAppend(a[1..], b);
    }
  }

  /**
   * The events of a call that starts at target index `index`, read from the
   * front: a `word_correct` for the expected word at the current index,
   * immediately followed by its `progress` to the next index, or a
   * `word_unmatched` naming the word still expected at the current index.
   */
  predicate Follows(targetWords: seq<string>, index: int, events: seq<Event>)
    decreases |events|
  {
    if events == [] then true
    else
      match events[0]
      case WordCorrect(i, _, expected, _) =>
        && |events| >= 2 && i == index && 0 <= index < |targetWords| && expected == targetWords[index]
        && events[1] == Progress(index + 1, |targetWords|)
        && Follows(targetWords, index + 1, events[2..])
      case WordUnmatched(i, _, expected, _) =>
        && i == index && 0 <= index < |targetWords| && expected == targetWords[index]
        && Follows(targetWords, index, events[1..])
      case Progress(_, _) => false
  }

  /** A followed stream extended by a stream that continues from where it stopped still follows. */
  lemma {:induction false} FollowsAppend(targetWords: seq<string>, index: int, a: seq<Event>, b: seq<Event>)
    requires Follows(targetWords, index, a) && Follows(targetWords, index + Corrects(a), b)
    ensures Follows(targetWords, index, a + b)
    decreases |a|
  {
    if a == [] {
      assert a + b == b;
    } else if a[0].WordCorrect? {
      assert (a + b)[0] == a[0] && (a + b)[1] == a[1];
      assert (a + b)[2..] == a[2..] + b;
      assert a[1..][0] == a[1] && a[1..][1..] == a[2..];
      assert Corrects(a) == 1 + Corrects(a[2..]);
      FollowsAppend(targetWords, index + 1, a[2..], b);
    } else {
      assert (a + b)[0] == a[0];
      assert (a + b)[1..] == a[1..] + b;
      FollowsAppend(targetWords, index, a[1..], b);
    }
  }

  /**
   * Each step keeps the invariant and only appends events; what it appends
   * follows from the index it started at, and the index grows by one per
   * `word_correct` exactly.
   */
  lemma FeedStepSpec(targetWords: seq<string>, matchThreshold: real, similarity: (string, string) -> real, st: FeedState, p: string)
    returns (added: seq<Event>)
    requires Following(targetWords, st)
    ensures Following(targetWords, FeedStep(targetWords, matchThreshold, similarity, st, p))
    ensures FeedStep(targetWords, matchThreshold, similarity, st, p).events == st.events + added
    ensures Follows(targetWords, st.currentIndex, added)
    ensures FeedStep(targetWords, matchThreshold, similarity, st, p).currentIndex == st.currentIndex + Corrects(added)
  {
    added := [];
    if 0 <= st.currentIndex < |targetWords| {
      var expected := targetWords[st.currentIndex];
      var score := similarity(p, expected);
      if score >= matchThreshold {
        var w := WordCorrect(st.currentIndex, p, expected, score);
        var g := Progress(st.currentIndex + 1, |targetWords|);
        added := [w, g];
        assert st.events + [w] + [g] == st.events + added;
        assert added[1..] == [g] && [g][1..] == [];
        assert Corrects([g]) == 0;
        assert Corrects(added) == 1;
      } else {
        added := [WordUnmatched(st.currentIndex, p, expected, score)];
        assert added[1..] == [];
        assert Corrects(added) == 0;
      }
    }
    assert st.events + [] == st.events;
  }

  /**
   * Over a whole call: the invariant holds, the index never decreases, and
   * the call appends a stream that follows the target from the index it
   * started at, the index growing by one per `word_correct`.
   */
  lemma {:induction false} FeedWordsSpec(targetWords: seq<string>, matchThreshold: real, similarity: (string, string) -> real,
                                         st: FeedState, preds: seq<string>) returns (added: seq<Event>)
    requires Following(targetWords, st)
    ensures Following(targetWords, FeedWords(targetWords, matchThreshold, similarity, st, preds))
    ensures FeedWords(targetWords, matchThreshold, similarity, st, preds).events == st.events + added
    ensures Follows(targetWords, st.currentIndex, added)
    ensures FeedWords(targetWords, matchThreshold, similarity, st, preds).currentIndex == st.currentIndex + Corrects(added)
    decreases |preds|
  {
    if preds == [] {
      added := [];
      assert st.events + [] == st.events;
    } else {
      var n := |preds| - 1;
      var before := FeedWordsSpec(targetWords, matchThreshold, similarity, st, preds[..n]);
      var mid := FeedWords(targetWords, matchThreshold, similarity, st, preds[..n]);
      var more := FeedStepSpec(targetWords, matchThreshold, similarity, mid, preds[n]);
      added := before + more;
      FollowsAppend(targetWords, st.currentIndex, before, more);
      CorrectsAppend(before, more);
      assert st.events + before + more == st.events + added;
    }
  }

  /**
   * The events of one call follow the target in order: the `word_correct`
   * indices are the starting index, the next, and so on, each once and each
   * followed by its `progress`; the index reached is the start plus their number.
   */
  lemma FeedWordsFollow(targetWords: seq<string>, matchThreshold: real, similarity: (string, string) -> real,
                        start: int, lastSent: int, preds: seq<string>)
    requires Following(targetWords, FeedState(start, lastSent, []))
    ensures Follows(targetWords, start, FeedWords(targetWords, matchThreshold, similarity, FeedState(start, lastSent, []), preds).events)
    ensures FeedWords(targetWords, matchThreshold, similarity, FeedState(start, lastSent, []), preds).currentIndex ==
      start + Corrects(FeedWords(targetWords, matchThreshold, similarity, FeedState(start, lastSent, []), preds).events)
  {
    var added := FeedWordsSpec(targetWords, matchThreshold, similarity, FeedState(start, lastSent, []), preds);
    assert [] + added == added;
  }

  /** Once the target is exhausted, further words change nothing. */
  lemma {:induction false} FeedWordsExhausted(targetWords: seq<string>, matchThreshold: real, similarity: (string, string) -> real,
                                              st: FeedState, preds: seq<string>)
    requires st.currentIndex >= |targetWords|
    ensures FeedWords(targetWords, matchThreshold, similarity, st, preds) == st
    decreases |preds|
  {
    if preds != [] {
      FeedWordsExhausted(targetWords, matchThreshold, similarity, st, preds[..|preds| - 1]);
    }
  }

  /** The default `match_threshold` of a new follower, on the 0-100 similarity scale. */
  const DefaultMatchThreshold: real := 65.0

  /** The follower of one target text. */
  class WordAlignmentEngine {
    const targetText: string
    const targetWords: seq<string>
    const matchThreshold: real
    var currentIndex: int
    var lastSent: int

    ghost predicate Valid()
      reads this
    {
      Following(targetWords, FeedState(currentIndex, lastSent, []))
    }

    /**
     * A new follower starts at the first target word with nothing sent; a
     * caller that leaves out the threshold passes `DefaultMatchThreshold`.
     */
    constructor (targetText: string, matchThreshold: real)
      ensures this.targetText == targetText && this.matchThreshold == matchThreshold
      ensures targetWords == TokenizeWords(targetText)
      ensures currentIndex == 0 && lastSent == -1
      ensures Valid()
    {
      this.targetText := targetText;
      this.targetWords := TokenizeWords(targetText);
      this.matchThreshold := matchThreshold;
      this.currentIndex := 0;
      this.lastSent := -1;
    }

    /** `feed`, with the similarity score passed in as a function. */
    method Feed(asrText: string, similarity: (string, string) -> real) returns (events: seq<Event>)
      requires Valid()
      modifies this
      ensures Valid()
      ensures var r := FeedWords(targetWords, matchThreshold, similarity, FeedState(old(currentIndex), old(lastSent), []), TokenizeWords(asrText));
        events == r.events && currentIndex == r.currentIndex && lastSent == r.lastSent
    {
      events := [];
      var preds := TokenizeWords(asrText);
      ghost var st0 := FeedState(currentIndex, lastSent, []);
      for k := 0 to |preds|
        invariant FeedState(currentIndex, lastSent, events) == FeedWords(targetWords, matchThreshold, similarity, st0, preds[..k])
        invariant Valid()
      {
        FeedWordsSnoc(targetWords, matchThreshold, similarity, st0, preds, k);
        if currentIndex >= |targetWords| {
          FeedWordsStops(targetWords, matchThreshold, similarity, st0, preds, k);
          break;
        }
        events := FeedWord(preds[k], similarity, events);
      }
      assert preds[..|preds|] == preds;
    }

    /** One pass of `feed`'s loop, for a word while the target is not exhausted. */
    method FeedWord(p: string, similarity: (string, string) -> real, events0: seq<Event>) returns (events: seq<Event>)
      requires Valid() && currentIndex < |targetWords|
      modifies this
      ensures Valid()
      ensures FeedState(currentIndex, lastSent, events) ==
        FeedStep(targetWords, matchThreshold, similarity, FeedState(old(currentIndex), old(lastSent), events0), p)
    {
      events := events0;
      var expected := targetWords[currentIndex];
      var score := similarity(p, expected);
      if score >= matchThreshold {
        var idx := currentIndex;
        currentIndex := currentIndex + 1;
        if idx != lastSent {
          events := events + [WordCorrect(idx, p, expected, score)];
          lastSent := idx;
        }
        events := events + [Progress(currentIndex, |targetWords|)];
      } else {
        events := events + [WordUnmatched(currentIndex, p, expected, score)];
      }
    }
  }

  /** Feeding one more word is one more step. */
  lemma FeedWordsSnoc(targetWords: seq<string>, matchThreshold: real, similarity: (string, string) -> real,
                      st: FeedState, preds: seq<string>, k: nat)
    requires k < |preds|
    ensures FeedWords(targetWords, matchThreshold, similarity, st, preds[..k + 1]) ==
      FeedStep(targetWords, matchThreshold, similarity, FeedWords(targetWords, matchThreshold, similarity, st, preds[..k]), preds[k])
  {
    assert preds[..k + 1][..k] == preds[..k];
    assert preds[..k + 1][k] == preds[k];
  }

  /** Once a prefix of the words exhausts the target, the rest change nothing. */
  lemma FeedWordsStops(targetWords: seq<string>, matchThreshold: real, similarity: (string, string) -> real,
                       st: FeedState, preds: seq<string>, k: nat)
    requires k <= |preds|
    requires FeedWords(targetWords, matchThreshold, similarity, st, preds[..k]).currentIndex >= |targetWords|
    ensures FeedWords(targetWords, matchThreshold, similarity, st, preds) == FeedWords(targetWords, matchThreshold, similarity, st, preds[..k])
  {
    FeedWordsExhausted(targetWords, matchThreshold, similarity, FeedWords(targetWords, matchThreshold, similarity, st, preds[..k]), preds[k..]);
    FeedWordsAppend(targetWords, matchThreshold, similarity, st, preds[..k], preds[k..]);
    assert preds[..k] + preds[k..] == preds;
  }

  /** Feeding two parts of a word list one after another is feeding the whole list. */
  lemma {:induction false} FeedWordsAppend(targetWords: seq<string>, matchThreshold: real, similarity: (string, string) -> real,
                                           st: FeedState, a: seq<string>, b: seq<string>)
    ensures FeedWords(targetWords, matchThreshold, similarity, st, a + b) ==
      FeedWords(targetWords, matchThreshold, similarity, FeedWords(targetWords, matchThreshold, similarity, st, a), b)
    decreases |b|
  {
    if b == [] {
      assert a + b == a;
    } else {
      var n := |b| - 1;
      FeedWordsAppend(targetWords, matchThreshold, similarity, st, a, b[..n]);
      assert (a + b)[..|a + b| - 1] == a + b[..n];
      assert (a + b)[|a + b| - 1] == b[n];
    }
  }
}
