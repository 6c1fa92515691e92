/**
 * The Arabic letter filter shared by the aligner, the range detector and the
 * corpus extractor: keep U+060F, U+0620-U+064A, U+066E, U+066F,
 * U+0671-U+06D3, U+06D5 and whitespace, drop everything else (diacritics,
 * punctuation, Latin), collapse whitespace runs to one space and trim.
 */
module ArabicText {
  import opened PyText

  /** The Arabic letters of the kept character class. */
  predicate IsKeptLetter(c: char)
  {
    c == '\U{060F}' || ('\U{0620}' <= c <= '\U{064A}') || c == '\U{066E}' || c == '\U{066F}'
    || ('\U{0671}' <= c <= '\U{06D3}') || c == '\U{06D5}'
  }

  predicate Allowed(c: char)
  {
    IsKeptLetter(c) || IsSpace(c)
  }

  /** Every character is a kept letter or a plain space. */
  predicate LettersAndSpaces(s: string)
  {
    forall i :: 0 <= i < |s| ==> IsKeptLetter(s[i]) || s[i] == ' '
  }

  /** The deletion of every character outside the class. */
  function KeepAllowed(s: string): string
  {
    if s == [] then []
    else if Allowed(s[0]) then [s[0]] + KeepAllowed(s[1..])
    else KeepAllowed(s[1..])
  }

  /** The filter leaves only allowed characters, and leaves a string of allowed characters alone. */
  lemma {:induction false} KeepAllowedSpec(s: string)
    ensures AllAllowed(KeepAllowed(s))
    ensures AllAllowed(s) ==> KeepAllowed(s) == s
    decreases |s|
  {
    if s != [] {
      KeepAllowedSpec(s[1..]);
      var t := KeepAllowed(s[1..]);
      if Allowed(s[0]) {
        forall i | 0 <= i < |[s[0]] + t| ensures Allowed(([s[0]] + t)[i]) {
          if i > 0 { assert ([s[0]] + t)[i] == t[i - 1]; }
        }
      }
      if AllAllowed(s) {
        assert AllAllowed(s[1..]) by {
          forall i | 0 <= i < |s[1..]| ensures Allowed(s[1..][i]) { assert s[1..][i] == s[i + 1]; }
        }
        assert s == [s[0]] + s[1..];
      }
    }
  }

  lemma {:induction false} KeepAllowedAppend(a: string, b: string)
    ensures KeepAllowed(a + b) == KeepAllowed(a) + KeepAllowed(b)
    decreases |a|
  {
    if a == [] {
      assert a + b == b;
    } else {
      assert (a + b)[0] == a[0];
      assert (a + b)[1..] == a[1..] + b;
      KeepAllowedAppend(a[1..], b);
    }
  }

  /** Every character is a kept letter. */
  predicate AllKept(s: string)
  {
    forall i :: 0 <= i < |s| ==> IsKeptLetter(s[i])
  }

  /** Every character is a kept letter or whitespace. */
  predicate AllAllowed(s: string)
  {
    forall i :: 0 <= i < |s| ==> Allowed(s[i])
  }

  lemma {:induction false} AllKeptAppend(a: string, b: string)
    ensures AllKept(a + b) <==> AllKept(a) && AllKept(b)
  {
    if AllKept(a) && AllKept(b) {
      forall i | 0 <= i < |a + b| ensures IsKeptLetter((a + b)[i]) {
        if i < |a| { assert (a + b)[i] == a[i]; } else { assert (a + b)[i] == b[i - |a|]; }
      }
    }
    if AllKept(a + b) {
      forall i | 0 <= i < |a| ensures IsKeptLetter(a[i]) { assert (a + b)[i] == a[i]; }
      forall i | 0 <= i < |b| ensures IsKeptLetter(b[i]) { assert (a + b)[|a| + i] == b[i]; }
    }
  }

  /** `s` has only kept letters and whitespace exactly when its non-space part has only kept letters. */
  lemma {:induction false} AllowedIffNonSpaceKept(s: string)
    ensures AllAllowed(s) <==> AllKept(NonSpace(s))
    decreases |s|
  {
    if s != [] {
      AllowedIffNonSpaceKept(s[1..]);
      var h := if IsSpace(s[0]) then [] else [s[0]];
      AllKeptAppend(h, NonSpace(s[1..]));
      assert AllAllowed(s) <==> Allowed(s[0]) && AllAllowed(s[1..]) by {
        if Allowed(s[0]) && AllAllowed(s[1..]) {
          forall i | 0 <= i < |s| ensures Allowed(s[i]) {
            if i > 0 { assert s[i] == s[1..][i - 1]; }
          }
        }
        if AllAllowed(s) {
          forall i | 0 <= i < |s[1..]| ensures Allowed(s[1..][i]) { assert s[1..][i] == s[i + 1]; }
        }
      }
    }
  }

  /** `_clean_word` / `clean_text`: filter, collapse whitespace, strip. */
  function CleanWord(s: string): string
  {
    Strip(CollapseSpaces(KeepAllowed(s)))
  }

  /**
   * A cleaned word is single-spaced, holds only kept letters and plain
   * spaces, and its letters are the kept letters of the input, in order.
   */
  lemma CleanWordSpec(s: string)
    ensures SingleSpaced(CleanWord(s))
    ensures LettersAndSpaces(CleanWord(s))
    ensures NonSpace(CleanWord(s)) == KeptLetters(s)
  {
    var k := KeepAllowed(s);
    KeptLettersIsNonSpace(s);
    var r := Strip(CollapseSpaces(k));
    CollapseSpacesSpec(k);
    StripSpec(CollapseSpaces(k));
    StripCollapseSingleSpaced(k);
    KeepAllowedSpec(s);
    AllowedIffNonSpaceKept(k);
    AllowedIffNonSpaceKept(r);
  }

  /** Cleaning is idempotent. */
  lemma CleanWordIdempotent(s: string)
    ensures CleanWord(CleanWord(s)) == CleanWord(s)
  {
    var r := CleanWord(s);
    CleanWordSpec(s);
    assert AllAllowed(r);
    KeepAllowedSpec(r);
    SingleSpacedFixed(r);
  }

  /** The kept letters of `s`, in order. */
  function KeptLetters(s: string): string
  {
    if s == [] then [] else (if IsKeptLetter(s[0]) then [s[0]] else []) + KeptLetters(s[1..])
  }

  lemma {:induction false} KeptLettersIsNonSpace(s: string)
    ensures NonSpace(KeepAllowed(s)) == KeptLetters(s)
    decreases |s|
  {
    if s != [] {
      KeptLettersIsNonSpace(s[1..]);
      if Allowed(s[0]) {
        NonSpaceAppend([s[0]], KeepAllowed(s[1..]));
      }
    }
  }

  /** `_clean_text` of the range detector: the cleaned text split into words. */
  function CleanText(s: string): seq<string>
  {
    Split(CleanWord(s))
  }

  /** The words of a cleaned text are non-empty, hold only kept letters, and spell its kept letters. */
  lemma CleanTextSpec(s: string)
    ensures forall k :: 0 <= k < |CleanText(s)| ==> CleanText(s)[k] != [] && AllKept(CleanText(s)[k])
    ensures Concat(CleanText(s)) == KeptLetters(s)
  {
    var c := CleanWord(s);
    CleanWordSpec(s);
    var r := Split(c);
    SplitSpec(c);
    AllowedIffNonSpaceKept(c);
    ConcatAllKept(r);
  }

  lemma {:induction false} ConcatAllKept(ws: seq<string>)
    requires AllKept(Concat(ws))
    ensures forall k :: 0 <= k < |ws| ==> AllKept(ws[k])
    decreases |ws|
  {
    if ws != [] {
      AllKeptAppend(ws[0], Concat(ws[1..]));
      ConcatAllKept(ws[1..]);
      forall k | 0 <= k < |ws| ensures AllKept(ws[k]) {
        if k > 0 { assert ws[k] == ws[1..][k - 1]; }
      }
    }
  }

  /**
   * The words of `_clean_text` are the whitespace-separated runs of what the
   * filter keeps: collapsing and trimming change nothing for `split()`.
   */
  lemma CleanTextIsSplitOfFiltered(s: string)
    ensures CleanText(s) == Split(KeepAllowed(s))
  {
    SplitNormalized(KeepAllowed(s));
  }

  lemma {:induction false} KeptLettersMembers(s: string, c: char)
    ensures c in KeptLetters(s) <==> c in s && IsKeptLetter(c)
    decreases |s|
  {
    if s != [] {
      KeptLettersMembers(s[1..], c);
      assert c in s <==> c == s[0] || c in s[1..];
    }
  }

  lemma {:induction false} ConcatMembers(ws: seq<string>, c: char)
    ensures c in Concat(ws) <==> exists k :: 0 <= k < |ws| && c in ws[k]
    decreases |ws|
  {
    if ws != [] {
      ConcatMembers(ws[1..], c);
      if c in Concat(ws[1..]) {
        var k :| 0 <= k < |ws[1..]| && c in ws[1..][k];
        assert ws[k + 1] == ws[1..][k];
      }
      if exists k :: 0 <= k < |ws| && c in ws[k] {
        var k :| 0 <= k < |ws| && c in ws[k];
        if k > 0 { assert ws[1..][k - 1] == ws[k]; }
      }
    }
  }

  /**
   * A character occurs in some word of `_clean_text` exactly when it occurs in
   * the input and belongs to the kept class. In particular U+0622 (alef with
   * madda) survives cleaning unchanged.
   */
  lemma CleanTextMembers(s: string, c: char)
    ensures (exists k :: 0 <= k < |CleanText(s)| && c in CleanText(s)[k]) <==> c in s && IsKeptLetter(c)
  {
    CleanTextSpec(s);
    ConcatMembers(CleanText(s), c);
    KeptLettersMembers(s, c);
  }
}
