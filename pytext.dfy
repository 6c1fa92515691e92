/**
 * The few Python `str` primitives the core relies on: `str.isspace` (which is
 * also what `\s` matches in a `re` pattern over `str`), `strip`, `split`,
 * `startswith`, `" ".join`, and the substitution `re.sub(r"\s+", " ", s)`.
 */
module PyText {

  /** `c.isspace()`: the characters Python classifies as whitespace. */
  predicate IsSpace(c: char)
  {
    ('\t' <= c <= '\r') || ('\U{001C}' <= c <= '\U{001F}') || c == ' '
    || c == '\U{0085}' || c == '\U{00A0}' || c == '\U{1680}'
    || ('\U{2000}' <= c <= '\U{200A}') || c == '\U{2028}' || c == '\U{2029}'
    || c == '\U{202F}' || c == '\U{205F}' || c == '\U{3000}'
  }

  predicate NoSpace(s: string)
  {
    forall i :: 0 <= i < |s| ==> !IsSpace(s[i])
  }

  predicate AllSpace(s: string)
  {
    forall i :: 0 <= i < |s| ==> IsSpace(s[i])
  }

  /** The non-whitespace characters of `s`, in order. */
  function NonSpace(s: string): string
  {
    if s == [] then [] else (if IsSpace(s[0]) then [] else [s[0]]) + NonSpace(s[1..])
  }

  /**
   * A string in which every whitespace character is a plain space and no two
   * whitespace characters are adjacent: the shape `re.sub(r"\s+", " ", s)` leaves.
   */
  predicate Collapsed(s: string)
  {
    forall i :: 0 <= i < |s| && IsSpace(s[i]) ==> s[i] == ' ' && (i + 1 < |s| ==> !IsSpace(s[i + 1]))
  }

  /** Collapsed and without leading or trailing whitespace. */
  predicate SingleSpaced(s: string)
  {
    Collapsed(s) && (s == [] || (!IsSpace(s[0]) && !IsSpace(s[|s| - 1])))
  }

  lemma {:induction false} NonSpaceAppend(a: string, b: string)
    ensures NonSpace(a + b) == NonSpace(a) + NonSpace(b)
    decreases |a|
  {
    if a == [] {
      assert a + b == b;
    } else {
      assert (a + b)[0] == a[0];
      assert (a + b)[1..] == a[1..] + b;
      NonSpaceAppend(a[1..], b);
    }
  }

  lemma {:induction false} NonSpaceOfAllSpace(s: string)
    requires AllSpace(s)
    ensures NonSpace(s) == []
    decreases |s|
  {
    if s != [] {
      NonSpaceOfAllSpace(s[1..]);
    }
  }

  lemma {:induction false} NonSpaceOfNoSpace(s: string)
    requires NoSpace(s)
    ensures NonSpace(s) == s
    decreases |s|
  {
    if s != [] {
      NonSpaceOfNoSpace(s[1..]);
    }
  }

  /** `s.lstrip()` */
  function StripLeft(s: string): (r: string)
    ensures |r| <= |s|
    ensures r == [] || !IsSpace(r[0])
    decreases |s|
  {
    if s != [] && IsSpace(s[0]) then StripLeft(s[1..]) else s
  }

  /** `lstrip` removes only whitespace. */
  lemma {:induction false} StripLeftSpec(s: string)
    ensures AllSpace(s[..|s| - |StripLeft(s)|])
    ensures NonSpace(StripLeft(s)) == NonSpace(s)
    decreases |s|
  {
    if s != [] && IsSpace(s[0]) {
      StripLeftSpec(s[1..]);
      var r := StripLeft(s[1..]);
      assert s[..|s| - |r|] == [s[0]] + s[1..][..|s| - 1 - |r|];
    }
  }

  /** `s.rstrip()` */
  function StripRight(s: string): (r: string)
    ensures |r| <= |s|
    ensures r == [] || !IsSpace(r[|r| - 1])
    decreases |s|
  {
    if s != [] && IsSpace(s[|s| - 1]) then StripRight(s[..|s| - 1]) else s
  }

  /** `rstrip` removes only whitespace. */
  lemma {:induction false} StripRightSpec(s: string)
    ensures AllSpace(s[|StripRight(s)|..])
    ensures NonSpace(StripRight(s)) == NonSpace(s)
    decreases |s|
  {
    if s != [] && IsSpace(s[|s| - 1]) {
      var t, c := s[..|s| - 1], s[|s| - 1];
      StripRightSpec(t);
      var r := StripRight(t);
      assert s == t + [c];
      NonSpaceAppend(t, [c]);
      forall i | |r| <= i < |s| ensures IsSpace(s[i]) {
        if i < |t| { assert s[i] == t[|r|..][i - |r|]; }
      }
    }
  }

  /** `lstrip` removes a prefix. */
  lemma {:induction false} StripLeftSuffix(s: string)
    ensures StripLeft(s) == s[|s| - |StripLeft(s)|..]
    decreases |s|
  {
    if s != [] && IsSpace(s[0]) {
      StripLeftSuffix(s[1..]);
    }
  }

  /** `rstrip` removes a suffix. */
  lemma {:induction false} StripRightPrefix(s: string)
    ensures StripRight(s) == s[..|StripRight(s)|]
    decreases |s|
  {
    if s != [] && IsSpace(s[|s| - 1]) {
      StripRightPrefix(s[..|s| - 1]);
    }
  }

  /** `s.strip()` */
  function Strip(s: string): string
  {
    StripRight(StripLeft(s))
  }

  /** `strip` leaves no whitespace at either end and removes nothing else. */
  lemma StripSpec(s: string)
    ensures Strip(s) == [] || (!IsSpace(Strip(s)[0]) && !IsSpace(Strip(s)[|Strip(s)| - 1]))
    ensures NonSpace(Strip(s)) == NonSpace(s)
  {
    StripRightPrefix(StripLeft(s));
    StripLeftSpec(s);
    StripRightSpec(StripLeft(s));
  }

  /** `strip` returns a slice of its input. */
  lemma StripSlice(s: string)
    ensures exists a, b :: 0 <= a <= b <= |s| && Strip(s) == s[a..b]
  {
    var l := StripLeft(s);
    var r := StripRight(l);
    StripLeftSuffix(s);
    StripRightPrefix(l);
    assert r == s[|s| - |l|..|s| - |l| + |r|];
  }

  lemma {:induction false} AllSpaceStripLeft(s: string)
    requires AllSpace(s)
    ensures StripLeft(s) == []
    decreases |s|
  {
    if s != [] {
      AllSpaceStripLeft(s[1..]);
    }
  }

  /** `re.sub(r"\s+", " ", s)`: every maximal run of whitespace becomes one space. */
  function CollapseSpaces(s: string): (r: string)
    ensures r == [] <==> s == []
    ensures s != [] ==> (IsSpace(r[0]) <==> IsSpace(s[0]))
    ensures s != [] ==> (IsSpace(r[|r| - 1]) <==> IsSpace(s[|s| - 1]))
    decreases |s|
  {
    if s == [] then []
    else if IsSpace(s[0]) then
      var t := StripLeft(s);
      StripLeftSuffix(s);
      StripLeftSpec(s);
      var rest := CollapseSpaces(t);
      assert t == [] ==> s[..|s|][|s| - 1] == s[|s| - 1];
      assert t != [] ==> s[|s| - 1] == t[|t| - 1];
      " " + rest
    else
      [s[0]] + CollapseSpaces(s[1..])
  }

  /** The substitution leaves a collapsed string with the same non-space characters. */
  lemma {:induction false} CollapseSpacesSpec(s: string)
    ensures Collapsed(CollapseSpaces(s))
    ensures NonSpace(CollapseSpaces(s)) == NonSpace(s)
    decreases |s|
  {
    if s != [] {
      if IsSpace(s[0]) {
        var t := StripLeft(s);
        CollapseSpacesSpec(t);
        StripLeftSpec(s);
        var rest := CollapseSpaces(t);
        NonSpaceAppend(" ", rest);
        CollapsedCons(' ', rest);
      } else {
        CollapseSpacesSpec(s[1..]);
        var rest := CollapseSpaces(s[1..]);
        NonSpaceAppend([s[0]], rest);
        CollapsedCons(s[0], rest);
      }
    }
  }

  /** Prepending a letter, or a plain space before a non-space, keeps a string collapsed. */
  lemma CollapsedCons(c: char, rest: string)
    requires Collapsed(rest)
    requires IsSpace(c) ==> c == ' ' && (rest == [] || !IsSpace(rest[0]))
    ensures Collapsed([c] + rest)
  {
    var x := [c] + rest;
    forall i | 0 <= i < |x| && IsSpace(x[i]) ensures x[i] == ' ' && (i + 1 < |x| ==> !IsSpace(x[i + 1])) {
      if i > 0 {
        assert x[i] == rest[i - 1];
        if i + 1 < |x| { assert x[i + 1] == rest[i]; }
      }
    }
  }

  /** A string already in collapsed form is left unchanged by the substitution. */
  lemma {:induction false} CollapseSpacesIdempotent(s: string)
    requires Collapsed(s)
    ensures CollapseSpaces(s) == s
    decreases |s|
  {
    if s != [] {
      CollapsedSlice(s, 1, |s|);
      CollapseSpacesIdempotent(s[1..]);
      CollapseSpacesStep(s);
    }
  }

  lemma CollapseSpacesStep(s: string)
    requires Collapsed(s) && s != []
    ensures CollapseSpaces(s) == [s[0]] + CollapseSpaces(s[1..])
  {
    if IsSpace(s[0]) {
      assert s[1..] == [] || !IsSpace(s[1..][0]) by {
        if |s| > 1 { assert s[1..][0] == s[1]; }
      }
      assert StripLeft(s) == s[1..];
    }
  }

  lemma CollapsedSlice(s: string, a: int, b: int)
    requires Collapsed(s) && 0 <= a <= b <= |s|
    ensures Collapsed(s[a..b])
  {
    forall i | 0 <= i < b - a && IsSpace(s[a..b][i])
      ensures s[a..b][i] == ' ' && (i + 1 < b - a ==> !IsSpace(s[a..b][i + 1]))
    {
      assert s[a..b][i] == s[a + i];
      if i + 1 < b - a {
        assert s[a..b][i + 1] == s[a + i + 1];
      }
    }
  }

  /** `re.sub(r"\s+", " ", s).strip()` is single-spaced. */
  lemma StripCollapseSingleSpaced(s: string)
    ensures SingleSpaced(Strip(CollapseSpaces(s)))
  {
    var c := CollapseSpaces(s);
    var r := Strip(c);
    CollapseSpacesSpec(s);
    StripSpec(c);
    StripSlice(c);
    var a, b :| 0 <= a <= b <= |c| && r == c[a..b];
    CollapsedSlice(c, a, b);
  }

  /** A single-spaced string is a fixed point of `re.sub(r"\s+", " ", s).strip()`. */
  lemma SingleSpacedFixed(s: string)
    requires SingleSpaced(s)
    ensures Strip(CollapseSpaces(s)) == s
  {
    CollapseSpacesIdempotent(s);
    assert StripLeft(s) == s;
    assert StripRight(s) == s;
  }

  /** The longest whitespace-free prefix of `s`. */
  function Word(s: string): (r: string)
    ensures |r| <= |s|
    ensures s != [] && !IsSpace(s[0]) ==> r != []
    decreases |s|
  {
    if s == [] || IsSpace(s[0]) then [] else [s[0]] + Word(s[1..])
  }

  /** The word is a whitespace-free prefix followed by whitespace or the end. */
  lemma {:induction false} WordSpec(s: string)
    ensures Word(s) == s[..|Word(s)|] && NoSpace(Word(s))
    ensures |Word(s)| == |s| || IsSpace(s[|Word(s)|])
    decreases |s|
  {
    if s != [] && !IsSpace(s[0]) {
      WordSpec(s[1..]);
    }
  }

  function Concat(ws: seq<string>): string
  {
    if ws == [] then [] else ws[0] + Concat(ws[1..])
  }

  /** `s.split()`: the maximal runs of non-whitespace characters, in order. */
  function Split(s: string): seq<string>
    decreases |s|
  {
    var t := StripLeft(s);
    if t == [] then []
    else
      var w := Word(t);
      [w] + Split(t[|w|..])
  }

  /** The tokens are non-empty, whitespace-free, and together hold every non-space character in order. */
  lemma {:induction false} SplitSpec(s: string)
    ensures AreWords(Split(s))
    ensures Concat(Split(s)) == NonSpace(s)
    decreases |s|
  {
    var t := StripLeft(s);
    StripLeftSpec(s);
    if t != [] {
      var w := Word(t);
      WordSpec(t);
      SplitSpec(t[|w|..]);
      var rest := Split(t[|w|..]);
      assert t == w + t[|w|..];
      NonSpaceAppend(w, t[|w|..]);
      NonSpaceOfNoSpace(w);
      assert ([w] + rest)[0] == w;
      assert ([w] + rest)[1..] == rest;
      assert Concat([w] + rest) == w + Concat(rest);
      forall k | 0 <= k < |[w] + rest| ensures ([w] + rest)[k] != [] && NoSpace(([w] + rest)[k]) {
        if k > 0 { assert ([w] + rest)[k] == rest[k - 1]; }
      }
    }
  }

  /** `" ".join(ws)` */
  function JoinSpace(ws: seq<string>): string
  {
    if ws == [] then []
    else if |ws| == 1 then ws[0]
    else ws[0] + " " + JoinSpace(ws[1..])
  }

  predicate AreWords(ws: seq<string>)
  {
    forall k :: 0 <= k < |ws| ==> ws[k] != [] && NoSpace(ws[k])
  }

  lemma {:induction false} WordOfPrefix(w: string, tail: string)
    requires NoSpace(w)
    requires tail == [] || IsSpace(tail[0])
    ensures Word(w + tail) == w
    decreases |w|
  {
    if w != [] {
      assert (w + tail)[1..] == w[1..] + tail;
      WordOfPrefix(w[1..], tail);
    } else {
      assert w + tail == tail;
    }
  }

  /** Splitting words joined by single spaces gives the words back. */
  lemma {:induction false} SplitJoinSpace(ws: seq<string>)
    requires AreWords(ws)
    ensures Split(JoinSpace(ws)) == ws
    decreases |ws|
  {
    if ws == [] {
    } else if |ws| == 1 {
      var s := ws[0];
      assert StripLeft(s) == s;
      WordOfPrefix(s, []);
      assert s + [] == s;
      assert s[|s|..] == [];
    } else {
      var rest := JoinSpace(ws[1..]);
      var s := ws[0] + " " + rest;
      assert AreWords(ws[1..]) by {
        forall k | 0 <= k < |ws[1..]| ensures ws[1..][k] != [] && NoSpace(ws[1..][k]) {
          assert ws[1..][k] == ws[k + 1];
        }
      }
      assert s[0] == ws[0][0];
      assert StripLeft(s) == s;
      assert s == ws[0] + (" " + rest);
      WordOfPrefix(ws[0], " " + rest);
      assert s[|ws[0]|..] == " " + rest;
      assert rest != [] && !IsSpace(rest[0]) by {
        JoinSpaceStart(ws[1..]);
      }
      assert StripLeft(" " + rest) == rest by {
        assert (" " + rest)[1..] == rest;
      }
      SplitJoinSpace(ws[1..]);
    }
  }

  lemma JoinSpaceStart(ws: seq<string>)
    requires AreWords(ws) && ws != []
    ensures JoinSpace(ws) != [] && JoinSpace(ws)[0] == ws[0][0]
  {
  }

  lemma {:induction false} StripLeftOfNonSpaceStart(s: string)
    requires s == [] || !IsSpace(s[0])
    ensures StripLeft(s) == s
  {
  }

  lemma {:induction false} StripLeftAppend(r: string, x: string)
    requires StripLeft(r) != []
    ensures StripLeft(r + x) == StripLeft(r) + x
    decreases |r|
  {
    assert (r + x)[0] == r[0];
    if IsSpace(r[0]) {
      assert (r + x)[1..] == r[1..] + x;
      StripLeftAppend(r[1..], x);
    } else {
      StripLeftOfNonSpaceStart(r + x);
    }
  }

  /** Leading whitespace does not change `split()`. */
  lemma SplitStripLeft(y: string)
    ensures Split(StripLeft(y)) == Split(y)
  {
    StripLeftOfNonSpaceStart(StripLeft(y));
  }

  /** Whitespace in front of a string does not change `split()`. */
  lemma SplitSpacePrefix(sp: string, x: string)
    requires AllSpace(sp)
    ensures Split(sp + x) == Split(x)
    decreases |sp|
  {
    if sp != [] {
      assert (sp + x)[1..] == sp[1..] + x;
      SplitSpacePrefix(sp[1..], x);
      assert StripLeft(sp + x) == StripLeft(sp[1..] + x);
    } else {
      assert sp + x == x;
    }
  }

  /** A word followed by whitespace (or by nothing) is split off as the first token. */
  lemma SplitWordPrefix(w: string, x: string)
    requires w != [] && NoSpace(w)
    requires x == [] || IsSpace(x[0])
    ensures Split(w + x) == [w] + Split(x)
  {
    WordOfPrefix(w, x);
    assert (w + x)[0] == w[0];
    assert (w + x)[|w|..] == x;
  }

  lemma AppendAssoc(a: string, b: string, c: string)
    ensures (a + b) + c == a + (b + c)
  {
  }

  /** Trailing whitespace does not change `split()`. */
  lemma {:induction false} SplitSpaceSuffix(r: string, sp: string)
    requires AllSpace(sp)
    ensures Split(r + sp) == Split(r)
    decreases |r|
  {
    var t := StripLeft(r);
    StripLeftSpec(r);
    if t == [] {
      assert AllSpace(r + sp) by {
        assert r[..|r| - |t|] == r;
      }
      AllSpaceStripLeft(r + sp);
    } else {
      StripLeftAppend(r, sp);
      SplitStripLeft(r);
      SplitStripLeft(r + sp);
      var w := Word(t);
      WordSpec(t);
      var u := t[|w|..];
      assert t == w + u;
      AppendAssoc(w, u, sp);
      assert u + sp == [] || IsSpace((u + sp)[0]) by {
        if u != [] { assert (u + sp)[0] == u[0] == t[|w|]; }
        else { assert u + sp == sp; }
      }
      SplitWordPrefix(w, u);
      SplitWordPrefix(w, u + sp);
      SplitSpaceSuffix(u, sp);
    }
  }

  /** How `split()` treats a non-space character in front of a string. */
  lemma SplitCons(c: char, y: string)
    requires !IsSpace(c)
    ensures y == [] || IsSpace(y[0]) ==> Split([c] + y) == [[c]] + Split(y)
    ensures y != [] && !IsSpace(y[0]) ==>
      Split(y) != [] && Split([c] + y) == [[c] + Split(y)[0]] + Split(y)[1..]
  {
    assert ([c] + y)[1..] == y;
    assert StripLeft([c] + y) == [c] + y;
    assert Word([c] + y) == [c] + Word(y);
    assert ([c] + y)[|[c] + Word(y)|..] == y[|Word(y)|..];
    if y == [] || IsSpace(y[0]) {
      assert Word(y) == [];
      assert y[|Word(y)|..] == y;
      assert Word([c] + y) == [c];
      assert Split([c] + y) == [[c]] + Split(([c] + y)[1..]);
    } else {
      assert StripLeft(y) == y;
      assert Split(y) == [Word(y)] + Split(y[|Word(y)|..]);
    }
  }

  /** Collapsing whitespace runs does not change `split()`. */
  lemma {:induction false} SplitCollapseSpaces(x: string)
    ensures Split(CollapseSpaces(x)) == Split(x)
    decreases |x|
  {
    if x != [] {
      if IsSpace(x[0]) {
        var t := StripLeft(x);
        SplitSpacePrefix(" ", CollapseSpaces(t));
        SplitCollapseSpaces(t);
        SplitStripLeft(x);
      } else {
        assert x == [x[0]] + x[1..];
        SplitCollapseSpaces(x[1..]);
        SplitCons(x[0], CollapseSpaces(x[1..]));
        SplitCons(x[0], x[1..]);
      }
    }
  }

  /** Trimming does not change `split()`. */
  lemma SplitStrip(y: string)
    ensures Split(Strip(y)) == Split(y)
  {
    var l := StripLeft(y);
    var r := StripRight(l);
    StripRightPrefix(l);
    StripRightSpec(l);
    assert l == r + l[|r|..];
    SplitSpaceSuffix(r, l[|r|..]);
    SplitStripLeft(y);
  }

  /** `re.sub(r"\s+", " ", s).strip().split()` is just `s.split()`. */
  lemma SplitNormalized(s: string)
    ensures Split(Strip(CollapseSpaces(s))) == Split(s)
  {
    SplitStrip(CollapseSpaces(s));
    SplitCollapseSpaces(s);
  }

  /** `s.startswith(p)` */
  predicate StartsWith(s: string, p: string)
  {
    |p| <= |s| && s[..|p|] == p
  }
}
