/**
 * Choosing a surah and an ayah range from the runs of consecutive matches:
 * the matched ayahs are grouped per surah, split into gap-tolerant runs, and
 * the first longest run wins.
 */
module AyahRange {
  import opened Common
  import opened Models

  /** The range detector's answer `(surah, start_ayah, end_ayah)`. */
  datatype Range = Range(surah: Option<int>, start: Option<int>, end: Option<int>)

  const NoRange := Range(None, None, None)

  /** Every sequence has a first match, which is what `sequence[0]` reads. */
  predicate NonEmptySequences(matches: seq<seq<WordMatch>>)
  {
    forall k :: 0 <= k < |matches| ==> matches[k] != []
  }

  /** `set(m.ayah for m in sequence)` */
  function AyahsOf(sequence: seq<WordMatch>): set<int>
  {
    set m | m in sequence :: m.ayah
  }

  /** `surah_to_matches`: the surahs in first-seen order and the ayahs seen for each. */
  datatype Groups = Groups(order: seq<int>, ayahs: map<int, set<int>>)

  /** The grouping loop, one sequence at a time, keyed by the surah of its first match. */
  function Group(matches: seq<seq<WordMatch>>): Groups
    requires NonEmptySequences(matches)
    decreases |matches|
  {
    if matches == [] then Groups([], map[])
    else
      var g := Group(matches[..|matches| - 1]);
      var sequence := matches[|matches| - 1];
      var surah := sequence[0].surah;
      var known := if surah in g.ayahs then g.ayahs[surah] else {};
      Groups(if surah in g.ayahs then g.order else g.order + [surah], g.ayahs[surah := known + AyahsOf(sequence)])
  }

  /** The ayahs grouped under `surah` (none when it was never seen). */
  function AyahsIn(ayahs: map<int, set<int>>, surah: int): set<int>
  {
    if surah in ayahs then ayahs[surah] else {}
  }

  predicate GroupsOk(g: Groups)
  {
    && (forall i :: 0 <= i < |g.order| ==> g.order[i] in g.ayahs && g.ayahs[g.order[i]] != {})
    && (forall s :: s in g.ayahs ==> s in g.order)
  }

  /** Every grouped surah is listed once seen and has at least one ayah. */
  lemma {:induction false} GroupOk(matches: seq<seq<WordMatch>>)
    requires NonEmptySequences(matches)
    ensures GroupsOk(Group(matches))
    ensures matches != [] ==> Group(matches).order != []
    decreases |matches|
  {
    if matches != [] {
      var n := |matches| - 1;
      GroupOk(matches[..n]);
      assert matches[n][0] in matches[n];
      assert matches[n][0].ayah in AyahsOf(matches[n]);
    }
  }

  /**
   * A surah is grouped exactly when some sequence starts in it, and its ayahs
   * are those of the matches of the sequences that start in it.
   */
  lemma GroupSpec(matches: seq<seq<WordMatch>>, surah: int, ayah: int)
    requires NonEmptySequences(matches)
    ensures surah in Group(matches).ayahs <==> exists k :: 0 <= k < |matches| && matches[k][0].surah == surah
    ensures ayah in AyahsIn(Group(matches).ayahs, surah) <==>
      exists k, p :: 0 <= k < |matches| && 0 <= p < |matches[k]| && matches[k][0].surah == surah && matches[k][p].ayah == ayah
  {
    GroupKeys(matches, surah);
    GroupAyahs(matches, surah, ayah);
  }

  /** One more sequence adds its first surah and, under it, the sequence's ayahs. */
  lemma GroupSnoc(matches: seq<seq<WordMatch>>, surah: int)
    requires NonEmptySequences(matches) && matches != []
    ensures NonEmptySequences(matches[..|matches| - 1])
    ensures surah in Group(matches).ayahs <==>
      surah in Group(matches[..|matches| - 1]).ayahs || matches[|matches| - 1][0].surah == surah
    ensures AyahsIn(Group(matches).ayahs, surah) ==
      AyahsIn(Group(matches[..|matches| - 1]).ayahs, surah) +
      (if matches[|matches| - 1][0].surah == surah then AyahsOf(matches[|matches| - 1]) else {})
  {
  }

  lemma {:induction false} GroupKeys(matches: seq<seq<WordMatch>>, surah: int)
    requires NonEmptySequences(matches)
    ensures surah in Group(matches).ayahs <==> exists k :: 0 <= k < |matches| && matches[k][0].surah == surah
    decreases |matches|
  {
    if matches != [] {
      var n := |matches| - 1;
      var init := matches[..n];
      GroupSnoc(matches, surah);
      GroupKeys(init, surah);
      forall k | 0 <= k < n ensures init[k] == matches[k] { }
    }
  }

  lemma {:induction false} GroupAyahs(matches: seq<seq<WordMatch>>, surah: int, ayah: int)
    requires NonEmptySequences(matches)
    ensures ayah in AyahsIn(Group(matches).ayahs, surah) <==>
      exists k, p :: 0 <= k < |matches| && 0 <= p < |matches[k]| && matches[k][0].surah == surah && matches[k][p].ayah == ayah
    decreases |matches|
  {
    if matches != [] {
      var n := |matches| - 1;
      var init := matches[..n];
      GroupSnoc(matches, surah);
      GroupAyahs(init, surah, ayah);
      forall k | 0 <= k < n ensures init[k] == matches[k] { }
      if ayah in AyahsIn(Group(matches).ayahs, surah) && !(ayah in AyahsIn(Group(init).ayahs, surah)) {
        assert ayah in AyahsOf(matches[n]);
        var m :| m in matches[n] && m.ayah == ayah;
        var p :| 0 <= p < |matches[n]| && matches[n][p] == m;
      }
      if exists k, p :: 0 <= k < |matches| && 0 <= p < |matches[k]| && matches[k][0].surah == surah && matches[k][p].ayah == ayah {
        var k, p :| 0 <= k < |matches| && 0 <= p < |matches[k]| && matches[k][0].surah == surah && matches[k][p].ayah == ayah;
        if k == n {
          assert matches[n][p] in matches[n];
        }
      }
    }
  }

  /**
   * The gap-tolerant runs of a sorted list of ayahs: a new run starts where
   * neighbours differ by more than `maxGap + 1`.
   */
  function Runs(s: seq<int>, maxGap: int): (r: seq<seq<int>>)
    ensures r == [] <==> s == []
    ensures r != [] ==> r[|r| - 1] != [] && r[|r| - 1][|r[|r| - 1]| - 1] == s[|s| - 1]
    decreases |s|
  {
    if s == [] then []
    else if |s| == 1 then [s]
    else
      var rs := Runs(s[..|s| - 1], maxGap);
      if s[|s| - 1] - s[|s| - 2] <= maxGap + 1 then rs[..|rs| - 1] + [rs[|rs| - 1] + [s[|s| - 1]]]
      else rs + [[s[|s| - 1]]]
  }

  function Flatten(rs: seq<seq<int>>): seq<int>
    decreases |rs|
  {
    if rs == [] then [] else Flatten(rs[..|rs| - 1]) + rs[|rs| - 1]
  }

  /** Runs are non-empty, tolerant inside, and separated by a too-large gap. */
  predicate RunsOk(rs: seq<seq<int>>, maxGap: int)
  {
    && (forall k :: 0 <= k < |rs| ==> rs[k] != [])
    && (forall k, p :: 0 <= k < |rs| && 0 < p < |rs[k]| ==> rs[k][p] - rs[k][p - 1] <= maxGap + 1)
    && (forall k :: 0 < k < |rs| ==> Apart(rs[k - 1], rs[k], maxGap))
  }

  /** The runs, in order, make up the whole list. */
  lemma {:induction false} RunsFlatten(s: seq<int>, maxGap: int)
    ensures Flatten(Runs(s, maxGap)) == s
    decreases |s|
  {
    if |s| == 1 {
      assert Flatten([s]) == Flatten([]) + s;
    } else if |s| > 1 {
      var n := |s| - 1;
      var init, x := s[..n], s[n];
      assert s == init + [x];
      assert init[|init| - 1] == s[n - 1];
      RunsFlatten(init, maxGap);
      var rs := Runs(init, maxGap);
      var m := |rs| - 1;
      assert rs == rs[..m] + [rs[m]];
      FlattenSnoc(rs[..m], rs[m]);
      if x - s[n - 1] <= maxGap + 1 {
        RunsJoin(init, x, maxGap, s);
        FlattenSnoc(rs[..m], rs[m] + [x]);
        assert Flatten(rs[..m]) + (rs[m] + [x]) == (Flatten(rs[..m]) + rs[m]) + [x];
      } else {
        RunsSplit(init, x, maxGap, s);
        FlattenSnoc(rs, [x]);
      }
    }
  }

  lemma FlattenSnoc(rs: seq<seq<int>>, r: seq<int>)
    ensures Flatten(rs + [r]) == Flatten(rs) + r
  {
    var t := rs + [r];
    assert t[..|t| - 1] == rs;
    assert t[|t| - 1] == r;
  }

  /** How the runs grow by one more ayah. */
  lemma RunsStep(s: seq<int>, maxGap: int)
    requires |s| > 1
    ensures Runs(s[..|s| - 1], maxGap) != []
    ensures Runs(s, maxGap) ==
      var rs := Runs(s[..|s| - 1], maxGap);
      if s[|s| - 1] - s[|s| - 2] <= maxGap + 1 then rs[..|rs| - 1] + [rs[|rs| - 1] + [s[|s| - 1]]]
      else rs + [[s[|s| - 1]]]
  {
  }

  lemma {:induction false} RunsNonEmpty(s: seq<int>, maxGap: int)
    ensures forall k :: 0 <= k < |Runs(s, maxGap)| ==> Runs(s, maxGap)[k] != []
    decreases |s|
  {
    if |s| > 1 {
      var n := |s| - 1;
      RunsNonEmpty(s[..n], maxGap);
      RunsStep(s, maxGap);
      var rs := Runs(s[..n], maxGap);
      var r := Runs(s, maxGap);
      forall k | 0 <= k < |r| ensures r[k] != [] {
        if k < |rs| - 1 {
          assert r[k] == rs[k];
        }
      }
    }
  }

  /** Inside a run, neighbouring ayahs are at most `maxGap + 1` apart. */
  lemma {:induction false} RunsInside(s: seq<int>, maxGap: int)
    ensures forall k, p :: 0 <= k < |Runs(s, maxGap)| && 0 < p < |Runs(s, maxGap)[k]| ==>
      Runs(s, maxGap)[k][p] - Runs(s, maxGap)[k][p - 1] <= maxGap + 1
    decreases |s|
  {
    if |s| > 1 {
      var n := |s| - 1;
      var init, x := s[..n], s[n];
      assert init[n - 1] == s[n - 1];
      RunsInside(init, maxGap);
      RunsStep(s, maxGap);
      var rs := Runs(init, maxGap);
      var m := |rs| - 1;
      var r := Runs(s, maxGap);
      forall k, p | 0 <= k < |r| && 0 < p < |r[k]| ensures r[k][p] - r[k][p - 1] <= maxGap + 1 {
        if k < m || (k == m && x - s[n - 1] > maxGap + 1) {
          assert r[k] == rs[k];
        } else if k == m {
          assert r[k] == rs[m] + [x];
          if p < |rs[m]| {
            assert r[k][p] == rs[m][p] && r[k][p - 1] == rs[m][p - 1];
          } else {
            assert r[k][p - 1] == rs[m][|rs[m]| - 1];
          }
        }
      }
    }
  }

  /** Run `b` starts more than `maxGap + 1` after run `a` ends. */
  predicate Apart(a: seq<int>, b: seq<int>, maxGap: int)
  {
    a != [] && b != [] && b[0] - a[|a| - 1] > maxGap + 1
  }

  /** Between consecutive runs the gap is larger than `maxGap + 1`. */
  lemma {:induction false} RunsApart(s: seq<int>, maxGap: int)
    ensures forall k :: 0 < k < |Runs(s, maxGap)| ==> Apart(Runs(s, maxGap)[k - 1], Runs(s, maxGap)[k], maxGap)
    decreases |s|
  {
    if |s| > 1 {
      var n := |s| - 1;
      var init, x := s[..n], s[n];
      assert init[n - 1] == s[n - 1];
      RunsApart(init, maxGap);
      RunsStep(s, maxGap);
      var rs := Runs(init, maxGap);
      var m := |rs| - 1;
      var r := Runs(s, maxGap);
      if x - s[n - 1] <= maxGap + 1 {
        assert r == rs[..m] + [rs[m] + [x]];
        forall k | 0 < k < |r| ensures Apart(r[k - 1], r[k], maxGap) {
          assert r[k - 1] == rs[k - 1];
          if k < m {
            assert r[k] == rs[k];
          } else {
            assert Apart(rs[k - 1], rs[k], maxGap);
          }
        }
      } else {
        assert r == rs + [[x]];
        forall k | 0 < k < |r| ensures Apart(r[k - 1], r[k], maxGap) {
          assert r[k - 1] == rs[k - 1];
          if k <= m {
            assert r[k] == rs[k];
          }
        }
      }
    }
  }

  /** The runs are maximal gap-tolerant stretches of the list. */
  lemma RunsSpec(s: seq<int>, maxGap: int)
    ensures RunsOk(Runs(s, maxGap), maxGap)
  {
    RunsNonEmpty(s, maxGap);
    RunsInside(s, maxGap);
    RunsApart(s, maxGap);
  }

  /** A run of ayahs within one surah. */
  datatype Run = Run(surah: int, ayahs: seq<int>)

  function Tag(surah: int, rs: seq<seq<int>>): (r: seq<Run>)
    ensures |r| == |rs|
    decreases |rs|
  {
    if rs == [] then [] else Tag(surah, rs[..|rs| - 1]) + [Run(surah, rs[|rs| - 1])]
  }

  /** The runs of one surah's sorted ayahs. */
  function SurahRuns(ayahs: map<int, set<int>>, surah: int, maxGap: int): seq<seq<int>>
  {
    Runs(Sorted(AyahsIn(ayahs, surah)), maxGap)
  }

  /** Every run of every surah, surahs in dictionary order. */
  function AllRuns(order: seq<int>, ayahs: map<int, set<int>>, maxGap: int): seq<Run>
    decreases |order|
  {
    if order == [] then []
    else AllRuns(order[..|order| - 1], ayahs, maxGap) + Tag(order[|order| - 1], SurahRuns(ayahs, order[|order| - 1], maxGap))
  }

  /** The runs the detector compares, for a list of match sequences. */
  function MatchRuns(matches: seq<seq<WordMatch>>, maxGap: int): seq<Run>
    requires NonEmptySequences(matches)
  {
    var g := Group(matches);
    AllRuns(g.order, g.ayahs, maxGap)
  }

  /** The best run so far: `best_length`, `best_surah`, `best_start`, and the run's last ayah. */
  datatype Best = Best(length: int, surah: Option<int>, start: Option<int>, end: Option<int>)

  /** The running best over the runs: a run replaces it only when strictly longer. */
  function Pick(rs: seq<Run>): (b: Best)
    ensures b.length >= 0
    decreases |rs|
  {
    if rs == [] then Best(0, None, None, None)
    else
      var b := Pick(rs[..|rs| - 1]);
      var r := rs[|rs| - 1];
      if |r.ayahs| > b.length then Best(|r.ayahs|, Some(r.surah), Some(r.ayahs[0]), Some(r.ayahs[|r.ayahs| - 1]))
      else b
  }

  lemma PickSnoc(rs: seq<Run>, r: Run)
    ensures Pick(rs + [r]) == if |r.ayahs| > Pick(rs).length then RunBest(r) else Pick(rs)
  {
    var t := rs + [r];
    assert t[..|t| - 1] == rs;
    assert t[|t| - 1] == r;
  }

  lemma TagSnoc(surah: int, rs: seq<seq<int>>, x: seq<int>)
    ensures Tag(surah, rs + [x]) == Tag(surah, rs) + [Run(surah, x)]
  {
    assert (rs + [x])[..|rs|] == rs;
  }

  /** Run `j` is a longest one, and every run before it is strictly shorter. */
  predicate LongestAt(rs: seq<Run>, j: int)
  {
    && 0 <= j < |rs|
    && (forall k :: 0 <= k < |rs| ==> |rs[k].ayahs| <= |rs[j].ayahs|)
    && (forall k :: 0 <= k < j ==> |rs[k].ayahs| < |rs[j].ayahs|)
  }

  /** With non-empty runs, the running best is the first longest run. */
  lemma {:induction false} PickSpec(rs: seq<Run>) returns (j: int)
    requires forall k :: 0 <= k < |rs| ==> rs[k].ayahs != []
    ensures rs == [] ==> Pick(rs) == Best(0, None, None, None)
    ensures rs != [] ==> LongestAt(rs, j) && Pick(rs) == RunBest(rs[j])
    decreases |rs|
  {
    j := 0;
    if rs != [] {
      var n := |rs| - 1;
      var init := rs[..n];
      forall k | 0 <= k < n ensures init[k] == rs[k] { }
      var i := PickSpec(init);
      assert rs == init + [rs[n]];
      PickSnoc(init, rs[n]);
      if |rs[n].ayahs| > Pick(init).length {
        j := n;
      } else {
        j := i;
      }
    }
  }

  /** The running best after taking run `r`. */
  function RunBest(r: Run): Best
    requires r.ayahs != []
  {
    Best(|r.ayahs|, Some(r.surah), Some(r.ayahs[0]), Some(r.ayahs[|r.ayahs| - 1]))
  }

  /** Every compared run is a non-empty run of a grouped surah's sorted ayahs. */
  lemma {:induction false} AllRunsSpec(order: seq<int>, ayahs: map<int, set<int>>, maxGap: int)
    ensures forall k :: 0 <= k < |AllRuns(order, ayahs, maxGap)| ==>
      AllRuns(order, ayahs, maxGap)[k].ayahs != []
      && AllRuns(order, ayahs, maxGap)[k].surah in order
      && AllRuns(order, ayahs, maxGap)[k].ayahs in SurahRuns(ayahs, AllRuns(order, ayahs, maxGap)[k].surah, maxGap)
    decreases |order|
  {
    if order != [] {
      var n := |order| - 1;
      var s := order[n];
      AllRunsSpec(order[..n], ayahs, maxGap);
      var prefix := AllRuns(order[..n], ayahs, maxGap);
      var rs := SurahRuns(ayahs, s, maxGap);
      RunsNonEmpty(Sorted(AyahsIn(ayahs, s)), maxGap);
      TagMembers(s, rs);
      var all := AllRuns(order, ayahs, maxGap);
      assert all == prefix + Tag(s, rs);
      forall k | 0 <= k < |all|
        ensures all[k].ayahs != [] && all[k].surah in order && all[k].ayahs in SurahRuns(ayahs, all[k].surah, maxGap)
      {
        if k < |prefix| {
          assert all[k] == prefix[k];
          assert all[k].surah in order[..n];
        } else {
          assert all[k] == Tag(s, rs)[k - |prefix|];
        }
      }
    }
  }

  lemma {:induction false} TagMembers(surah: int, rs: seq<seq<int>>)
    ensures forall k :: 0 <= k < |rs| ==> Tag(surah, rs)[k] == Run(surah, rs[k])
    decreases |rs|
  {
    if rs != [] {
      var n := |rs| - 1;
      TagMembers(surah, rs[..n]);
      forall k | 0 <= k < n ensures Tag(surah, rs)[k] == Run(surah, rs[k]) {
        assert rs[..n][k] == rs[k];
      }
    }
  }

  /** The largest ayah of a grouped surah: what `last_ayah` holds after that surah's loop. */
  function LastAyahOf(ayahs: map<int, set<int>>, surah: int): int
  {
    var sorted := Sorted(AyahsIn(ayahs, surah));
    if sorted == [] then 0 else sorted[|sorted| - 1]
  }

  /**
   * `_determine_ayah_range_from_matches` as written: the surah and start of
   * the first longest run, but the end is the largest ayah of the last surah
   * the loop visited.
   */
  function AyahRangeAsWritten(matches: seq<seq<WordMatch>>, maxGap: int): Range
    requires NonEmptySequences(matches)
  {
    if matches == [] then NoRange
    else
      var g := Group(matches);
      var b := Pick(AllRuns(g.order, g.ayahs, maxGap));
      if b.length < 2 || b.surah.None? || g.order == [] then NoRange
      else Range(b.surah, b.start, Some(LastAyahOf(g.ayahs, g.order[|g.order| - 1])))
  }

  /** The intended range: the surah, first and last ayah of the first longest run. */
  function AyahRangeOf(matches: seq<seq<WordMatch>>, maxGap: int): Range
    requires NonEmptySequences(matches)
  {
    if matches == [] then NoRange
    else
      var b := Pick(MatchRuns(matches, maxGap));
      if b.length < 2 || b.surah.None? then NoRange else Range(b.surah, b.start, b.end)
  }

  /** The runs compared are non-empty runs of grouped surahs. */
  lemma MatchRunsSpec(matches: seq<seq<WordMatch>>, maxGap: int)
    requires NonEmptySequences(matches)
    ensures forall k :: 0 <= k < |MatchRuns(matches, maxGap)| ==>
      MatchRuns(matches, maxGap)[k].ayahs != []
      && MatchRuns(matches, maxGap)[k].surah in Group(matches).order
      && MatchRuns(matches, maxGap)[k].ayahs in SurahRuns(Group(matches).ayahs, MatchRuns(matches, maxGap)[k].surah, maxGap)
  {
    var g := Group(matches);
    AllRunsSpec(g.order, g.ayahs, maxGap);
  }

  /** The runs compared are non-empty. */
  lemma MatchRunsNonEmpty(matches: seq<seq<WordMatch>>, maxGap: int)
    requires NonEmptySequences(matches)
    ensures forall k :: 0 <= k < |MatchRuns(matches, maxGap)| ==> MatchRuns(matches, maxGap)[k].ayahs != []
  {
    MatchRunsSpec(matches, maxGap);
  }

  /** No range exactly when there are no matches or no run has two ayahs. */
  lemma AyahRangeNone(matches: seq<seq<WordMatch>>, maxGap: int)
    requires NonEmptySequences(matches)
    ensures AyahRangeOf(matches, maxGap) == NoRange <==>
      matches == [] || forall k :: 0 <= k < |MatchRuns(matches, maxGap)| ==> |MatchRuns(matches, maxGap)[k].ayahs| < 2
  {
    var rs := MatchRuns(matches, maxGap);
    MatchRunsSpec(matches, maxGap);
    var j := PickSpec(rs);
  }

  /**
   * A found range is the first longest run: it has at least two ayahs, no run
   * is longer, every earlier run (earlier surah, or earlier in the same surah)
   * is strictly shorter, and the range spans that run's first and last ayah.
   */
  lemma AyahRangeLongest(matches: seq<seq<WordMatch>>, maxGap: int)
    requires NonEmptySequences(matches)
    requires AyahRangeOf(matches, maxGap) != NoRange
    ensures exists j :: (
      && LongestAt(MatchRuns(matches, maxGap), j)
      && |MatchRuns(matches, maxGap)[j].ayahs| >= 2
      && AyahRangeOf(matches, maxGap) == Range(
           Some(MatchRuns(matches, maxGap)[j].surah),
           Some(MatchRuns(matches, maxGap)[j].ayahs[0]),
           Some(MatchRuns(matches, maxGap)[j].ayahs[|MatchRuns(matches, maxGap)[j].ayahs| - 1])))
  {
    var rs := MatchRuns(matches, maxGap);
    MatchRunsSpec(matches, maxGap);
    var j := PickSpec(rs);
    assert LongestAt(rs, j);
  }

  /** The as-written range agrees with the intended one except for the end ayah. */
  lemma AsWrittenDiffersOnlyInEnd(matches: seq<seq<WordMatch>>, maxGap: int)
    requires NonEmptySequences(matches)
    ensures AyahRangeAsWritten(matches, maxGap).surah == AyahRangeOf(matches, maxGap).surah
    ensures AyahRangeAsWritten(matches, maxGap).start == AyahRangeOf(matches, maxGap).start
    ensures AyahRangeAsWritten(matches, maxGap).end.Some? <==> AyahRangeOf(matches, maxGap).end.Some?
  {
    GroupOk(matches);
    var rs := MatchRuns(matches, maxGap);
    MatchRunsSpec(matches, maxGap);
    var j := PickSpec(rs);
  }

  /** `last_ayah` after a surah's loop is the largest ayah grouped under it. */
  lemma LastAyahOfSpec(ayahs: map<int, set<int>>, surah: int)
    requires AyahsIn(ayahs, surah) != {}
    ensures LastAyahOf(ayahs, surah) in AyahsIn(ayahs, surah)
    ensures forall a :: a in AyahsIn(ayahs, surah) ==> a <= LastAyahOf(ayahs, surah)
  {
    var sorted := Sorted(AyahsIn(ayahs, surah));
    assert sorted != [] by {
      var a :| a in AyahsIn(ayahs, surah);
      assert a in sorted;
    }
    assert sorted[|sorted| - 1] in sorted;
    forall a | a in AyahsIn(ayahs, surah)
      ensures a <= LastAyahOf(ayahs, surah)
    {
      assert a in sorted;
      var i :| 0 <= i < |sorted| && sorted[i] == a;
      if i < |sorted| - 1 {
        assert sorted[i] < sorted[|sorted| - 1];
      }
    }
  }

  /**
   * When every match lies in one surah, the as-written range ends at the
   * largest ayah matched anywhere, however far it lies from the winning run.
   */
  lemma AsWrittenEndInOneSurah(matches: seq<seq<WordMatch>>, maxGap: int, surah: int)
    requires NonEmptySequences(matches)
    requires forall k, p :: 0 <= k < |matches| && 0 <= p < |matches[k]| ==> matches[k][p].surah == surah
    requires AyahRangeAsWritten(matches, maxGap) != NoRange
    ensures AyahRangeAsWritten(matches, maxGap).end.Some?
    ensures exists k, p :: 0 <= k < |matches| && 0 <= p < |matches[k]| && matches[k][p].ayah == AyahRangeAsWritten(matches, maxGap).end.value
    ensures forall k, p :: 0 <= k < |matches| && 0 <= p < |matches[k]| ==> matches[k][p].ayah <= AyahRangeAsWritten(matches, maxGap).end.value
  {
    var g := Group(matches);
    GroupOk(matches);
    var last := g.order[|g.order| - 1];
    assert last in g.ayahs;
    GroupSpec(matches, last, 0);
    var k0 :| 0 <= k0 < |matches| && matches[k0][0].surah == last;
    assert last == surah;
    var e := LastAyahOf(g.ayahs, surah);
    assert AyahRangeAsWritten(matches, maxGap).end == Some(e);
    GroupSpec(matches, surah, matches[0][0].ayah);
    LastAyahOfSpec(g.ayahs, surah);
    GroupSpec(matches, surah, e);
    forall k, p | 0 <= k < |matches| && 0 <= p < |matches[k]|
      ensures matches[k][p].ayah <= e
    {
      GroupSpec(matches, surah, matches[k][p].ayah);
      assert matches[k][0].surah == surah;
    }
  }

  lemma AllRunsSnoc(order: seq<int>, t: nat, ayahs: map<int, set<int>>, maxGap: int)
    requires t < |order|
    ensures AllRuns(order[..t + 1], ayahs, maxGap) == AllRuns(order[..t], ayahs, maxGap) + Tag(order[t], SurahRuns(ayahs, order[t], maxGap))
  {
    assert order[..t + 1][..t] == order[..t];
  }

  /** The grouping loop of `_determine_ayah_range_from_matches`, building `surah_to_matches`. */
  method GroupMatches(matches: seq<seq<WordMatch>>) returns (order: seq<int>, surahToMatches: map<int, set<int>>)
    requires NonEmptySequences(matches)
    ensures Groups(order, surahToMatches) == Group(matches)
  {
    order := [];
    surahToMatches := map[];
    for k := 0 to |matches|
      invariant Groups(order, surahToMatches) == Group(matches[..k])
    {
      assert matches[..k + 1][..k] == matches[..k];
      var surah := matches[k][0].surah;
      if surah !in surahToMatches {
        order := order + [surah];
        surahToMatches := surahToMatches[surah := {}];
      }
      var sequenceAyahs := AyahsOf(matches[k]);
      surahToMatches := surahToMatches[surah := surahToMatches[surah] + sequenceAyahs];
    }
    assert matches[..|matches|] == matches;
  }

  /**
   * `_determine_ayah_range_from_matches`, with its grouping loop and its
   * nested run scan, corrected to end the range where the winning run ends
   * (the source reports `last_ayah` instead; see `AyahRangeAsWritten`).
   */
  method DetermineAyahRange(matches: seq<seq<WordMatch>>, maxAllowedGap: int) returns (r: Range)
    requires NonEmptySequences(matches)
    ensures r == AyahRangeOf(matches, maxAllowedGap)
  {
    if matches == [] {
      return NoRange;
    }
    var order, surahToMatches := GroupMatches(matches);
    GroupOk(matches);
    var bestSurah: Option<int> := None;
    var bestStart: Option<int> := None;
    var bestEnd: Option<int> := None;
    var bestLength := 0;
    for t := 0 to |order|
      invariant SameBest(bestLength, bestSurah, bestStart, bestEnd, Pick(AllRuns(order[..t], surahToMatches, maxAllowedGap)))
    {
      var surah := order[t];
      ghost var prefix := AllRuns(order[..t], surahToMatches, maxAllowedGap);
      var sortedAyahs := Sorted(surahToMatches[surah]);
      bestLength, bestSurah, bestStart, bestEnd := ScanSurah(prefix, surah, sortedAyahs, maxAllowedGap, bestLength, bestSurah, bestStart, bestEnd);
      AllRunsSnoc(order, t, surahToMatches, maxAllowedGap);
    }
    assert order[..|order|] == order;
    if bestLength < 2 || bestSurah.None? {
      return NoRange;
    }
    return Range(bestSurah, bestStart, bestEnd);
  }

  /**
   * The inner loop of the range search over one surah's sorted ayahs: it
   * extends the current run while the gap is tolerated and offers each
   * finished run to the running best.
   */
  method ScanSurah(ghost prefix: seq<Run>, surah: int, sortedAyahs: seq<int>, maxAllowedGap: int,
                   bestLength0: int, bestSurah0: Option<int>, bestStart0: Option<int>, bestEnd0: Option<int>)
    returns (bestLength: int, bestSurah: Option<int>, bestStart: Option<int>, bestEnd: Option<int>)
    requires sortedAyahs != []
    requires SameBest(bestLength0, bestSurah0, bestStart0, bestEnd0, Pick(prefix))
    ensures SameBest(bestLength, bestSurah, bestStart, bestEnd, Pick(prefix + Tag(surah, Runs(sortedAyahs, maxAllowedGap))))
  {
    bestLength, bestSurah, bestStart, bestEnd := bestLength0, bestSurah0, bestStart0, bestEnd0;
    var currentStart := sortedAyahs[0];
    var currentLength := 1;
    var lastAyah := sortedAyahs[0];
    ghost var done: seq<seq<int>> := [];
    ghost var cur := [sortedAyahs[0]];
    assert sortedAyahs[..1] == [sortedAyahs[0]];
    assert Runs(sortedAyahs[..1], maxAllowedGap) == done + [cur];
    assert prefix + Tag(surah, done) == prefix;
    for i := 1 to |sortedAyahs|
      invariant ScanAt(prefix, surah, sortedAyahs, maxAllowedGap, i, done, cur,
        Best(bestLength, bestSurah, bestStart, bestEnd), currentStart, currentLength, lastAyah)
    {
      bestLength, bestSurah, bestStart, bestEnd, currentStart, currentLength, lastAyah, done, cur :=
        ScanAyah(prefix, surah, sortedAyahs, maxAllowedGap, i, done, cur,
          bestLength, bestSurah, bestStart, bestEnd, currentStart, currentLength, lastAyah);
    }
    assert sortedAyahs[..|sortedAyahs|] == sortedAyahs;
    bestLength, bestSurah, bestStart, bestEnd := OfferRun(prefix, done, cur,
      bestLength, bestSurah, bestStart, bestEnd, surah, currentStart, currentLength, lastAyah);
  }

  /**
   * The state of the scan of one surah after its first `i` ayahs: `done` are
   * the finished runs, `cur` the open one, and the best covers the finished runs.
   */
  ghost predicate ScanAt(prefix: seq<Run>, surah: int, s: seq<int>, maxGap: int, i: int, done: seq<seq<int>>, cur: seq<int>,
                         best: Best, currentStart: int, currentLength: int, lastAyah: int)
  {
    && 1 <= i <= |s|
    && Runs(s[..i], maxGap) == done + [cur]
    && cur != [] && currentStart == cur[0] && currentLength == |cur|
    && lastAyah == s[i - 1] == cur[|cur| - 1]
    && best == Pick(prefix + Tag(surah, done))
  }

  /** One pass of the loop over a surah's sorted ayahs. */
  method ScanAyah(ghost prefix: seq<Run>, surah: int, sortedAyahs: seq<int>, maxAllowedGap: int, i: int,
                  ghost done0: seq<seq<int>>, ghost cur0: seq<int>,
                  bestLength0: int, bestSurah0: Option<int>, bestStart0: Option<int>, bestEnd0: Option<int>,
                  currentStart0: int, currentLength0: int, lastAyah0: int)
    returns (bestLength: int, bestSurah: Option<int>, bestStart: Option<int>, bestEnd: Option<int>,
             currentStart: int, currentLength: int, lastAyah: int, ghost done: seq<seq<int>>, ghost cur: seq<int>)
    requires i < |sortedAyahs|
    requires ScanAt(prefix, surah, sortedAyahs, maxAllowedGap, i, done0, cur0,
      Best(bestLength0, bestSurah0, bestStart0, bestEnd0), currentStart0, currentLength0, lastAyah0)
    ensures ScanAt(prefix, surah, sortedAyahs, maxAllowedGap, i + 1, done, cur,
      Best(bestLength, bestSurah, bestStart, bestEnd), currentStart, currentLength, lastAyah)
  {
    bestLength, bestSurah, bestStart, bestEnd := bestLength0, bestSurah0, bestStart0, bestEnd0;
    currentStart, currentLength, done, cur := currentStart0, currentLength0, done0, cur0;
    RunsGrow(sortedAyahs, i, maxAllowedGap, done, cur);
    var gap := sortedAyahs[i] - lastAyah0;
    if gap <= maxAllowedGap + 1 {
      currentLength := currentLength + 1;
      cur := cur + [sortedAyahs[i]];
    } else {
      bestLength, bestSurah, bestStart, bestEnd := OfferRun(prefix, done, cur,
        bestLength, bestSurah, bestStart, bestEnd, surah, currentStart, currentLength, lastAyah0);
      currentStart := sortedAyahs[i];
      currentLength := 1;
      done, cur := done + [cur], [sortedAyahs[i]];
    }
    lastAyah := sortedAyahs[i];
  }

  /** `if current_length > best_length`: a strictly longer finished run replaces the best. */
  method OfferRun(ghost prefix: seq<Run>, ghost done: seq<seq<int>>, ghost r: seq<int>,
                  bestLength0: int, bestSurah0: Option<int>, bestStart0: Option<int>, bestEnd0: Option<int>,
                  surah: int, currentStart: int, currentLength: int, lastAyah: int)
    returns (bestLength: int, bestSurah: Option<int>, bestStart: Option<int>, bestEnd: Option<int>)
    requires SameBest(bestLength0, bestSurah0, bestStart0, bestEnd0, Pick(prefix + Tag(surah, done)))
    requires r != [] && currentStart == r[0] && currentLength == |r| && lastAyah == r[|r| - 1]
    ensures SameBest(bestLength, bestSurah, bestStart, bestEnd, Pick(prefix + Tag(surah, done + [r])))
  {
    CloseRun(prefix, surah, done, r);
    bestLength, bestSurah, bestStart, bestEnd := bestLength0, bestSurah0, bestStart0, bestEnd0;
    if currentLength > bestLength {
      bestLength := currentLength;
      bestStart := Some(currentStart);
      bestSurah := Some(surah);
      bestEnd := Some(lastAyah);
    }
  }

  /** The runs of one more sorted ayah: the last run grows, or a new run starts. */
  lemma RunsGrow(s: seq<int>, i: int, maxGap: int, done: seq<seq<int>>, cur: seq<int>)
    requires 1 <= i < |s| && Runs(s[..i], maxGap) == done + [cur]
    ensures s[i] - s[i - 1] <= maxGap + 1 ==> Runs(s[..i + 1], maxGap) == done + [cur + [s[i]]]
    ensures s[i] - s[i - 1] > maxGap + 1 ==> Runs(s[..i + 1], maxGap) == (done + [cur]) + [[s[i]]]
  {
    var init, next := s[..i], s[..i + 1];
    assert next == init + [s[i]];
    assert init[|init| - 1] == s[i - 1];
    var runs := done + [cur];
    if s[i] - s[i - 1] <= maxGap + 1 {
      RunsJoin(init, s[i], maxGap, next);
      assert runs[..|runs| - 1] == done;
    } else {
      RunsSplit(init, s[i], maxGap, next);
    }
  }

  /** Offering the last run of a surah to the running best completes that surah's runs. */
  lemma CloseRun(prefix: seq<Run>, surah: int, done: seq<seq<int>>, r: seq<int>)
    requires r != []
    ensures Pick(prefix + Tag(surah, done + [r])) ==
      var b := Pick(prefix + Tag(surah, done));
      if |r| > b.length then Best(|r|, Some(surah), Some(r[0]), Some(r[|r| - 1])) else b
  {
    TagSnoc(surah, done, r);
    assert prefix + Tag(surah, done + [r]) == (prefix + Tag(surah, done)) + [Run(surah, r)];
    PickSnoc(prefix + Tag(surah, done), Run(surah, r));
  }

  predicate SameBest(length: int, surah: Option<int>, start: Option<int>, end: Option<int>, b: Best)
  {
    length == b.length && surah == b.surah && start == b.start && end == b.end
  }

  lemma AyahsOfSingle(m: WordMatch)
    ensures AyahsOf([m]) == {m.ayah}
  {
    assert m in [m];
  }

  /** Grouping one more single-match sequence. */
  lemma GroupStep(matches: seq<seq<WordMatch>>, m: WordMatch, order: seq<int>, ayahs: map<int, set<int>>, next: seq<seq<WordMatch>>)
    requires NonEmptySequences(matches) && Group(matches) == Groups(order, ayahs)
    requires next == matches + [[m]]
    ensures NonEmptySequences(next)
    ensures Group(next) ==
      Groups(if m.surah in ayahs then order else order + [m.surah], ayahs[m.surah := AyahsIn(ayahs, m.surah) + {m.ayah}])
  {
    assert next[..|matches|] == matches;
    AyahsOfSingle(m);
  }

  /** The runs of one surah's ayahs when it is the only surah. */
  lemma OneSurahRuns(surah: int, ayahs: set<int>, sorted: seq<int>, maxGap: int)
    requires StrictlyIncreasing(sorted) && forall x :: x in sorted <==> x in ayahs
    ensures AllRuns([surah], map[surah := ayahs], maxGap) == Tag(surah, Runs(sorted, maxGap))
    ensures LastAyahOf(map[surah := ayahs], surah) == if sorted == [] then 0 else sorted[|sorted| - 1]
  {
    SortedIs(ayahs, sorted);
    assert [surah][..0] == [];
  }

  lemma RunsOfOne(x: int, maxGap: int)
    ensures Runs([x], maxGap) == [[x]]
  {
  }

  /** One more ayah close enough to the previous one joins the last run. */
  lemma RunsJoin(s: seq<int>, x: int, maxGap: int, next: seq<int>)
    requires s != [] && x - s[|s| - 1] <= maxGap + 1 && next == s + [x]
    ensures Runs(next, maxGap) ==
      Runs(s, maxGap)[..|Runs(s, maxGap)| - 1] + [Runs(s, maxGap)[|Runs(s, maxGap)| - 1] + [x]]
  {
    assert next[..|s|] == s;
  }

  /** One more ayah too far from the previous one starts a new run. */
  lemma RunsSplit(s: seq<int>, x: int, maxGap: int, next: seq<int>)
    requires s != [] && x - s[|s| - 1] > maxGap + 1 && next == s + [x]
    ensures Runs(next, maxGap) == Runs(s, maxGap) + [[x]]
  {
    assert next[..|s|] == s;
  }

  /** Grouping a single one-match sequence. */
  lemma GroupOne(a: WordMatch)
    ensures NonEmptySequences([[a]])
    ensures Group([[a]]) == Groups([a.surah], map[a.surah := {a.ayah}])
  {
    GroupStep([], a, [], map[], [[a]]);
    assert {} + {a.ayah} == {a.ayah};
    assert map[][a.surah := {} + {a.ayah}] == map[a.surah := {a.ayah}];
  }

  /** Reading the range off the grouped runs and their running best. */
  lemma RangeFromRuns(matches: seq<seq<WordMatch>>, maxGap: int, order: seq<int>, ayahs: map<int, set<int>>, runs: seq<Run>, b: Best, lastAyah: int)
    requires NonEmptySequences(matches) && matches != []
    requires Group(matches) == Groups(order, ayahs) && order != []
    requires AllRuns(order, ayahs, maxGap) == runs && Pick(runs) == b
    requires b.length >= 2 && b.surah.Some?
    requires LastAyahOf(ayahs, order[|order| - 1]) == lastAyah
    ensures AyahRangeOf(matches, maxGap) == Range(b.surah, b.start, b.end)
    ensures AyahRangeAsWritten(matches, maxGap) == Range(b.surah, b.start, Some(lastAyah))
  {
  }

  /** The grouping of three one-match sequences of a single surah. */
  lemma GroupThree(a: WordMatch, b: WordMatch, c: WordMatch)
    requires a.surah == b.surah == c.surah
    ensures NonEmptySequences([[a], [b], [c]])
    ensures Group([[a], [b], [c]]) == Groups([a.surah], map[a.surah := {a.ayah, b.ayah, c.ayah}])
  {
    var s := a.surah;
    GroupOne(a);
    GroupStep([[a]], b, [s], map[s := {a.ayah}], [[a], [b]]);
    assert AyahsIn(map[s := {a.ayah}], s) == {a.ayah};
    assert {a.ayah} + {b.ayah} == {a.ayah, b.ayah};
    assert Group([[a], [b]]) == Groups([s], map[s := {a.ayah, b.ayah}]);
    GroupStep([[a], [b]], c, [s], map[s := {a.ayah, b.ayah}], [[a], [b], [c]]);
    assert AyahsIn(map[s := {a.ayah, b.ayah}], s) == {a.ayah, b.ayah};
    assert {a.ayah, b.ayah} + {c.ayah} == {a.ayah, b.ayah, c.ayah};
  }

  /** The runs of three consecutive ayahs with an allowed gap of 2. */
  lemma ConsecutiveRuns(x: int, y: int, z: int)
    requires y == x + 1 && z == x + 2
    ensures Runs([x, y, z], 2) == [[x, y, z]]
  {
    RunsOfOne(x, 2);
    RunsJoin([x], y, 2, [x, y]);
    RunsJoin([x, y], z, 2, [x, y, z]);
  }

  /** The runs, and the last ayah, of one surah holding three consecutive ayahs. */
  lemma ConsecutiveSurahRuns(s: int, x: int, y: int, z: int)
    requires y == x + 1 && z == x + 2
    ensures AllRuns([s], map[s := {x, y, z}], 2) == [Run(s, [x, y, z])]
    ensures LastAyahOf(map[s := {x, y, z}], s) == z
  {
    OneSurahRuns(s, {x, y, z}, [x, y, z], 2);
    ConsecutiveRuns(x, y, z);
    assert Tag(s, [[x, y, z]]) == [Run(s, [x, y, z])];
  }

  /** The running best over a single run. */
  lemma PickOne(r: Run)
    requires r.ayahs != []
    ensures Pick([r]) == RunBest(r)
  {
    PickSnoc([], r);
    assert [] + [r] == [r];
  }

  /** Docstring example 1: three consecutive ayahs of one surah give that surah, the first and the last. */
  lemma ExampleConsecutive(a: WordMatch, b: WordMatch, c: WordMatch)
    requires a.surah == b.surah == c.surah && b.ayah == a.ayah + 1 && c.ayah == a.ayah + 2
    ensures NonEmptySequences([[a], [b], [c]])
    ensures AyahRangeOf([[a], [b], [c]], 2) == Range(Some(a.surah), Some(a.ayah), Some(c.ayah))
    ensures AyahRangeAsWritten([[a], [b], [c]], 2) == Range(Some(a.surah), Some(a.ayah), Some(c.ayah))
  {
    var r := Run(a.surah, [a.ayah, b.ayah, c.ayah]);
    GroupThree(a, b, c);
    ConsecutiveSurahRuns(a.surah, a.ayah, b.ayah, c.ayah);
    PickOne(r);
    RangeFromRuns([[a], [b], [c]], 2, [a.surah], map[a.surah := {a.ayah, b.ayah, c.ayah}], [r],
      Best(3, Some(a.surah), Some(a.ayah), Some(c.ayah)), c.ayah);
  }

  /** The runs, and the last ayah, of one surah holding two ayahs two apart. */
  lemma AllowedGapSurahRuns(s: int, x: int, y: int)
    requires y == x + 2
    ensures AllRuns([s], map[s := {x, y}], 2) == [Run(s, [x, y])]
    ensures LastAyahOf(map[s := {x, y}], s) == y
  {
    OneSurahRuns(s, {x, y}, [x, y], 2);
    GapPairRuns(x, y);
    TagOne(s, [x, y]);
  }
  lemma GapPairRuns(x: int, y: int)
    requires y == x + 2
    ensures Runs([x, y], 2) == [[x, y]]
  {
    RunsOfOne(x, 2);
    RunsJoin([x], y, 2, [x, y]);
  }

  /** Docstring example 2: two ayahs of one surah two apart are within the allowed gap of 2 and form one run. */
  lemma ExampleAllowedGap(a: WordMatch, b: WordMatch)
    requires a.surah == b.surah && b.ayah == a.ayah + 2
    ensures NonEmptySequences([[a], [b]])
    ensures AyahRangeOf([[a], [b]], 2) == Range(Some(a.surah), Some(a.ayah), Some(b.ayah))
    ensures AyahRangeAsWritten([[a], [b]], 2) == Range(Some(a.surah), Some(a.ayah), Some(b.ayah))
  {
    var s := a.surah;
    var r := Run(s, [a.ayah, b.ayah]);
    GroupOne(a);
    GroupStep([[a]], b, [s], map[s := {a.ayah}], [[a], [b]]);
    assert AyahsIn(map[s := {a.ayah}], s) == {a.ayah};
    assert {a.ayah} + {b.ayah} == {a.ayah, b.ayah};
    AllowedGapSurahRuns(s, a.ayah, b.ayah);
    PickOne(r);
    RangeFromRuns([[a], [b]], 2, [s], map[s := {a.ayah, b.ayah}], [r],
      Best(2, Some(a.surah), Some(a.ayah), Some(b.ayah)), b.ayah);
  }

  /** The grouping of one sequence of a first surah followed by two of a second. */
  lemma GroupTwoSurahs(a: WordMatch, b: WordMatch, c: WordMatch)
    requires a.surah != b.surah && b.surah == c.surah
    ensures NonEmptySequences([[a], [b], [c]])
    ensures Group([[a], [b], [c]]) == Groups([a.surah, b.surah], map[a.surah := {a.ayah}, b.surah := {b.ayah, c.ayah}])
  {
    var s1, s2 := a.surah, b.surah;
    GroupOne(a);
    GroupStep([[a]], b, [s1], map[s1 := {a.ayah}], [[a], [b]]);
    assert AyahsIn(map[s1 := {a.ayah}], s2) == {};
    assert {} + {b.ayah} == {b.ayah};
    assert Group([[a], [b]]) == Groups([s1, s2], map[s1 := {a.ayah}, s2 := {b.ayah}]);
    GroupStep([[a], [b]], c, [s1, s2], map[s1 := {a.ayah}, s2 := {b.ayah}], [[a], [b], [c]]);
    assert AyahsIn(map[s1 := {a.ayah}, s2 := {b.ayah}], s2) == {b.ayah};
    assert {b.ayah} + {c.ayah} == {b.ayah, c.ayah};
    assert map[s1 := {a.ayah}, s2 := {b.ayah}][s2 := {b.ayah, c.ayah}] == map[s1 := {a.ayah}, s2 := {b.ayah, c.ayah}];
  }

  /** The runs of one ayah of a first surah followed by two consecutive ayahs of a second. */
  lemma TwoSurahsRuns(s1: int, s2: int, x: int, y: int, z: int)
    requires s1 != s2 && z == y + 1
    ensures AllRuns([s1, s2], map[s1 := {x}, s2 := {y, z}], 2) == [Run(s1, [x]), Run(s2, [y, z])]
    ensures LastAyahOf(map[s1 := {x}, s2 := {y, z}], s2) == z
  {
    var ayahs := map[s1 := {x}, s2 := {y, z}];
    SingleAyahRuns(ayahs, s1, x);
    PairRuns(ayahs, s2, y, z);
    FirstSurahRuns(ayahs, s1, x);
    SecondSurahRuns(ayahs, s1, s2, x, y, z);
  }
  lemma FirstSurahRuns(ayahs: map<int, set<int>>, s1: int, x: int)
    requires SurahRuns(ayahs, s1, 2) == [[x]]
    ensures AllRuns([s1], ayahs, 2) == [Run(s1, [x])]
  {
    assert [s1][..0] == [];
    assert Tag(s1, [[x]]) == [Run(s1, [x])];
  }
  lemma SecondSurahRuns(ayahs: map<int, set<int>>, s1: int, s2: int, x: int, y: int, z: int)
    requires AllRuns([s1], ayahs, 2) == [Run(s1, [x])]
    requires SurahRuns(ayahs, s2, 2) == [[y, z]]
    ensures AllRuns([s1, s2], ayahs, 2) == [Run(s1, [x]), Run(s2, [y, z])]
  {
    AllRunsPair(s1, s2, ayahs, 2);
    TagOne(s2, [y, z]);
  }
  lemma AllRunsPair(s1: int, s2: int, ayahs: map<int, set<int>>, maxGap: int)
    ensures AllRuns([s1, s2], ayahs, maxGap) == AllRuns([s1], ayahs, maxGap) + Tag(s2, SurahRuns(ayahs, s2, maxGap))
  {
    var order := [s1, s2];
    AllRunsLast(order, ayahs, maxGap);
    assert order[..1] == [s1] && order[1] == s2;
  }
  lemma AllRunsLast(order: seq<int>, ayahs: map<int, set<int>>, maxGap: int)
    requires order != []
    ensures AllRuns(order, ayahs, maxGap) ==
      AllRuns(order[..|order| - 1], ayahs, maxGap) + Tag(order[|order| - 1], SurahRuns(ayahs, order[|order| - 1], maxGap))
  {
  }
  lemma TagOne(s: int, r: seq<int>)
    ensures Tag(s, [r]) == [Run(s, r)]
  {
    assert [r][..0] == [];
  }

  /** A surah holding a single ayah has one run. */
  lemma SingleAyahRuns(ayahs: map<int, set<int>>, s: int, x: int)
    requires s in ayahs && ayahs[s] == {x}
    ensures SurahRuns(ayahs, s, 2) == [[x]]
  {
    SortedIs({x}, [x]);
    RunsOfOne(x, 2);
  }

  /** A surah holding two consecutive ayahs has one run of both. */
  lemma PairRuns(ayahs: map<int, set<int>>, s: int, y: int, z: int)
    requires s in ayahs && ayahs[s] == {y, z} && z == y + 1
    ensures SurahRuns(ayahs, s, 2) == [[y, z]] && LastAyahOf(ayahs, s) == z
  {
    SortedIs({y, z}, [y, z]);
    RunsOfOne(y, 2);
    RunsJoin([y], z, 2, [y, z]);
  }

  /** The running best over a single ayah of one surah and two of another. */
  lemma TwoSurahsPick(s1: int, s2: int, x: int, y: int, z: int)
    ensures Pick([Run(s1, [x]), Run(s2, [y, z])]) == Best(2, Some(s2), Some(y), Some(z))
  {
    var r1, r2 := Run(s1, [x]), Run(s2, [y, z]);
    PickOne(r1);
    PickSnoc([r1], r2);
    assert [r1] + [r2] == [r1, r2];
  }

  /** Docstring example 3: two consecutive ayahs of a second surah beat a single ayah of the first. */
  lemma ExampleTwoSurahs(a: WordMatch, b: WordMatch, c: WordMatch)
    requires a.surah != b.surah && b.surah == c.surah && c.ayah == b.ayah + 1
    ensures NonEmptySequences([[a], [b], [c]])
    ensures AyahRangeOf([[a], [b], [c]], 2) == Range(Some(b.surah), Some(b.ayah), Some(c.ayah))
    ensures AyahRangeAsWritten([[a], [b], [c]], 2) == Range(Some(b.surah), Some(b.ayah), Some(c.ayah))
  {
    GroupTwoSurahs(a, b, c);
    TwoSurahsRuns(a.surah, b.surah, a.ayah, b.ayah, c.ayah);
    TwoSurahsPick(a.surah, b.surah, a.ayah, b.ayah, c.ayah);
    RangeFromRuns([[a], [b], [c]], 2, [a.surah, b.surah], map[a.surah := {a.ayah}, b.surah := {b.ayah, c.ayah}],
      [Run(a.surah, [a.ayah]), Run(b.surah, [b.ayah, c.ayah])], Best(2, Some(b.surah), Some(b.ayah), Some(c.ayah)), c.ayah);
  }

  /** The grouping of four one-match sequences of a single surah. */
  lemma GroupFour(a: WordMatch, b: WordMatch, c: WordMatch, d: WordMatch)
    requires a.surah == b.surah == c.surah == d.surah
    ensures NonEmptySequences([[a], [b], [c], [d]])
    ensures Group([[a], [b], [c], [d]]) == Groups([a.surah], map[a.surah := {a.ayah, b.ayah, c.ayah, d.ayah}])
  {
    var s := a.surah;
    GroupThree(a, b, c);
    GroupStep([[a], [b], [c]], d, [s], map[s := {a.ayah, b.ayah, c.ayah}], [[a], [b], [c], [d]]);
    assert AyahsIn(map[s := {a.ayah, b.ayah, c.ayah}], s) == {a.ayah, b.ayah, c.ayah};
    assert {a.ayah, b.ayah, c.ayah} + {d.ayah} == {a.ayah, b.ayah, c.ayah, d.ayah};
  }

  /** The runs of w, w + 1, w + 2 and w + 10 with an allowed gap of 2: the last ayah is a run of its own. */
  lemma CounterexampleRuns(w: int, x: int, y: int, z: int)
    requires x == w + 1 && y == w + 2 && z == w + 10
    ensures Runs([w, x, y, z], 2) == [[w, x, y], [z]]
  {
    ConsecutiveRuns(w, x, y);
    RunsSplit([w, x, y], z, 2, [w, x, y, z]);
  }

  /** The runs, and the last ayah, of one surah holding ayahs w, w + 1, w + 2 and w + 10. */
  lemma CounterexampleSurahRuns(s: int, w: int, x: int, y: int, z: int)
    requires x == w + 1 && y == w + 2 && z == w + 10
    ensures AllRuns([s], map[s := {w, x, y, z}], 2) == [Run(s, [w, x, y]), Run(s, [z])]
    ensures LastAyahOf(map[s := {w, x, y, z}], s) == z
  {
    FourAyahSurah(s, w, x, y, z);
    CounterexampleRuns(w, x, y, z);
    TagTwo(s, [w, x, y], [z]);
  }

  /** One surah's four increasing ayahs, sorted. */
  lemma FourAyahSurah(s: int, w: int, x: int, y: int, z: int)
    requires w < x < y < z
    ensures AllRuns([s], map[s := {w, x, y, z}], 2) == Tag(s, Runs([w, x, y, z], 2))
    ensures LastAyahOf(map[s := {w, x, y, z}], s) == z
  {
    var sorted := [w, x, y, z];
    assert StrictlyIncreasing(sorted);
    assert forall v :: v in sorted <==> v in {w, x, y, z};
    OneSurahRuns(s, {w, x, y, z}, sorted, 2);
  }

  lemma TagTwo(s: int, a: seq<int>, b: seq<int>)
    ensures Tag(s, [a, b]) == [Run(s, a), Run(s, b)]
  {
    TagSnoc(s, [a], b);
    TagSnoc(s, [], a);
    assert [a] + [b] == [a, b];
    assert [] + [a] == [a];
  }

  /** The first of two runs stays the best when the second is shorter. */
  lemma CounterexamplePick(s: int, w: int, x: int, y: int, z: int)
    ensures Pick([Run(s, [w, x, y]), Run(s, [z])]) == Best(3, Some(s), Some(w), Some(y))
  {
    var r1, r2 := Run(s, [w, x, y]), Run(s, [z]);
    PickOne(r1);
    PickSnoc([r1], r2);
    assert [r1] + [r2] == [r1, r2];
  }

  /**
   * The end ayah as written: with ayahs w, w + 1, w + 2 and w + 10 of one
   * surah the longest run is w..w + 2, yet the source reports w + 10, the
   * largest ayah of the last surah visited; the intended range ends at w + 2.
   */
  lemma EndAyahCounterexample(a: WordMatch, b: WordMatch, c: WordMatch, d: WordMatch)
    requires a.surah == b.surah == c.surah == d.surah
    requires b.ayah == a.ayah + 1 && c.ayah == a.ayah + 2 && d.ayah == a.ayah + 10
    ensures NonEmptySequences([[a], [b], [c], [d]])
    ensures AyahRangeAsWritten([[a], [b], [c], [d]], 2) == Range(Some(a.surah), Some(a.ayah), Some(d.ayah))
    ensures AyahRangeOf([[a], [b], [c], [d]], 2) == Range(Some(a.surah), Some(a.ayah), Some(c.ayah))
  {
    GroupFour(a, b, c, d);
    CounterexampleSurahRuns(a.surah, a.ayah, b.ayah, c.ayah, d.ayah);
    CounterexamplePick(a.surah, a.ayah, b.ayah, c.ayah, d.ayah);
    RangeFromRuns([[a], [b], [c], [d]], 2, [a.surah], map[a.surah := {a.ayah, b.ayah, c.ayah, d.ayah}],
      [Run(a.surah, [a.ayah, b.ayah, c.ayah]), Run(a.surah, [d.ayah])], Best(3, Some(a.surah), Some(a.ayah), Some(c.ayah)), d.ayah);
  }
}
