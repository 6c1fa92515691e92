/**
 * Per-ayah timing from word spans (`_extract_ayah_timestamps`): group the
 * reference word positions by ayah number, and for each ayah in increasing
 * order take the spans that overlap the ayah's position range; an ayah with
 * such spans gets the earliest start and the latest end among them.
 */
module AyahTimestamps {
  import opened Common
  import opened Models

  /** The set of ayah numbers the reference words carry. */
  function AyahNumbers(reference: seq<ReferenceWord>): set<int>
  {
    set i | 0 <= i < |reference| :: reference[i].ayahNumber
  }

  /** The positions of the reference words of ayah `a`, in increasing order. */
  function Positions(reference: seq<ReferenceWord>, a: int): seq<int>
    decreases |reference|
  {
    if reference == [] then []
    else
      Positions(reference[..|reference| - 1], a) + (if reference[|reference| - 1].ayahNumber == a then [|reference| - 1] else [])
  }

  /** The positions of ayah `a` increase and are exactly the indices of its words. */
  lemma {:induction false} PositionsSpec(reference: seq<ReferenceWord>, a: int)
    ensures StrictlyIncreasing(Positions(reference, a))
    ensures forall i :: i in Positions(reference, a) <==> 0 <= i < |reference| && reference[i].ayahNumber == a
    decreases |reference|
  {
    PositionsMembers(reference, a);
    if reference != [] {
      var n := |reference| - 1;
      var init := reference[..n];
      PositionsSpec(init, a);
      var r := Positions(init, a);
      if reference[n].ayahNumber == a {
        assert Positions(reference, a) == r + [n];
        forall k | 0 <= k < |r| ensures r[k] < n {
          assert r[k] in r;
        }
        IncreasingConcat(r, [n]);
      } else {
        assert Positions(reference, a) == r;
      }
    }
  }

  /** The positions of ayah `a` are exactly the indices of its words. */
  lemma {:induction false} PositionsMembers(reference: seq<ReferenceWord>, a: int)
    ensures forall i :: i in Positions(reference, a) <==> 0 <= i < |reference| && reference[i].ayahNumber == a
    decreases |reference|
  {
    if reference != [] {
      var n := |reference| - 1;
      var init := reference[..n];
      PositionsMembers(init, a);
      var tail := if reference[n].ayahNumber == a then [n] else [];
      assert Positions(reference, a) == Positions(init, a) + tail;
      forall i ensures i in Positions(reference, a) <==> 0 <= i < |reference| && reference[i].ayahNumber == a {
        if 0 <= i < n { assert init[i] == reference[i]; }
      }
    }
  }

  /** `ayah_to_ref_word_indices` after the grouping loop over `reference`. */
  function GroupFrom(reference: seq<ReferenceWord>): map<int, seq<int>>
    decreases |reference|
  {
    if reference == [] then map[]
    else
      var g := GroupFrom(reference[..|reference| - 1]);
      var a := reference[|reference| - 1].ayahNumber;
      g[a := (if a in g then g[a] else []) + [|reference| - 1]]
  }

  /** The grouping maps each ayah number present, and only those, to the positions of its words in order. */
  lemma {:induction false} GroupIsPositions(reference: seq<ReferenceWord>)
    ensures GroupFrom(reference).Keys == AyahNumbers(reference)
    ensures forall a :: a in GroupFrom(reference) ==> GroupFrom(reference)[a] == Positions(reference, a)
    decreases |reference|
  {
    if reference != [] {
      var init := reference[..|reference| - 1];
      GroupIsPositions(init);
      PositionsSpec(init, reference[|reference| - 1].ayahNumber);
      assert forall i :: 0 <= i < |init| ==> init[i] == reference[i];
      var a := reference[|reference| - 1].ayahNumber;
      assert AyahNumbers(reference) == AyahNumbers(init) + {a} by {
        forall x | x in AyahNumbers(reference) ensures x in AyahNumbers(init) + {a} {
          var i :| 0 <= i < |reference| && reference[i].ayahNumber == x;
          if i < |init| { assert init[i].ayahNumber == x; }
        }
        forall x | x in AyahNumbers(init) ensures x in AyahNumbers(reference) {
          var i :| 0 <= i < |init| && init[i].ayahNumber == x;
          assert reference[i].ayahNumber == x;
        }
        assert reference[|reference| - 1].ayahNumber == a;
      }
      forall b | b in GroupFrom(reference) ensures GroupFrom(reference)[b] == Positions(reference, b) {
        if b == a && a !in GroupFrom(init) {
          if Positions(init, a) != [] {
            assert Positions(init, a)[0] in Positions(init, a);
          }
        }
      }
    }
  }

  lemma PositionsNonEmpty(reference: seq<ReferenceWord>, a: int)
    requires a in AyahNumbers(reference)
    ensures Positions(reference, a) != []
  {
    PositionsSpec(reference, a);
    var i :| 0 <= i < |reference| && reference[i].ayahNumber == a;
    assert i in Positions(reference, a);
  }

  lemma GroupAt(reference: seq<ReferenceWord>, a: int)
    requires a in AyahNumbers(reference)
    ensures a in GroupFrom(reference) && GroupFrom(reference)[a] == Positions(reference, a)
  {
    GroupIsPositions(reference);
  }

  lemma GroupKeys(reference: seq<ReferenceWord>)
    ensures GroupFrom(reference).Keys == AyahNumbers(reference)
  {
    GroupIsPositions(reference);
  }

  /** First position of ayah `a` (`min(ref_word_indices)`). */
  function AyahStart(reference: seq<ReferenceWord>, a: int): int
    requires a in AyahNumbers(reference)
  {
    PositionsNonEmpty(reference, a);
    MinOf(Positions(reference, a))
  }

  /** One past the last position of ayah `a` (`max(ref_word_indices) + 1`). */
  function AyahEnd(reference: seq<ReferenceWord>, a: int): int
    requires a in AyahNumbers(reference)
  {
    PositionsNonEmpty(reference, a);
    MaxOf(Positions(reference, a)) + 1
  }

  /** The first and last word positions of an ayah bound all its words. */
  lemma AyahRange(reference: seq<ReferenceWord>, a: int)
    requires a in AyahNumbers(reference)
    ensures 0 <= AyahStart(reference, a) < AyahEnd(reference, a) <= |reference|
    ensures reference[AyahStart(reference, a)].ayahNumber == a && reference[AyahEnd(reference, a) - 1].ayahNumber == a
    ensures forall i :: 0 <= i < |reference| && reference[i].ayahNumber == a ==>
      AyahStart(reference, a) <= i < AyahEnd(reference, a)
  {
    PositionsSpec(reference, a);
  }

  /** The spans whose reference range meets `[lo, hi)`, in order. */
  function Overlapping(spans: seq<SegmentedWordSpan>, lo: int, hi: int): seq<SegmentedWordSpan>
    decreases |spans|
  {
    if spans == [] then []
    else
      var sp := spans[|spans| - 1];
      Overlapping(spans[..|spans| - 1], lo, hi) + (if sp.referenceIndexEnd > lo && sp.referenceIndexStart < hi then [sp] else [])
  }

  /** The filter keeps exactly the spans that meet `[lo, hi)`. */
  lemma {:induction false} OverlappingMembers(spans: seq<SegmentedWordSpan>, lo: int, hi: int)
    ensures forall sp :: sp in Overlapping(spans, lo, hi) <==> sp in spans && Meets(sp, lo, hi)
    decreases |spans|
  {
    if spans != [] {
      var init := spans[..|spans| - 1];
      OverlappingMembers(init, lo, hi);
      assert spans == init + [spans[|spans| - 1]];
    }
  }

  /** `min(span.start for span in spans)`. */
  function MinStart(spans: seq<SegmentedWordSpan>): real
    requires spans != []
  {
    if |spans| == 1 then spans[0].start
    else
      var m := MinStart(spans[1..]);
      if spans[0].start <= m then spans[0].start else m
  }

  /** The earliest start is attained by some span and bounds every span. */
  lemma {:induction false} MinStartSpec(spans: seq<SegmentedWordSpan>)
    requires spans != []
    ensures exists sp :: sp in spans && MinStart(spans) == sp.start
    ensures forall sp :: sp in spans ==> MinStart(spans) <= sp.start
    decreases |spans|
  {
    assert spans[0] in spans;
    if |spans| > 1 {
      MinStartSpec(spans[1..]);
      assert forall sp :: sp in spans ==> sp == spans[0] || sp in spans[1..];
    }
  }

  /** `max(span.end for span in spans)`. */
  function MaxEnd(spans: seq<SegmentedWordSpan>): real
    requires spans != []
  {
    if |spans| == 1 then spans[0].end
    else
      var m := MaxEnd(spans[1..]);
      if spans[0].end >= m then spans[0].end else m
  }

  /** The latest end is attained by some span and bounds every span. */
  lemma {:induction false} MaxEndSpec(spans: seq<SegmentedWordSpan>)
    requires spans != []
    ensures exists sp :: sp in spans && MaxEnd(spans) == sp.end
    ensures forall sp :: sp in spans ==> sp.end <= MaxEnd(spans)
    decreases |spans|
  {
    assert spans[0] in spans;
    if |spans| > 1 {
      MaxEndSpec(spans[1..]);
      assert forall sp :: sp in spans ==> sp == spans[0] || sp in spans[1..];
    }
  }

  /** The ayah numbers in increasing order (`sorted(ayah_to_ref_word_indices.keys())`). */
  function SortedAyahs(reference: seq<ReferenceWord>): seq<int>
  {
    Sorted(AyahNumbers(reference))
  }

  /** The spans overlapping ayah `a`. */
  function AyahSpans(spans: seq<SegmentedWordSpan>, reference: seq<ReferenceWord>, a: int): seq<SegmentedWordSpan>
    requires a in AyahNumbers(reference)
  {
    Overlapping(spans, AyahStart(reference, a), AyahEnd(reference, a))
  }

  /** The timestamp of ayah `a` with text `text`: none when no span overlaps the ayah. */
  function AyahEntry(spans: seq<SegmentedWordSpan>, reference: seq<ReferenceWord>, a: int, text: string)
    : Option<AyahTimestamp>
    requires a in AyahNumbers(reference)
  {
    var sps := AyahSpans(spans, reference, a);
    if sps != [] then Some(AyahTimestamp(a, MinStart(sps), MaxEnd(sps), text)) else None
  }

  /** The present values of `es`, in order. */
  function Present(es: seq<Option<AyahTimestamp>>): seq<AyahTimestamp>
    decreases |es|
  {
    if es == [] then []
    else Present(es[..|es| - 1]) + (if es[|es| - 1].Some? then [es[|es| - 1].value] else [])
  }

  /** The entries of the first `n` of the ayahs `keys`, the text of the `k`-th one being `ayahs[k]`. */
  function Entries(spans: seq<SegmentedWordSpan>, reference: seq<ReferenceWord>, ayahs: seq<string>,
                   keys: seq<int>, n: nat): (r: seq<Option<AyahTimestamp>>)
    requires n <= |keys| <= |ayahs|
    requires forall k :: 0 <= k < |keys| ==> keys[k] in AyahNumbers(reference)
    ensures |r| == n
  {
    seq(n, k requires 0 <= k < n => AyahEntry(spans, reference, keys[k], ayahs[k]))
  }

  /** One more ayah appends its entry. */
  lemma EntriesSnoc(spans: seq<SegmentedWordSpan>, reference: seq<ReferenceWord>, ayahs: seq<string>,
                    keys: seq<int>, n: nat)
    requires n < |keys| <= |ayahs|
    requires forall k :: 0 <= k < |keys| ==> keys[k] in AyahNumbers(reference)
    ensures Entries(spans, reference, ayahs, keys, n + 1)
         == Entries(spans, reference, ayahs, keys, n) + [AyahEntry(spans, reference, keys[n], ayahs[n])]
  {
    var e, f := Entries(spans, reference, ayahs, keys, n + 1), Entries(spans, reference, ayahs, keys, n);
    assert forall k :: 0 <= k < n ==> e[k] == f[k];
  }

  lemma SortedAyahsMembers(reference: seq<ReferenceWord>)
    ensures |SortedAyahs(reference)| == |AyahNumbers(reference)|
    ensures forall k :: 0 <= k < |SortedAyahs(reference)| ==> SortedAyahs(reference)[k] in AyahNumbers(reference)
  {
    var r := SortedAyahs(reference);
    assert forall k :: 0 <= k < |r| ==> r[k] in r;
  }

  /** `_extract_ayah_timestamps` as a function of its inputs. */
  function AyahTimestampsOf(spans: seq<SegmentedWordSpan>, reference: seq<ReferenceWord>, ayahs: seq<string>)
    : seq<AyahTimestamp>
    requires |AyahNumbers(reference)| <= |ayahs|
  {
    SortedAyahsMembers(reference);
    Present(Entries(spans, reference, ayahs, SortedAyahs(reference), |SortedAyahs(reference)|))
  }

  /** The ayah numbers of a list of timestamps, in order. */
  function Numbers(ts: seq<AyahTimestamp>): (r: seq<int>)
    ensures |r| == |ts| && forall p :: 0 <= p < |ts| ==> r[p] == ts[p].ayahNumber
  {
    seq(|ts|, p requires 0 <= p < |ts| => ts[p].ayahNumber)
  }

  /** Span `sp` covers a reference position in `[lo, hi)`. */
  predicate Meets(sp: SegmentedWordSpan, lo: int, hi: int)
  {
    sp.referenceIndexEnd > lo && sp.referenceIndexStart < hi
  }

  /**
   * `t` runs from the earliest start to the latest end among the spans of
   * `spans` that meet `[lo, hi)`.
   */
  predicate Covers(t: AyahTimestamp, spans: seq<SegmentedWordSpan>, lo: int, hi: int)
  {
    (forall sp :: sp in spans && Meets(sp, lo, hi) ==> t.startTime <= sp.start && sp.end <= t.endTime)
    && (exists sp :: sp in spans && Meets(sp, lo, hi) && sp.start == t.startTime)
    && (exists sp :: sp in spans && Meets(sp, lo, hi) && sp.end == t.endTime)
  }

  /**
   * An ayah gets a timestamp exactly when some span meets its word range, and
   * that timestamp carries the ayah's number and the given text and runs from
   * the earliest start to the latest end of those spans.
   */
  lemma AyahEntrySpec(spans: seq<SegmentedWordSpan>, reference: seq<ReferenceWord>, a: int, text: string)
    requires a in AyahNumbers(reference)
    ensures AyahEntry(spans, reference, a, text).None?
        <==> forall sp :: sp in spans ==> !Meets(sp, AyahStart(reference, a), AyahEnd(reference, a))
    ensures AyahEntry(spans, reference, a, text).Some? ==>
      AyahEntry(spans, reference, a, text).value.ayahNumber == a
      && AyahEntry(spans, reference, a, text).value.text == text
      && Covers(AyahEntry(spans, reference, a, text).value, spans, AyahStart(reference, a), AyahEnd(reference, a))
  {
    var sps := AyahSpans(spans, reference, a);
    OverlappingMembers(spans, AyahStart(reference, a), AyahEnd(reference, a));
    if sps == [] {
      forall sp | sp in spans ensures !Meets(sp, AyahStart(reference, a), AyahEnd(reference, a)) {
        assert sp !in sps;
      }
    } else {
      assert sps[0] in sps;
      MinStartSpec(sps);
      MaxEndSpec(sps);
    }
  }

  /** Every timestamp is the entry of its own ayah number. */
  predicate Faithful(spans: seq<SegmentedWordSpan>, reference: seq<ReferenceWord>, ts: seq<AyahTimestamp>)
  {
    forall p :: 0 <= p < |ts| ==>
      ts[p].ayahNumber in AyahNumbers(reference) && AyahEntry(spans, reference, ts[p].ayahNumber, ts[p].text) == Some(ts[p])
  }

  /** The text of each timestamp is `ayahs[k]` for the position `k` of its ayah number among the first `n` keys. */
  predicate TextsByKeyPosition(ts: seq<AyahTimestamp>, keys: seq<int>, ayahs: seq<string>, n: nat)
    requires n <= |keys| <= |ayahs|
  {
    forall p :: 0 <= p < |ts| ==> exists k :: 0 <= k < n && keys[k] == ts[p].ayahNumber && ts[p].text == ayahs[k]
  }

  lemma PresentSnoc(es: seq<Option<AyahTimestamp>>, e: Option<AyahTimestamp>)
    ensures Present(es + [e]) == Present(es) + (if e.Some? then [e.value] else [])
  {
    assert (es + [e])[..|es|] == es;
  }

  /** Every present value comes from `es`. */
  lemma {:induction false} PresentSound(es: seq<Option<AyahTimestamp>>)
    ensures forall p :: 0 <= p < |Present(es)| ==> Some(Present(es)[p]) in es
    decreases |es|
  {
    if es != [] {
      var init := es[..|es| - 1];
      PresentSound(init);
      forall p | 0 <= p < |Present(es)| ensures Some(Present(es)[p]) in es {
        if p < |Present(init)| {
          assert Present(es)[p] == Present(init)[p];
          var k :| 0 <= k < |init| && init[k] == Some(Present(init)[p]);
          assert es[k] == init[k];
        } else {
          assert es[|es| - 1] == Some(Present(es)[p]);
        }
      }
    }
  }

  /** Every value present in `es` is kept. */
  lemma {:induction false} PresentComplete(es: seq<Option<AyahTimestamp>>)
    ensures forall k :: 0 <= k < |es| && es[k].Some? ==> es[k].value in Present(es)
    decreases |es|
  {
    if es != [] {
      var init := es[..|es| - 1];
      PresentComplete(init);
      forall k | 0 <= k < |es| && es[k].Some? ensures es[k].value in Present(es) {
        if k < |init| {
          assert init[k] == es[k];
        }
      }
    }
  }

  /** Present values whose numbers increase along `es` keep increasing. */
  lemma {:induction false} PresentIncreasing(es: seq<Option<AyahTimestamp>>)
    requires forall i, j :: 0 <= i < j < |es| && es[i].Some? && es[j].Some? ==>
      es[i].value.ayahNumber < es[j].value.ayahNumber
    ensures StrictlyIncreasing(Numbers(Present(es)))
    decreases |es|
  {
    if es != [] {
      var init := es[..|es| - 1];
      assert forall k :: 0 <= k < |init| ==> init[k] == es[k];
      PresentIncreasing(init);
      PresentSound(init);
      var ts := Present(es);
      var prev := Present(init);
      forall p, q | 0 <= p < q < |ts| ensures ts[p].ayahNumber < ts[q].ayahNumber {
        assert ts[p] == prev[p];
        if q < |prev| {
          assert ts[q] == prev[q];
          assert Numbers(prev)[p] < Numbers(prev)[q];
        } else {
          var k :| 0 <= k < |init| && init[k] == Some(prev[p]);
          assert es[|es| - 1] == Some(ts[q]);
        }
      }
    }
  }

  /**
   * Every record `_extract_ayah_timestamps` returns belongs to an ayah of the
   * reference, some span meets that ayah's word range, and the record runs
   * from the earliest start to the latest end of those spans.
   */
  lemma AyahTimestampsFaithful(spans: seq<SegmentedWordSpan>, reference: seq<ReferenceWord>, ayahs: seq<string>)
    requires |AyahNumbers(reference)| <= |ayahs|
    ensures Faithful(spans, reference, AyahTimestampsOf(spans, reference, ayahs))
  {
    SortedAyahsMembers(reference);
    EntriesFaithful(spans, reference, ayahs, SortedAyahs(reference));
  }

  /** The records come in strictly increasing ayah order. */
  lemma AyahTimestampsOrdered(spans: seq<SegmentedWordSpan>, reference: seq<ReferenceWord>, ayahs: seq<string>)
    requires |AyahNumbers(reference)| <= |ayahs|
    ensures StrictlyIncreasing(Numbers(AyahTimestampsOf(spans, reference, ayahs)))
  {
    SortedAyahsMembers(reference);
    var keys := SortedAyahs(reference);
    EntryFacts(spans, reference, ayahs, keys);
    KeyedIncreasing(Entries(spans, reference, ayahs, keys, |keys|), keys, ayahs);
  }

  /** An ayah has a record exactly when some span meets its word range. */
  lemma AyahTimestampsComplete(spans: seq<SegmentedWordSpan>, reference: seq<ReferenceWord>, ayahs: seq<string>)
    requires |AyahNumbers(reference)| <= |ayahs|
    ensures forall a :: a in Numbers(AyahTimestampsOf(spans, reference, ayahs))
                   <==> a in AyahNumbers(reference) && AyahSpans(spans, reference, a) != []
  {
    SortedAyahsMembers(reference);
    EntriesComplete(spans, reference, ayahs, SortedAyahs(reference));
  }

  /** With every ayah number among the keys, the present numbers are the ayahs some span meets. */
  lemma EntriesComplete(spans: seq<SegmentedWordSpan>, reference: seq<ReferenceWord>, ayahs: seq<string>, keys: seq<int>)
    requires |keys| <= |ayahs|
    requires forall k :: 0 <= k < |keys| ==> keys[k] in AyahNumbers(reference)
    requires forall x :: x in keys <==> x in AyahNumbers(reference)
    ensures forall a :: a in Numbers(Present(Entries(spans, reference, ayahs, keys, |keys|)))
                   <==> a in AyahNumbers(reference) && AyahSpans(spans, reference, a) != []
  {
    var es := Entries(spans, reference, ayahs, keys, |keys|);
    EntryFacts(spans, reference, ayahs, keys);
    KeyedNumbers(es, keys, ayahs);
    var covered := set a | a in AyahNumbers(reference) && AyahSpans(spans, reference, a) != [];
    KeyedCover(es, keys, AyahNumbers(reference), covered);
  }

  /** The keys with an entry are the covered ones among all keys. */
  lemma KeyedCover(es: seq<Option<AyahTimestamp>>, keys: seq<int>, nums: set<int>, covered: set<int>)
    requires |es| == |keys|
    requires forall x :: x in keys <==> x in nums
    requires forall k :: 0 <= k < |keys| ==> (es[k].Some? <==> keys[k] in covered)
    ensures forall a :: (exists k :: 0 <= k < |es| && es[k].Some? && keys[k] == a) <==> a in nums && a in covered
  {
    forall a | a in nums && a in covered ensures exists k :: 0 <= k < |es| && es[k].Some? && keys[k] == a {
      var k :| 0 <= k < |keys| && keys[k] == a;
      assert es[k].Some?;
    }
  }

  /**
   * The text of each record is `ayahs[k]` where `k` is the position of its
   * ayah number among the sorted ayah numbers of the reference words (not
   * the position of the ayah in `ayahs`).
   */
  lemma AyahTimestampsTexts(spans: seq<SegmentedWordSpan>, reference: seq<ReferenceWord>, ayahs: seq<string>)
    requires |AyahNumbers(reference)| <= |ayahs|
    ensures |SortedAyahs(reference)| <= |ayahs|
    ensures TextsByKeyPosition(AyahTimestampsOf(spans, reference, ayahs), SortedAyahs(reference), ayahs,
                               |SortedAyahs(reference)|)
  {
    SortedAyahsMembers(reference);
    var keys := SortedAyahs(reference);
    EntryFacts(spans, reference, ayahs, keys);
    KeyedTexts(Entries(spans, reference, ayahs, keys, |keys|), keys, ayahs);
  }

  /** The present entries are each the entry of their own ayah number. */
  lemma EntriesFaithful(spans: seq<SegmentedWordSpan>, reference: seq<ReferenceWord>, ayahs: seq<string>, keys: seq<int>)
    requires |keys| <= |ayahs|
    requires forall k :: 0 <= k < |keys| ==> keys[k] in AyahNumbers(reference)
    ensures Faithful(spans, reference, Present(Entries(spans, reference, ayahs, keys, |keys|)))
  {
    var es := Entries(spans, reference, ayahs, keys, |keys|);
    var ts := Present(es);
    PresentSound(es);
    forall p | 0 <= p < |ts|
      ensures ts[p].ayahNumber in AyahNumbers(reference)
      ensures AyahEntry(spans, reference, ts[p].ayahNumber, ts[p].text) == Some(ts[p])
    {
      var k :| 0 <= k < |es| && es[k] == Some(ts[p]);
      assert es[k] == AyahEntry(spans, reference, keys[k], ayahs[k]);
      assert ts[p].ayahNumber == keys[k] && ts[p].text == ayahs[k];
    }
  }

  /** Each entry is present exactly when some span meets its ayah, and then it carries its key and text. */
  lemma EntryFacts(spans: seq<SegmentedWordSpan>, reference: seq<ReferenceWord>, ayahs: seq<string>, keys: seq<int>)
    requires |keys| <= |ayahs|
    requires forall k :: 0 <= k < |keys| ==> keys[k] in AyahNumbers(reference)
    ensures forall k :: 0 <= k < |keys| ==>
      (Entries(spans, reference, ayahs, keys, |keys|)[k].Some? <==> AyahSpans(spans, reference, keys[k]) != [])
    ensures Keyed(Entries(spans, reference, ayahs, keys, |keys|), keys, ayahs)
  {
  }

  /** Each present entry carries the key and text at its own position. */
  predicate Keyed(es: seq<Option<AyahTimestamp>>, keys: seq<int>, ayahs: seq<string>)
    requires |es| == |keys| <= |ayahs|
  {
    forall k :: 0 <= k < |es| && es[k].Some? ==> es[k].value.ayahNumber == keys[k] && es[k].value.text == ayahs[k]
  }

  /** Keyed entries give present values whose texts are taken by key position. */
  lemma KeyedTexts(es: seq<Option<AyahTimestamp>>, keys: seq<int>, ayahs: seq<string>)
    requires |es| == |keys| <= |ayahs| && Keyed(es, keys, ayahs)
    ensures TextsByKeyPosition(Present(es), keys, ayahs, |keys|)
  {
    var ts := Present(es);
    PresentSound(es);
    forall p | 0 <= p < |ts| ensures exists k :: 0 <= k < |keys| && keys[k] == ts[p].ayahNumber && ts[p].text == ayahs[k] {
      var k :| 0 <= k < |es| && es[k] == Some(ts[p]);
    }
  }

  /** For keyed entries, the present numbers are exactly the keys that have an entry. */
  lemma KeyedNumbers(es: seq<Option<AyahTimestamp>>, keys: seq<int>, ayahs: seq<string>)
    requires |es| == |keys| <= |ayahs| && Keyed(es, keys, ayahs)
    ensures forall a :: a in Numbers(Present(es)) <==> exists k :: 0 <= k < |es| && es[k].Some? && keys[k] == a
  {
    var ts := Present(es);
    PresentSound(es);
    PresentComplete(es);
    forall a ensures a in Numbers(ts) <==> exists k :: 0 <= k < |es| && es[k].Some? && keys[k] == a {
      if a in Numbers(ts) {
        var p :| 0 <= p < |ts| && Numbers(ts)[p] == a;
        var k :| 0 <= k < |es| && es[k] == Some(ts[p]);
      }
      if exists k :: 0 <= k < |es| && es[k].Some? && keys[k] == a {
        var k :| 0 <= k < |es| && es[k].Some? && keys[k] == a;
        var p :| 0 <= p < |ts| && ts[p] == es[k].value;
        assert Numbers(ts)[p] == a;
      }
    }
  }

  /** For keyed entries, increasing keys give increasing present numbers. */
  lemma KeyedIncreasing(es: seq<Option<AyahTimestamp>>, keys: seq<int>, ayahs: seq<string>)
    requires |es| == |keys| <= |ayahs| && Keyed(es, keys, ayahs) && StrictlyIncreasing(keys)
    ensures StrictlyIncreasing(Numbers(Present(es)))
  {
    forall i, j | 0 <= i < j < |es| && es[i].Some? && es[j].Some?
      ensures es[i].value.ayahNumber < es[j].value.ayahNumber
    {
      assert keys[i] < keys[j];
    }
    PresentIncreasing(es);
  }

  /** The grouping loop of `_extract_ayah_timestamps`. */
  method GroupByAyah(referenceWords: seq<ReferenceWord>) returns (groups: map<int, seq<int>>)
    ensures groups == GroupFrom(referenceWords)
  {
    groups := map[];
    for i := 0 to |referenceWords|
      invariant groups == GroupFrom(referenceWords[..i])
    {
      assert referenceWords[..i + 1][..i] == referenceWords[..i];
      var a := referenceWords[i].ayahNumber;
      if a !in groups {
        groups := groups[a := []];
      }
      groups := groups[a := groups[a] + [i]];
    }
    assert referenceWords[..|referenceWords|] == referenceWords;
  }

  /** The overlap filter of `_extract_ayah_timestamps`. */
  method CollectOverlapping(wordSpans: seq<SegmentedWordSpan>, ayahStartIdx: int, ayahEndIdx: int)
    returns (ayahSpans: seq<SegmentedWordSpan>)
    ensures ayahSpans == Overlapping(wordSpans, ayahStartIdx, ayahEndIdx)
  {
    ayahSpans := [];
    for k := 0 to |wordSpans|
      invariant ayahSpans == Overlapping(wordSpans[..k], ayahStartIdx, ayahEndIdx)
    {
      assert wordSpans[..k + 1][..k] == wordSpans[..k];
      var span := wordSpans[k];
      if span.referenceIndexEnd > ayahStartIdx && span.referenceIndexStart < ayahEndIdx {
        ayahSpans := ayahSpans + [span];
      }
    }
    assert wordSpans[..|wordSpans|] == wordSpans;
  }

  /** The body of the loop over the sorted ayah numbers, for one ayah. */
  method TimestampForAyah(wordSpans: seq<SegmentedWordSpan>, referenceWords: seq<ReferenceWord>,
                          groups: map<int, seq<int>>, ayahNumber: int, ayahText: string)
    returns (entry: Option<AyahTimestamp>)
    requires groups == GroupFrom(referenceWords) && ayahNumber in AyahNumbers(referenceWords)
    ensures entry == AyahEntry(wordSpans, referenceWords, ayahNumber, ayahText)
  {
    GroupAt(referenceWords, ayahNumber);
    PositionsNonEmpty(referenceWords, ayahNumber);
    var refWordIndices := groups[ayahNumber];
    var ayahStartIdx := MinOf(refWordIndices);
    var ayahEndIdx := MaxOf(refWordIndices) + 1;
    assert ayahStartIdx == AyahStart(referenceWords, ayahNumber);
    assert ayahEndIdx == AyahEnd(referenceWords, ayahNumber);
    var ayahSpans := CollectOverlapping(wordSpans, ayahStartIdx, ayahEndIdx);
    assert ayahSpans == AyahSpans(wordSpans, referenceWords, ayahNumber);
    if ayahSpans != [] {
      var startTime := MinStart(ayahSpans);
      var endTime := MaxEnd(ayahSpans);
      entry := Some(AyahTimestamp(ayahNumber, startTime, endTime, ayahText));
    } else {
      entry := None;
    }
  }

  /** `_extract_ayah_timestamps`. */
  method ExtractAyahTimestamps(wordSpans: seq<SegmentedWordSpan>, referenceWords: seq<ReferenceWord>,
                               referenceAyahs: seq<string>)
    returns (ayahTimestamps: seq<AyahTimestamp>)
    requires |AyahNumbers(referenceWords)| <= |referenceAyahs|
    ensures ayahTimestamps == AyahTimestampsOf(wordSpans, referenceWords, referenceAyahs)
  {
    var groups := GroupByAyah(referenceWords);
    GroupKeys(referenceWords);
    var sortedAyahNums := Sorted(groups.Keys);
    SortedAyahsMembers(referenceWords);
    ayahTimestamps := TimestampsForAyahs(wordSpans, referenceWords, referenceAyahs, groups, sortedAyahNums);
  }

  /** The loop of `_extract_ayah_timestamps` over the sorted ayah numbers. */
  method TimestampsForAyahs(wordSpans: seq<SegmentedWordSpan>, referenceWords: seq<ReferenceWord>,
                            referenceAyahs: seq<string>, groups: map<int, seq<int>>, sortedAyahNums: seq<int>)
    returns (ayahTimestamps: seq<AyahTimestamp>)
    requires |sortedAyahNums| <= |referenceAyahs|
    requires forall k :: 0 <= k < |sortedAyahNums| ==> sortedAyahNums[k] in AyahNumbers(referenceWords)
    requires groups == GroupFrom(referenceWords)
    ensures ayahTimestamps
         == Present(Entries(wordSpans, referenceWords, referenceAyahs, sortedAyahNums, |sortedAyahNums|))
  {
    ayahTimestamps := [];
    for idx := 0 to |sortedAyahNums|
      invariant ayahTimestamps == Present(Entries(wordSpans, referenceWords, referenceAyahs, sortedAyahNums, idx))
    {
      var entry := TimestampForAyah(wordSpans, referenceWords, groups, sortedAyahNums[idx], referenceAyahs[idx]);
      EntriesSnoc(wordSpans, referenceWords, referenceAyahs, sortedAyahNums, idx);
      PresentSnoc(Entries(wordSpans, referenceWords, referenceAyahs, sortedAyahNums, idx), entry);
      if entry.Some? {
        ayahTimestamps := ayahTimestamps + [entry.value];
      }
    }
  }
}
