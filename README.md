# Hafizku core in Dafny

Hafizku helps a reciter memorise the Quran. Its Python side takes a
recording's word-level transcription and aligns it with the reference
ayahs. The alignment is a word-level edit distance with a traceback, a
look-back rematch for unmatched words, and per-ayah timestamps. It also
finds which surah and which ayah range a transcription covers. For this it
uses an inverted word index, runs of consecutive matches and a surah vote.
A small streaming follower checks live recitation word by word. Two one-off
scripts build the data files it reads: the cleaned ayah corpus and the word
index. The Node side merges a user's stored memorisation records with the
Quran's verses, juz and pages. It reports a per-verse status and score, and
a per-juz and per-page count, percentage and status.

The model has one module per source file, plus three shared modules:
`Common` (Option, sorting a set of integers), `PyText` (Python's `split`,
`strip`, whitespace collapsing) and `ArabicText` (the letter filter that
three source files copy). Each loop of the source is a `method` proved equal
to a specification function, and the properties are lemmas about that
function.

- Costs of the alignment are counted in half-units (insertion 2, deletion 2,
  match 0, substitution 1 for the source's 1.0, 1.0, 0.0, 0.5). Every
  comparison between costs therefore comes out as in the source.
- Times are `real`.
- Keys that the source converts between `str` and `int` are modelled by
  their integer value.
- Files, the transcription service, the Quran service and the difflib ratio
  become parameters.

## Model

| member | source | states |
|---|---|---|
| Models.DerivedFlagsInfo | python-api/surah_splitter/models/all_models.py:80-88 | a derived `flags_info` reports bit 0, 1, 2 and 3 of `flags` as matched_input, matched_reference, exact and inexact, and never rematched |
| Models.NewSpan | python-api/surah_splitter/models/all_models.py:55-88 | the constructor keeps every given field and a supplied `flags_info`; a missing `flags_info` is the one derived from `flags` |
| Models.FlagConstants | python-api/surah_splitter/models/all_models.py:73-78 | MATCHED_INPUT, MATCHED_REFERENCE, EXACT and INEXACT are the distinct single bits 0 to 3, and CLEAR has no bit set |
| Models.MaskTest | python-api/surah_splitter/models/all_models.py:84-87 | `bool(flags & 2^j)` holds exactly when bit j of flags is set |
| Models.MatchFlags | python-api/surah_splitter/services/ayah_matching_service.py:356-385 | the flags of an exact match and of a substitution are 7 and 11, and the dictionaries written out by hand equal the derived ones |
| ArabicText.CleanWordSpec | python-api/surah_splitter/services/ayah_matching_service.py:164-180 | a cleaned word is single-spaced, holds only kept Arabic letters and plain spaces, and its letters are the input's kept letters in order |
| ArabicText.CleanWordIdempotent | python-api/surah_splitter/services/ayah_matching_service.py:164-180 | cleaning a cleaned word changes nothing |
| ArabicText.KeepAllowedSpec | python-api/surah_splitter/services/ayah_matching_service.py:176 | the character-class deletion leaves only allowed characters and leaves a string of allowed characters unchanged |
| ArabicText.CleanTextSpec | python-api/surah_splitter/services/quran_metadata_service.py:529-558 | the words of `_clean_text` are non-empty, made of kept letters only, and together spell the input's kept letters |
| ArabicText.CleanTextIsSplitOfFiltered | python-api/surah_splitter/services/quran_metadata_service.py:554-558 | collapsing and trimming before `split()` change nothing: the words are the whitespace runs of the filtered text |
| ArabicText.CleanTextMembers | python-api/surah_splitter/services/quran_metadata_service.py:554 | a character occurs in some word exactly when it occurs in the input and is in the kept class, so U+0622 survives |
| PyText.SplitSpec | python-api/surah_splitter/services/ayah_matching_service.py:203 | `split()` returns non-empty words with no whitespace, and their concatenation is the text without its whitespace |
| PyText.SplitNormalized | python-api/surah_splitter/services/quran_metadata_service.py:557-558 | splitting a collapsed and stripped text gives the same words as splitting the original |
| PyText.StripCollapseSingleSpaced | python-api/surah_splitter/services/ayah_matching_service.py:179 | collapsing whitespace runs and stripping leave no leading, trailing or doubled space and no other whitespace character |
| PyText.CollapseSpacesIdempotent | python-api/surah_splitter/services/ayah_matching_service.py:179 | collapsing whitespace twice is collapsing it once |
| AyahMatching.SurvivorsSpec | python-api/surah_splitter/services/ayah_matching_service.py:145-151 | the kept segment positions increase and are exactly the segments whose cleaned word is non-empty |
| AyahMatching.RecognizedFromFails | python-api/surah_splitter/services/ayah_matching_service.py:145-157 | the extraction raises KeyError exactly when some segment has no "word", or has a non-empty cleaned word and no "start" or no "end"; a segment whose cleaned word is empty may lack its timing |
| AyahMatching.RecognizedAt | python-api/surah_splitter/services/ayah_matching_service.py:145-160 | when no KeyError is raised, the p-th recognised word is the p-th surviving segment with its cleaned word, start, end and score |
| AyahMatching.RecognizedWordsClean | python-api/surah_splitter/services/ayah_matching_service.py:131-162 | every recognised word is non-empty and already clean |
| AyahMatching.ExtractRecognizedWords | python-api/surah_splitter/services/ayah_matching_service.py:131-162 | the loop returns the recognised words of the segments, or stops with the KeyError of a segment with a missing key; a missing `word_segments` key gives no words |
| AyahMatching.CleanedWordsSpec | python-api/surah_splitter/services/ayah_matching_service.py:203-206 | every kept word of a reference ayah is non-empty, clean and the cleaning of one of the ayah's tokens |
| AyahMatching.ReferenceWordsClean | python-api/surah_splitter/services/ayah_matching_service.py:182-221 | every reference word is non-empty and clean |
| AyahMatching.ReferenceWordsFromAyahs | python-api/surah_splitter/services/ayah_matching_service.py:196-219 | every reference word is one of the cleaned words of one of the ayahs |
| AyahMatching.SurahPositions | python-api/surah_splitter/services/ayah_matching_service.py:217 | `position_wrt_surah` is the 1-based position in the whole list without ayah numbers, and -1 with them |
| AyahMatching.AyahPositions | python-api/surah_splitter/services/ayah_matching_service.py:195-219 | the k-th kept word of ayah i sits right after the words of the earlier ayahs, with that word, the ayah's number, `position_wrt_ayah` k+1 and `position_wrt_surah` its 1-based list position (-1 with ayah numbers) |
| AyahMatching.ReferenceAyahNumbers | python-api/surah_splitter/services/ayah_matching_service.py:197-213 | an ayah number occurs among the reference words exactly when it labels an ayah that keeps a word after cleaning |
| AyahMatching.LabelsUpToSpec | python-api/surah_splitter/services/ayah_matching_service.py:197-200 | the labels of the first n ayahs are the given numbers or i+1, and there are at most n of them |
| AyahMatching.ReferenceAyahCount | python-api/surah_splitter/services/ayah_matching_service.py:484 | there are no more distinct ayah numbers than reference ayahs, so `reference_ayahs[idx]` is always in range |
| AyahMatching.ExtractReferenceWords | python-api/surah_splitter/services/ayah_matching_service.py:182-221 | the loops return the reference words, or the IndexError when `ayah_numbers` is non-empty but shorter than the ayah list |
| AyahMatching.AppendAyahWords | python-api/surah_splitter/services/ayah_matching_service.py:209-219 | the inner loop appends the ayah's words numbered from the current list length |
| AyahMatching.MatchAyahs | python-api/surah_splitter/services/ayah_matching_service.py:28-129 | the result is the timestamps and spans of the cheapest alignment of the cleaned words, or the KeyError of the recognised words, or the IndexError of the reference extraction |
| AyahMatching.MatchAyahsFails | python-api/surah_splitter/services/ayah_matching_service.py:28-129 | `match_ayahs` fails exactly when a segment has a missing key, or a non-empty `ayah_numbers` is shorter than the ayah list |
| AyahMatching.AlignmentIsOptimal | python-api/surah_splitter/services/ayah_matching_service.py:61-100 | the alignment `match_ayahs` computes is an edit path that no other edit path undercuts |
| AyahMatching.MatchedSpansExactIffSameWord | python-api/surah_splitter/services/ayah_matching_service.py:28-129 | a returned span is flagged exact exactly when its recognised and reference words are equal |
| AyahMatching.MatchedForwardSpansIncrease | python-api/surah_splitter/services/ayah_matching_service.py:28-129 | the spans that are not rematched have strictly increasing reference positions |
| AyahMatching.MatchedRematchesInAyah | python-api/surah_splitter/services/ayah_matching_service.py:86-100 | with the look-back of 0 ayahs used here, a rematched word lies at or before the latest forward match, inside that match's ayah |
| AyahMatching.MatchedTimestamps | python-api/surah_splitter/services/ayah_matching_service.py:102-103 | the returned timestamps are in increasing ayah order, and each runs from the earliest start to the latest end of the spans touching its ayah |
| Alignment.Borders | python-api/surah_splitter/services/ayah_matching_service.py:250-258 | the first column costs i insertions (code 1), the first row j deletions (code 2), and the origin has code 0 |
| Alignment.InteriorCell | python-api/surah_splitter/services/ayah_matching_service.py:261-290 | an interior cell holds the cheapest of insertion, deletion and diagonal, with ties going to insertion then deletion, and the diagonal is a match exactly when the words are equal |
| Alignment.ComputeAlignmentMatrices | python-api/surah_splitter/services/ayah_matching_service.py:223-292 | both matrices have size (n+1)×(m+1), and every cell holds the specified cost and operation |
| Alignment.FillBorders | python-api/surah_splitter/services/ayah_matching_service.py:249-258 | the first column holds the insertion costs and operations, the first row the deletion ones, and cell (0,0) cost 0 with no operation |
| Alignment.FillRow | python-api/surah_splitter/services/ayah_matching_service.py:262-290 | filling row i sets every cell of that row to its cost and operation and leaves the other rows alone |
| Alignment.ChooseCell | python-api/surah_splitter/services/ayah_matching_service.py:263-290 | one cell's cost and operation come from its three neighbours as specified |
| Alignment.Traceback | python-api/surah_splitter/services/ayah_matching_service.py:294-329 | the walk from the bottom-right cell, reversed, is the forward trace of any back matrix, including the guard at negative indices |
| Alignment.CostIsLowerBound | python-api/surah_splitter/services/ayah_matching_service.py:261-290 | no edit path to (i, j) costs less than `cost_matrix[i, j]` |
| Alignment.TraceIsCheapestPath | python-api/surah_splitter/services/ayah_matching_service.py:294-329 | reading the computed back matrix from (i, j) gives an edit path whose cost is `cost_matrix[i, j]` |
| Alignment.TracebackIsOptimal | python-api/surah_splitter/services/ayah_matching_service.py:294-329 | the traceback of the computed matrices reaches the origin without the guard firing and is a cheapest edit path |
| Alignment.PathCounts | python-api/surah_splitter/services/ayah_matching_service.py:294-329 | an alignment has one insertion or diagonal step per recognised word and one deletion or diagonal step per reference word |
| Alignment.FirstRowPath | python-api/surah_splitter/services/ayah_matching_service.py:255-258 | with no recognised words the alignment deletes every reference word in order |
| Alignment.FirstColumnPath | python-api/surah_splitter/services/ayah_matching_service.py:250-253 | with no reference words the alignment inserts every recognised word in order |
| Alignment.PathColumnsMonotone | python-api/surah_splitter/services/ayah_matching_service.py:314-326 | along an alignment the reference column never goes back |
| Alignment.PathRowsMonotone | python-api/surah_splitter/services/ayah_matching_service.py:314-326 | along an alignment the recognised row never goes back |
| Alignment.AlignmentShape | python-api/surah_splitter/services/ayah_matching_service.py:223-329 | the computed alignment goes from (0, 0) to (n, m) with the step counts above, all deletions for n = 0 and all insertions for m = 0 |
| WordSpans.PathIsWellIndexed | python-api/surah_splitter/services/ayah_matching_service.py:356-437 | every step of an edit path reads only words that exist, so the span builder never indexes out of range |
| WordSpans.Rematch | python-api/surah_splitter/services/ayah_matching_service.py:396-408 | the look-back returns the closest position at or before the last match whose word is equal, inside the ayah window, or -1 when none exists |
| WordSpans.FindRematch | python-api/surah_splitter/services/ayah_matching_service.py:396-408 | the backward loop with its early break returns that position |
| WordSpans.MatchSpan | python-api/surah_splitter/services/ayah_matching_service.py:356-385 | a match or substitution gives a span over its one reference word with the recognised word's text and times, flags 7 or 11 and the matching `flags_info` |
| WordSpans.RematchSpan | python-api/surah_splitter/services/ayah_matching_service.py:410-432 | a successful look-back gives an exact span over the found reference word, marked rematched, with the recognised word's times |
| WordSpans.ConvertToWordSpans | python-api/surah_splitter/services/ayah_matching_service.py:331-440 | the loop over the alignment returns the specified spans |
| WordSpans.SpansFromWords | python-api/surah_splitter/services/ayah_matching_service.py:331-440 | every span covers one existing reference word and carries it, the text and times of one recognised word and consistent flags; a rematched span is exact over equal words |
| WordSpans.ForwardSpansAreDiagonal | python-api/surah_splitter/services/ayah_matching_service.py:356-385 | the spans not marked rematched are exactly the spans of the matches and substitutions, in order |
| WordSpans.SpanCount | python-api/surah_splitter/services/ayah_matching_service.py:331-440 | there is one span per match or substitution and at most one more per insertion; deletions give none |
| WordSpans.LastMatchIsLastForward | python-api/surah_splitter/services/ayah_matching_service.py:383-384 | `last_match_ref_idx` is the reference position of the latest forward span, or -1 before the first |
| WordSpans.RematchWindow | python-api/surah_splitter/services/ayah_matching_service.py:386-437 | each rematched span lies at or before the latest earlier forward span, no closer equal word lies between them, and all words between lie within `previous_ayahs_to_match` ayahs |
| WordSpans.NegativeWindowNoRematch | python-api/surah_splitter/services/ayah_matching_service.py:386-437 | with a look-back of -1 nothing is rematched |
| WordSpans.ExactIffSameWord | python-api/surah_splitter/services/ayah_matching_service.py:356-437 | on an alignment labelled by word equality, a span is exact exactly when its two words are equal |
| WordSpans.DiagonalSpansIncrease | python-api/surah_splitter/services/ayah_matching_service.py:356-385 | when diagonal columns increase, the forward spans' reference positions strictly increase |
| AyahTimestamps.PositionsSpec | python-api/surah_splitter/services/ayah_matching_service.py:458-462 | the positions grouped under an ayah increase and are exactly the indices of its words |
| AyahTimestamps.GroupIsPositions | python-api/surah_splitter/services/ayah_matching_service.py:458-462 | the grouping map's keys are the ayah numbers present, each mapped to its word positions in order |
| AyahTimestamps.GroupByAyah | python-api/surah_splitter/services/ayah_matching_service.py:458-462 | the grouping loop builds that map |
| AyahTimestamps.AyahRange | python-api/surah_splitter/services/ayah_matching_service.py:469-470 | `min` and `max + 1` of an ayah's positions bound its words and are its first and last word |
| AyahTimestamps.OverlappingMembers | python-api/surah_splitter/services/ayah_matching_service.py:472-476 | the overlap filter keeps exactly the spans that meet the ayah's word range |
| AyahTimestamps.CollectOverlapping | python-api/surah_splitter/services/ayah_matching_service.py:472-476 | the filter loop returns those spans in order |
| AyahTimestamps.MinStartSpec | python-api/surah_splitter/services/ayah_matching_service.py:480 | the earliest start is attained by a span and bounds every span |
| AyahTimestamps.MaxEndSpec | python-api/surah_splitter/services/ayah_matching_service.py:481 | the latest end is attained by a span and bounds every span |
| AyahTimestamps.AyahEntrySpec | python-api/surah_splitter/services/ayah_matching_service.py:466-488 | an ayah gets a record exactly when some span meets its word range, and the record has its number and text and runs from the earliest start to the latest end of those spans |
| AyahTimestamps.TimestampForAyah | python-api/surah_splitter/services/ayah_matching_service.py:466-488 | the loop body computes that record for one ayah |
| AyahTimestamps.ExtractAyahTimestamps | python-api/surah_splitter/services/ayah_matching_service.py:442-490 | the method returns the specified record list |
| AyahTimestamps.AyahTimestampsFaithful | python-api/surah_splitter/services/ayah_matching_service.py:442-490 | every returned record belongs to an ayah of the reference and is that ayah's entry |
| AyahTimestamps.AyahTimestampsOrdered | python-api/surah_splitter/services/ayah_matching_service.py:465 | the records come in strictly increasing ayah order |
| AyahTimestamps.AyahTimestampsComplete | python-api/surah_splitter/services/ayah_matching_service.py:477-488 | an ayah has a record exactly when some span meets its word range |
| AyahTimestamps.AyahTimestampsTexts | python-api/surah_splitter/services/ayah_matching_service.py:484 | a record's text is `reference_ayahs[k]` for the position k of its ayah number among the sorted ayah numbers, not its position in the list |
| WordMatching.ScopedMatchesSpec | python-api/surah_splitter/services/quran_metadata_service.py:329-333 | a match is produced exactly by an occurrence of the word that lies in the target surah, or in any surah when none is given |
| WordMatching.ScopedMatchesEmpty | python-api/surah_splitter/services/quran_metadata_service.py:329-335 | there is no match exactly when no occurrence is in scope |
| WordMatching.MatchesForWordMembers | python-api/surah_splitter/services/quran_metadata_service.py:329-333 | every match carries the looked-up word and, under a target, the target surah |
| WordMatching.BestContinuationSpec | python-api/surah_splitter/services/quran_metadata_service.py:305-318 | there is no continuation exactly when no match is in the same surah and ayah within two positions; otherwise it is the first closest such match |
| WordMatching.SortRunsSpec | python-api/surah_splitter/services/quran_metadata_service.py:386 | the sort returns a permutation ordered by (longer first, surah, ayah, position) |
| WordMatching.InsertSpec | python-api/surah_splitter/services/quran_metadata_service.py:386 | one insertion step keeps the list sorted and adds exactly the one run |
| WordMatching.SaveSequenceOk | python-api/surah_splitter/services/quran_metadata_service.py:297-303 | `save_sequence` keeps only runs of two or more, and only valid ones |
| WordMatching.StepOk | python-api/surah_splitter/services/quran_metadata_service.py:327-380 | one scan step keeps every saved and current run valid and the unmatched counter bounded |
| WordMatching.ExtendRun | python-api/surah_splitter/services/quran_metadata_service.py:344-371 | appending a linked match whose synthetic tail stays within the bound keeps a run valid |
| WordMatching.ConsecutiveMatchesSpec | python-api/surah_splitter/services/quran_metadata_service.py:258-393 | every returned run has at least two matches and is valid, and the runs are the saved ones in sort-key order |
| WordMatching.LinkedFacts | python-api/surah_splitter/services/quran_metadata_service.py:305-351 | a linked match stays in its predecessor's surah and ayah, a real one within two positions and a synthetic one exactly one position on |
| WordMatching.RunSameAyah | python-api/surah_splitter/services/quran_metadata_service.py:305-371 | every match of a run has the surah and ayah of its first match |
| WordMatching.RunInTarget | python-api/surah_splitter/services/quran_metadata_service.py:329-351 | with a target surah, every match of a run, synthetic or not, lies in it |
| WordMatching.FindConsecutiveMatches | python-api/surah_splitter/services/quran_metadata_service.py:258-393 | the loop returns the specified sorted runs |
| AyahRange.GroupOk | python-api/surah_splitter/services/quran_metadata_service.py:453-459 | every grouped surah is listed once, in first-seen order, and has at least one ayah |
| AyahRange.GroupSpec | python-api/surah_splitter/services/quran_metadata_service.py:453-459 | a surah is grouped exactly when a sequence starts in it, and its ayahs are those of the matches of those sequences |
| AyahRange.GroupMatches | python-api/surah_splitter/services/quran_metadata_service.py:453-459 | the grouping loop builds that grouping |
| AyahRange.RunsFlatten | python-api/surah_splitter/services/quran_metadata_service.py:467-499 | the gap-tolerant runs of a sorted ayah list, concatenated, are the list |
| AyahRange.RunsSpec | python-api/surah_splitter/services/quran_metadata_service.py:475-493 | runs are non-empty, neighbours inside a run are at most `max_allowed_gap + 1` apart, and consecutive runs are further apart |
| AyahRange.PickSpec | python-api/surah_splitter/services/quran_metadata_service.py:484-499 | the running best is the first longest run, and the empty list gives length 0 and no surah |
| AyahRange.AllRunsSpec | python-api/surah_splitter/services/quran_metadata_service.py:467-499 | every compared run is a non-empty run of a grouped surah's sorted ayahs |
| AyahRange.ScanSurah | python-api/surah_splitter/services/quran_metadata_service.py:468-499 | the per-surah loop offers each finished run of the surah to the running best |
| AyahRange.AyahRangeNone | python-api/surah_splitter/services/quran_metadata_service.py:448-504 | there is no range exactly when there are no matches or no run has two ayahs |
| AyahRange.AyahRangeLongest | python-api/surah_splitter/services/quran_metadata_service.py:395-512 | a found range has two or more ayahs, no run is longer, every earlier run is strictly shorter, and it spans that run's first and last ayah |
| AyahRange.AsWrittenDiffersOnlyInEnd | python-api/surah_splitter/services/quran_metadata_service.py:502-512 | the range as written agrees with the intended one in surah, start and presence, and differs only in the end ayah |
| AyahRange.DetermineAyahRange | python-api/surah_splitter/services/quran_metadata_service.py:395-512 | the loops return the intended range: surah, start and end of the first longest run |
| AyahRange.ExampleConsecutive | python-api/surah_splitter/services/quran_metadata_service.py:420-425 | three consecutive ayahs of one surah give that surah from the first to the last |
| AyahRange.ExampleAllowedGap | python-api/surah_splitter/services/quran_metadata_service.py:427-432 | two ayahs two apart are within the default gap and form one range |
| AyahRange.ExampleTwoSurahs | python-api/surah_splitter/services/quran_metadata_service.py:434-440 | two consecutive ayahs of a second surah beat a single ayah of the first |
| AyahRange.EndAyahCounterexample | python-api/surah_splitter/services/quran_metadata_service.py:506 | for ayahs w, w+1, w+2, w+10 of one surah the code as written ends at w+10, while the longest run ends at w+2 |
| RangeDetection.TranscribedWordsClean | python-api/surah_splitter/services/quran_metadata_service.py:189-194 | every transcribed word is non-empty and made of kept letters only |
| RangeDetection.ExtractTranscribedWords | python-api/surah_splitter/services/quran_metadata_service.py:189-194 | the loop collects the cleaned words of the segments that have a text, in order |
| RangeDetection.TallyOfSpec | python-api/surah_splitter/services/quran_metadata_service.py:208-212 | each surah's frequency is its number of matches over all sequences, and a surah is a key exactly when it has one |
| RangeDetection.CountSurahs | python-api/surah_splitter/services/quran_metadata_service.py:209-212 | the nested loop builds those frequencies |
| RangeDetection.MostFrequentInSpec | python-api/surah_splitter/services/quran_metadata_service.py:219 | `max` over the items returns the first key, in insertion order, with the largest count |
| RangeDetection.VotedSpec | python-api/surah_splitter/services/quran_metadata_service.py:199-231 | the first round votes exactly when it finds a sequence, so the empty-frequencies branch is unreachable; the vote is the first surah with most matches |
| RangeDetection.DetectionWithoutInput | python-api/surah_splitter/services/quran_metadata_service.py:177-187 | without segments, or with an empty word index, there is no range |
| RangeDetection.DetectionIsFinish | python-api/surah_splitter/services/quran_metadata_service.py:177-256 | a detected range had segments, a vote or a requested surah, and a non-empty last round, and it is the range search of that round after the final checks |
| RangeDetection.FinishIsLongestRun | python-api/surah_splitter/services/quran_metadata_service.py:241-256 | a range that survives the final checks is a first longest run of two or more ayahs, in the requested surah when one is given, with start 2 moved to 1 under the correction flag |
| RangeDetection.DetectionAsWrittenDiffersOnlyInEnd | python-api/surah_splitter/services/quran_metadata_service.py:177-256 | the detector as written, with `end_ayah = last_ayah`, returns the same surah and start as the corrected detector, and an end exactly when it does |
| RangeDetection.DetectionAsWrittenEnd | python-api/surah_splitter/services/quran_metadata_service.py:236-256 | when the last round is restricted to one surah, the detector as written ends its range at the largest ayah matched anywhere in that round |
| AyahRange.AsWrittenEndInOneSurah | python-api/surah_splitter/services/quran_metadata_service.py:453-512 | when all matches lie in one surah, the range search as written ends at the largest matched ayah, however far from the winning run |
| RangeDetection.DetectionCorrected | python-api/surah_splitter/services/quran_metadata_service.py:250-251 | under the correction flag a detected range never starts at ayah 2 |
| RangeDetection.DetectAyahRangeFromTranscription | python-api/surah_splitter/services/quran_metadata_service.py:125-256 | the step-by-step detector returns the specified range |
| RangeDetection.ChooseScope | python-api/surah_splitter/services/quran_metadata_service.py:199-234 | the search scope is the requested surah, or else the first round's vote |
| RangeDetection.FindRangeInScope | python-api/surah_splitter/services/quran_metadata_service.py:236-256 | the last round, the range search and the checks after it give the specified range |
| RangeDetection.SelectedSpec | python-api/surah_splitter/services/quran_metadata_service.py:112-114 | the filter keeps, in ascending order, the corpus ayahs that the list names, or all of them when the list is falsy |
| RangeDetection.SortedKeys | python-api/surah_splitter/services/quran_metadata_service.py:113 | the ayah keys come in ascending numeric order, each once |
| RangeDetection.GetAyahsErrors | python-api/surah_splitter/services/quran_metadata_service.py:77-95 | ValueError with neither a surah nor a transcription, and for a surah the corpus lacks |
| RangeDetection.GetAyahsNotDetected | python-api/surah_splitter/services/quran_metadata_service.py:83-86 | a failed detection with no surah given returns the empty list |
| RangeDetection.GetAyahsTexts | python-api/surah_splitter/services/quran_metadata_service.py:97-123 | the texts are in ascending ayah order, one per corpus ayah that the settled list admits; listed ayahs the corpus lacks are ignored |
| RangeDetection.GetAyahsWholeSurah | python-api/surah_splitter/services/quran_metadata_service.py:100-103 | a surah from 78 on with no ayah list returns every ayah of the surah, with no list |
| RangeDetection.GetAyahsGiven | python-api/surah_splitter/services/quran_metadata_service.py:92-114 | a given surah and ayah list are returned as they were passed |
| RangeDetection.GetAyahsDetected | python-api/surah_splitter/services/quran_metadata_service.py:77-90 | with no surah given, a successful call needed a transcription, and its surah and inclusive ayah range come from the detector |
| RangeDetection.GetSurahName | python-api/surah_splitter/services/quran_metadata_service.py:560-593 | FileNotFoundError exactly when the file is missing, ValueError exactly when the number is not a key, and otherwise the name filed under it |
| RangeDetection.SurahNameRange | python-api/surah_splitter/services/quran_metadata_service.py:560-593 | with a metadata file naming exactly surahs 1 to 114, the ValueError is raised exactly outside 1..114, as documented |
| QuranWordIndex.AyahTokensSpec | python-api/one_off_scripts/create_quran_word_index.py:53-56 | the k-th token of an ayah is its k-th word at position k+1, restarting in every ayah |
| QuranWordIndex.IndexSound | python-api/one_off_scripts/create_quran_word_index.py:50-85 | every recorded occurrence is the token its Quran-wide number points at, filed under that token's word |
| QuranWordIndex.IndexComplete | python-api/one_off_scripts/create_quran_word_index.py:50-85 | every token is recorded under its word with its number |
| QuranWordIndex.IndexIncreasing | python-api/one_off_scripts/create_quran_word_index.py:69-85 | each word's occurrences are in strictly increasing Quran-wide order |
| QuranWordIndex.IndexTotal | python-api/one_off_scripts/create_quran_word_index.py:47-85 | there are exactly as many occurrences over all words as there are tokens |
| QuranWordIndex.IndexKeys | python-api/one_off_scripts/create_quran_word_index.py:58-59 | the keys are exactly the words of the tokens |
| QuranWordIndex.IndexAyah | python-api/one_off_scripts/create_quran_word_index.py:56-85 | the innermost loop records one ayah's tokens and advances the counter by its word count |
| QuranWordIndex.ProcessQuran | python-api/one_off_scripts/create_quran_word_index.py:6-87 | the three nested loops return the index of every token of the file in file order |
| QuranWordIndex.ColumnsAgree | python-api/one_off_scripts/create_quran_word_index.py:90-156 | the column layout has the same keys, and each key's four lists have entry k equal to the matching field of occurrence k |
| QuranWordIndex.ProcessQuranListImplementation | python-api/one_off_scripts/create_quran_word_index.py:90-156 | the column builder's loops return the column layout of the file's tokens |
| AyahsExtractor.WithoutBismillahSpec | python-api/one_off_scripts/simple_ayahs_extractor.py:51-55 | the bismillah prefix is cut exactly when the text starts with it, and nothing else is cut |
| AyahsExtractor.BismillahAyahKept | python-api/one_off_scripts/simple_ayahs_extractor.py:32-33 | the ayah that is just the bismillah, without the trailing space, is kept whole |
| AyahsExtractor.SurahDataKeys | python-api/one_off_scripts/simple_ayahs_extractor.py:41-62 | a surah, and a surah–verse pair, is stored exactly when some usable row carries it |
| AyahsExtractor.LastRowWins | python-api/one_off_scripts/simple_ayahs_extractor.py:60-62 | a stored text is the cleaned text of the last usable row with those ids |
| AyahsExtractor.StoredTextsClean | python-api/one_off_scripts/simple_ayahs_extractor.py:13-22 | every stored text is single-spaced, kept letters and plain spaces only, and fixed by the filter |
| AyahsExtractor.CreateSurahToSimpleAyahs | python-api/one_off_scripts/simple_ayahs_extractor.py:25-68 | the row loop builds the specified map, skipping rows with a missing column or an empty id |
| Streaming.NormalizeArabicSpec | python-api/main.py:64-72 | a normalised text is single-spaced and holds only plain spaces and Arabic-block letters that are neither marks nor folded letters |
| Streaming.NormalizeArabicIdempotent | python-api/main.py:64-72 | normalising twice is normalising once |
| Streaming.TokenizeWordsSpec | python-api/main.py:74-76 | there are no tokens exactly when the text normalises to nothing; tokens are non-empty, normal letters only, and spell the normalised text without spaces |
| Streaming.FeedStepSpec | python-api/main.py:92-112 | one word keeps the follower's invariant, only appends events that follow the target from the current index, and advances the index once per `word_correct` |
| Streaming.FeedWordsSpec | python-api/main.py:89-113 | over a call, the invariant holds, the index never decreases, and the events follow the target from the starting index |
| Streaming.FeedWordsFollow | python-api/main.py:89-113 | the `word_correct` indices of a call are the starting index and its successors, each once and each followed by its `progress` |
| Streaming.FeedWordsExhausted | python-api/main.py:93 | once the target is exhausted, further words change nothing |
| Streaming.FeedWordsAppend | python-api/main.py:92 | feeding two parts of a word list one after the other is feeding the whole list |
| Streaming.WordAlignmentEngine.constructor | python-api/main.py:82-87 | a new follower keeps its threshold (`DefaultMatchThreshold`, 65.0, when the caller leaves it out), tokenises its target and starts at index 0 with nothing sent |
| Streaming.WordAlignmentEngine.Feed | python-api/main.py:89-113 | `feed` returns the events of its tokenised words and moves the index and last sent by them |
| MemorizationRules.StatusOfSpec | node-api/src/applications/usecases/VerseMemorizationUseCase.js:91-98 | the status is new exactly for 0, memorizing exactly for a nonzero count below the total, and memorized otherwise |
| MemorizationRules.PercentOfSpec | node-api/src/applications/usecases/VerseMemorizationUseCase.js:108 | there is no percentage exactly for a zero total, and otherwise it is 100·m/t rounded half up |
| MemorizationRules.HistoryMapKeys | node-api/src/applications/usecases/VerseMemorizationUseCase.js:83 | a key is in the `Map` exactly when some history row carries it |
| MemorizationRules.HistoryMapLast | node-api/src/applications/usecases/VerseMemorizationUseCase.js:83 | the `Map` holds the value of the last row with the key |
| MemorizationRules.MergeSectionsSpec | node-api/src/applications/usecases/VerseMemorizationUseCase.js:79-118 | each juz keeps its key and total, takes the last row's count or 0, and gets the status and percentage of that count |
| MemorizationRules.CountMemorizedSpec | node-api/src/applications/usecases/VerseMemorizationUseCase.js:100-102 | the memorized counter is the number of sections whose status is memorized |
| VerseMemorization.MergeVersesSpec | node-api/src/applications/usecases/VerseMemorizationUseCase.js:42-70 | every verse is kept in order; a verse with no row gets id null, status new and score 0, otherwise the id, status and score of its last row with falsy values defaulted |
| VerseMemorization.CountMemorizedVersesSpec | node-api/src/applications/usecases/VerseMemorizationUseCase.js:57-59 | the counter is the number of merged verses whose status is memorized |
| VerseMemorization.GetVerseMemorization | node-api/src/applications/usecases/VerseMemorizationUseCase.js:42-77 | the loop returns the merged verses and the number of memorized ones |
| VerseMemorization.MergeCounting | node-api/src/applications/usecases/VerseMemorizationUseCase.js:83-117 | the shared juz and page loop returns the merged sections and the number memorized |
| VerseMemorization.GetJuzMemorization | node-api/src/applications/usecases/VerseMemorizationUseCase.js:79-118 | each juz's progress as specified, and the number of memorized juz |
| VerseMemorization.GetPageMemorization | node-api/src/applications/usecases/VerseMemorizationUseCase.js:120-159 | each page's progress as specified, and the number of memorized pages |
| VerseMemorization.ChapterIdSpec | node-api/src/applications/usecases/VerseMemorizationUseCase.js:22 | `split(":")[0]` is the colon-free prefix of the key that ends at the first colon or at the end |
| VerseMemorization.ChapterOfVerseKey | node-api/src/applications/usecases/VerseMemorizationUseCase.js:22 | the chapter of a `surah:verse` key is its surah |
| VerseMemorization.GetVerseDetailMemorization | node-api/src/applications/usecases/VerseMemorizationUseCase.js:20-40 | the verse is kept with its chapter name; the stored record is the progress when there is one, and otherwise id null, score null and status new |
| AyahMemorization.GetAyahMemorizationSpec | node-api/src/applications/usecases/AyahMemorizationUseCase.js:20-42 | every verse is kept in order; a verse with no attempt gets id null and score 0, otherwise the id and score of its last attempt with falsy values defaulted |
| AyahMemorization.JuzStatus | node-api/src/applications/usecases/AyahMemorizationUseCase.js:44-73 | a juz is new exactly at count 0, which includes having no row, and memorized exactly when its nonzero count reaches its total |
| AyahMemorization.PagePercent | node-api/src/applications/usecases/AyahMemorizationUseCase.js:75-104 | a page's percentage is the share of its verses memorized rounded half up, and 0 for a page with verses and no row |

## Findings

| source | as written | input that shows it | evidently intended | confidence | as-written member | corrected member |
|---|---|---|---|---|---|---|
| python-api/surah_splitter/services/quran_metadata_service.py:506 | `end_ayah = last_ayah`, the largest ayah of the last surah the loop visited | one surah with matched ayahs w, w+1, w+2, w+10 and the default gap 2: the longest run is w..w+2, but the end returned is w+10 | the end of the winning run (w+2), as the log line and the docstring describe | not executed | AyahRange.EndAyahCounterexample | AyahRange.DetermineAyahRange |

The model of the detector (`RangeDetection.Detection`, `GetAyahs`) uses the
corrected range search. `AyahRange.AyahRangeAsWritten` and
`RangeDetection.DetectionAsWritten` keep the code as written.
`AyahRange.AsWrittenDiffersOnlyInEnd` and
`RangeDetection.DetectionAsWrittenDiffersOnlyInEnd` show that the two agree
except in the end ayah, and `RangeDetection.DetectionAsWrittenEnd` states
that end: the largest ayah matched in the restricted last round.

## Left out

- File and JSON I/O, logging and the optional intermediate dumps of
  `match_ayahs` are left out. The loaded corpus, word index and surah-name
  metadata are parameters.
- FileNotFoundError of `get_ayahs` and of the extractor's CSV check are left
  out, because the files are parameters. `_load_word_index` is reduced to
  its result: a missing or broken file gives the empty index, and
  `RangeDetection.DetectionWithoutInput` covers that index.
- Conversions between `str` and `int` keys (`str(surah_number)`, `int(v_id)`,
  `int(surah_num)`) are left out, because keys are modelled by their integer
  value. The extractor keeps its string ids.
- The transcription service, the websocket server, audio buffering and
  Faster-Whisper in `main.py` are left out. They are I/O and a foreign model.
- `difflib.SequenceMatcher.ratio()` is the `similarity` parameter of
  `Streaming.WordAlignmentEngine.Feed`, because its matching-block algorithm
  is not part of this model.
- `Streaming.WordAlignmentEngine.Feed` does not model the unused
  `target_text` field beyond storing it.
- Floating-point arithmetic is left out. Times are `real` and costs are exact
  half-units. `Math.round((m / t) * 100)` is modelled as exact rounding half
  up of 100·m/t. Binary floating point can round the other way at some
  halves, for example m = 29 and t = 200.
- A total of 0 gives NaN or Infinity in JavaScript. It is modelled as no
  percentage (`None`).
- JavaScript's dynamic typing is left out. The repository returns juz and
  page keys as TEXT and `COUNT(*)` as a string. This model types both sides
  of the juz and page maps alike and counts as integers, so it does not cover
  a string key failing to match a numeric `juz_number`, or `memorized === 0`
  never holding for a string count.
- The object spread `{...verse, progress}` is modelled as a pair of the
  verse and its progress. A `progress` field already on the verse would be
  overwritten in JavaScript; that is not modelled.
- The add and edit memorisation use cases, the repositories and the HTTP
  handlers are not part of this model.
- `_extract_ayah_timestamps` is modelled with a `requires` that there are no
  more distinct ayah numbers than reference ayahs. `match_ayahs` always meets
  it, by `AyahMatching.ReferenceAyahCount`. A direct caller that breaks it
  would raise IndexError, which is not modelled.
- `WordSpans.ConvertToWordSpans` requires every step to read existing words.
  Python's negative-index wrap-around on a malformed alignment is not modelled.
  The computed alignment always meets the requirement, by
  `WordSpans.PathIsWellIndexed`.
- `RangeDetection.DetectionIsFinish`, `RangeDetection.FinishIsLongestRun`,
  `RangeDetection.DetectAyahRangeFromTranscription`,
  `RangeDetection.FindRangeInScope` and `RangeDetection.GetAyahsDetected`
  use the corrected end, the last ayah of the winning run. The code returns
  `last_ayah` instead, see "## Findings". For matched ayahs 1, 2, 3 and 11
  of the scope surah s the code returns (s, 1, 11), and `get_ayahs` then
  lists ayahs 1 to 11. The model returns (s, 1, 3) and lists 1 to 3.
  `RangeDetection.DetectionAsWritten` is the detector as written, and
  `RangeDetection.DetectionAsWrittenEnd` gives its end.
- `AyahRange.DetermineAyahRange` requires every match sequence to be
  non-empty. `_find_consecutive_matches` only saves runs of two or more.
- `AyahMatching.MatchAyahs` uses a look-back of 0 ayahs, as `match_ayahs`
  does. A negative look-back is covered by `WordSpans.NegativeWindowNoRematch`.
- The second docstring example of `_clean_text` shows U+0622 becoming
  U+0627. The code keeps U+0622, and the model follows the code, by
  `ArabicText.CleanTextMembers`.
- The docstring of `process_quran` describes `position_wrt_surah` as the
  position of the word within the surah. The code numbers the words within
  each ayah (`enumerate(words, 1)` inside the ayah loop). The model follows
  the code, by `QuranWordIndex.AyahTokensSpec`.
- The remaining docstring examples of the range search and `_clean_text` are
  stated for symbolic words and ayah numbers of the documented shape, not for
  the literal Arabic strings.
- `RangeDetection.GetSurahName`: the docstring promises a range check on
  1..114. The code only looks the key up, and the model follows the code.
  `RangeDetection.SurahNameRange` shows the two agree for a metadata file
  naming exactly surahs 1 to 114.
- The chapter lookup and the verse, juz and page lists of the Quran service
  are parameters. The NotFoundError that the verse-detail repository throws
  for a missing record is the `None` history of
  `VerseMemorization.GetVerseDetailMemorization`.
