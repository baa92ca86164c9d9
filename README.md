# Recitation scoring and verse segmentation

A Dafny model of the scoring engine of a verse memorisation app. It has three parts:

- **Single-verse verifier** (`src/lib/verification.ts`). Both texts are normalised: lowercased, punctuation turned into spaces, whitespace collapsed, and filler words dropped. The two results are compared with the character-level Levenshtein distance. The grace formula `max(0, (1 - d / maxLen) * 100)`, rounded to hundredths, gives the score. The recitation passes when the score reaches the threshold (90 by default).
- **Multi-verse segmenter** (`src/lib/multiVerseSegmentation.ts`). One continuous transcript is cut, greedily and left to right, into one slice of words per verse. For each verse, every window size between 55% and 180% of its word count is scored, and the first best-scoring size wins. When the words run out, every later verse gets an empty, zero-score, failed entry.
- **Word diff** (`diffWords` in `src/components/VoiceRecorder.tsx`). A longest-common-subsequence table over the words of the two normalised texts, followed by a traceback. The traceback labels every master word as matched or missed, and every extra spoken word as extra.

Modules:

- `Numeric`: `Max`, `Min`.
- `Rounding`: `Math.round(x * 100) / 100`.
- `Text`: character classes, trim, collapse, split and join, and the reference word list `Words(Fold(s))`.
- `Levenshtein`: the recursive distance, the table method, and edit scripts.
- `Verification`: the single-verse verifier.
- `Segmentation`: the multi-verse segmenter.
- `WordDiff`: the word diff.

Each loop of the source is a Dafny `method` proved equal to a specification function. The properties are proved about those functions:

- The Levenshtein table is in `LevenshteinDistance` and `FillRow`.
- The LCS table and traceback are in `LcsTable`, `FillRow` and `Traceback`.
- The window scan is in `ScanWindows`, which computes the window bounds and the fallback end, and `ScanRange`, which runs the loop.
- The loop over the verses is in `SegmentWords`.

The greedy pass `Run` is defined for any window chooser that advances (`Advances`). `segmentAndVerify` uses the concrete chooser `Greedy`. The structural facts, that earlier entries never change, that the segments tile the words, and that an exhausted cursor stays exhausted, are proved for every advancing chooser. The score facts are proved for `Greedy`.

The code behaves in two ways its own comments do not suggest. The model keeps both as written:

- **Filler list.** `toWords` is commented as normalising "the same way verification.ts does" (`multiVerseSegmentation.ts:11`), but the two filler lists differ. The verifier's list (`verification.ts:7-25`) contains the two-word entries `"you know"` and `"uh huh"`. A token from `split(' ')` never contains a space, so these entries never match. As a result, `you`, `know` and `huh` survive `normalizeText`. They are dropped by `toWords`, whose set lists them singly (`multiVerseSegmentation.ts:16-19`).
- **Score range.** `VerseSegmentResult.score` is commented `0–100` (`multiVerseSegmentation.ts:6`). Yet a verse with fewer words left than its smallest window keeps the initial `-1`, which rounds to `-1`. The model returns `-1` there, as the code does, and states exactly when this happens.

The `bestScore` of a window is already rounded by `verifyRecitation` (`verification.ts:137`). So the `Math.round` in `segmentAndVerify` (`multiVerseSegmentation.ts:93`) leaves it unchanged (`ChooseForBest`), and the `passed` flag agrees with the emitted score (`RunFacts`).

## Model

| member | source | states |
|---|---|---|
| Verification.RemoveFillersMembers | src/lib/verification.ts:79-83 | the filter keeps exactly the tokens whose lowercase form is not in the filler list |
| Verification.NormalizeTextWellFormed | src/lib/verification.ts:69-88 | a normalised text has no leading, trailing or doubled spaces and only lowercase, non-punctuation characters |
| Verification.NormalizeTextScrubbed | src/lib/verification.ts:70-76 | no character of a normalised text is upper case or one of the stripped punctuation marks |
| Verification.NormalizeTextHasNoFiller | src/lib/verification.ts:78-85 | no space-separated word of a normalised text is a filler |
| Verification.NormalizeTextIdempotent | src/lib/verification.ts:69-88 | normalising an already normalised text changes nothing |
| Verification.WordsOfNormalizeText | src/lib/verification.ts:69-88 | the words of a normalised text are the words of the lowercased, punctuation-free text with the fillers removed, in order |
| Verification.MultiWordEntriesNeverMatch | src/lib/verification.ts:13-18 | the entries containing a space never equal a token of the split, so they can never filter anything |
| Verification.YouKnowHuhKept | src/lib/verification.ts:13-18 | every "you", "know" or "huh" of the folded text survives normalisation |
| Verification.FillerExamples | src/lib/verification.ts:7-25 | the filter keeps ["you", "know"] whole and turns ["uh", "huh"] into ["huh"] |
| Verification.SameWordsSameNormalization | src/lib/verification.ts:69-88 | texts with the same words after lowercasing and punctuation stripping normalise to the same text |
| Verification.GraceFormulaRange | src/lib/verification.ts:128-137 | every score lies in [0, 100] |
| Verification.GraceFormulaFullIff | src/lib/verification.ts:128-137 | a score is exactly 100 iff 20000 times the distance is at most the longer length |
| Verification.GraceFormulaAntitone | src/lib/verification.ts:133-137 | a larger distance never gives a higher score |
| Verification.GraceScoreSymmetric | src/lib/verification.ts:119-137 | swapping the spoken and master texts leaves the score unchanged |
| Verification.GraceScoreSelf | src/lib/verification.ts:119-137 | a text scored against itself gets 100 |
| Verification.GraceScoreEmptySpoken | src/lib/verification.ts:119-137 | an empty recitation of a non-empty master scores 0 |
| Verification.GraceScoreUnclamped | src/lib/verification.ts:128-134 | when a text is non-empty, the clamp at 0 never acts and the score is the rounded raw formula |
| Verification.VerifyRecitation | src/lib/verification.ts:109-148 | the result holds both normalised texts, their edit distance and their grace score; the score is in [0, 100]; it passes iff the score reaches the threshold; the distance is 0 iff the normalised texts are equal; the score is 100 iff 20000 times the distance is at most the longer length |
| Verification.RoundedGraceFormula | src/lib/verification.ts:128-137 | the step-by-step score of `verifyRecitation`, rounded, equals the grace formula, including 100 for two empty texts |
| Verification.GraceScoreFacts | src/lib/verification.ts:119-140 | the score is in [0, 100]; the distance is 0 iff the texts are equal; the score is 100 iff 20000 times the distance is at most the longer length |
| Verification.SameWordsScoreFull | src/lib/verification.ts:109-137 | recitations differing from the master only in case, stripped punctuation or whitespace are at distance 0 and score 100 |
| Verification.GetDetailedMetrics | src/lib/verification.ts:158-172 | the metrics hold the verification at threshold 90 (both normalised texts, their edit distance, their score and the pass flag), the normalised word counts, and the original and normalised lengths; a word count is 0 iff the normalised text is empty |
| Verification.WordCount | src/lib/verification.ts:161-162 | the non-empty tokens of a normalised text are its normalised words; there are none iff the text is empty |
| Levenshtein.LevenshteinDistance | src/lib/verification.ts:33-58 | the table method returns the edit distance of the two strings |
| Levenshtein.FillRow | src/lib/verification.ts:47-54 | after row `j`, every cell of rows up to `j` holds the distance of the corresponding prefixes |
| Levenshtein.DistanceIsEditDistance | src/lib/verification.ts:46-57 | table cell `[j, i]` is the edit distance of the prefixes `str1[..i]` and `str2[..j]` |
| Levenshtein.EditDistanceBounds | src/lib/verification.ts:33-58 | the distance is at least the length difference and at most the longer length |
| Levenshtein.EditDistanceZeroIff | src/lib/verification.ts:33-58 | the distance is 0 iff the strings are equal |
| Levenshtein.EditDistanceAttained | src/lib/verification.ts:33-58 | some edit script from the first string to the second costs exactly the distance |
| Levenshtein.ScriptCostAtLeastDistance | src/lib/verification.ts:33-58 | no edit script costs less than the distance between its source and its target |
| Levenshtein.EditDistanceSymmetric | src/lib/verification.ts:33-58 | the distance does not depend on the order of the strings |
| Rounding.Round2OfGrid | src/lib/verification.ts:137 | rounding leaves a whole number of hundredths unchanged |
| Rounding.Round2Idempotent | src/lib/verification.ts:137 | rounding twice is rounding once |
| Rounding.Round2InRange | src/lib/verification.ts:137 | rounding keeps a value in [0, 100] in [0, 100] |
| Rounding.Round2Monotone | src/lib/verification.ts:137 | rounding preserves order |
| Rounding.Round2Full | src/lib/verification.ts:137 | a value of at most 100 rounds to 100 iff it is at least 99.995 |
| Text.TokensAreWords | src/lib/verification.ts:70-79 | the lowercase, punctuation, collapse, trim and split chain yields the words of the folded text, or the single empty token when there are none |
| Text.NonEmptySplitOfJoin | src/lib/verification.ts:161-162 | splitting clean words joined by single spaces and dropping empties gives the words back |
| Segmentation.KeepSpokenWordsMembers | src/lib/multiVerseSegmentation.ts:25 | the filter keeps exactly the non-empty tokens that are not in the filler set |
| Segmentation.ToWordsOfFold | src/lib/multiVerseSegmentation.ts:21-26 | `toWords` is the list of words of the folded text that are not fillers, in order |
| Segmentation.ToWordsClean | src/lib/multiVerseSegmentation.ts:21-26 | every word returned is non-empty, lowercase, free of punctuation and whitespace, and not in the filler set |
| Segmentation.ToWordsIdempotent | src/lib/multiVerseSegmentation.ts:21-26 | running `toWords` on its own joined output gives the same words |
| Segmentation.MinWindowIsFloor | src/lib/multiVerseSegmentation.ts:72 | the integer formula for the smallest window is the floor of 55% of the word count |
| Segmentation.MaxWindowIsCeiling | src/lib/multiVerseSegmentation.ts:73 | the integer formula for the largest window is the ceiling of 180% of the word count |
| Segmentation.WindowSizes | src/lib/multiVerseSegmentation.ts:70-73 | for a verse of at least one word, the smallest window is between 1 and the word count, and the word count is at most the uncapped largest window |
| Segmentation.WindowScoreRange | src/lib/multiVerseSegmentation.ts:32-36 | a window score is in [0, 100] and already on the grid of hundredths |
| Segmentation.SpokenNotFiller | src/lib/multiVerseSegmentation.ts:16-19 | a word `toWords` keeps is never a filler of the verifier's list either |
| Segmentation.ScoreIsWindowScore | src/lib/multiVerseSegmentation.ts:79-80 | on spoken words, the score of a window is what `scoreWindow` returns for its slice |
| Segmentation.ScanFacts | src/lib/multiVerseSegmentation.ts:75-85 | the scan ends after a window whose score is the best; no size in range scores higher; every smaller size scores strictly less |
| Segmentation.ChooseForFacts | src/lib/multiVerseSegmentation.ts:62-85 | with an empty size range, the score is -1 and the segment is the rest of the words; otherwise the chosen size is in range and is the smallest best-scoring size |
| Segmentation.ChooseForBest | src/lib/multiVerseSegmentation.ts:72-85 | the best score is -1 iff the size range is empty, and then the segment ends at the last word; otherwise it is in [0, 100] and unchanged by rounding |
| Segmentation.GreedyAdvances | src/lib/multiVerseSegmentation.ts:62-88 | while words are left, the window scan takes at least one word and never runs past the last |
| Segmentation.StepFacts | src/lib/multiVerseSegmentation.ts:61-95 | as in RunFacts, for a single verse |
| Segmentation.RunPrefix | src/lib/multiVerseSegmentation.ts:61-96 | later verses never change earlier entries: the pass over the first `k` verses yields the first `k` entries |
| Segmentation.RunEntry | src/lib/multiVerseSegmentation.ts:61-96 | entry `i` is one step from the cursor before verse `i`, and that step leaves the cursor before verse `i + 1` |
| Segmentation.RunFacts | src/lib/multiVerseSegmentation.ts:52-99 | one entry per verse, in order; each segment is the consecutive words between two cursors starting at 0; with words left, each verse takes at least one; with none left, the entry is empty, scores 0 and fails; the score is -1 iff fewer words are left than the smallest window, and then the verse takes the rest; otherwise the score is in [0, 100]; an entry passes iff it has words and its score reaches the threshold |
| Segmentation.GreedyStep | src/lib/multiVerseSegmentation.ts:75-95 | while words are left, a verse's step ends where the window scan ends and records the scan's best score, which rounding leaves unchanged |
| Segmentation.RunWindow | src/lib/multiVerseSegmentation.ts:69-95 | when words are left and some window size fits, entry `i` takes between the smallest and largest window of words; its score is that window's score; no allowed size scores higher; every smaller allowed size scores strictly less |
| Segmentation.RunVerses | src/lib/multiVerseSegmentation.ts:61-95 | entry `i` carries the number of verse `i` |
| Segmentation.SegmentsVerses | src/lib/multiVerseSegmentation.ts:52-99 | `segmentAndVerify` returns one entry per verse, in order, each labelled with its verse's number |
| Segmentation.TileAppend | src/lib/multiVerseSegmentation.ts:87-92 | a segment holding the next words extends an exact tiling of the words by one verse |
| Segmentation.StepWords | src/lib/multiVerseSegmentation.ts:87-92 | splitting a segment gives back exactly the words the verse took |
| Segmentation.RunTiles | src/lib/multiVerseSegmentation.ts:61-96 | the words of the segments, in order, are exactly the spoken words before the final cursor |
| Segmentation.CutStaysAtEnd | src/lib/multiVerseSegmentation.ts:62-67 | once the cursor reaches the end of the words, it stays there |
| Segmentation.ExhaustedAfter | src/lib/multiVerseSegmentation.ts:62-67 | once the words are used up, every later verse gets the empty segment, score 0 and not passed |
| Segmentation.SegmentsFacts | src/lib/multiVerseSegmentation.ts:52-70 | `segmentAndVerify` is the greedy pass over the words of the transcript and, for each verse, its number, its word count (at least 1) and its normalised text |
| Segmentation.SegmentsTile | src/lib/multiVerseSegmentation.ts:52-99 | the segments returned, split back into words, form a prefix of the transcript's words: in order, each word used once |
| Segmentation.ScoreWindow | src/lib/multiVerseSegmentation.ts:32-36 | an empty window scores 0, otherwise it gets the verifier's score of its joined words; always in [0, 100] |
| Segmentation.SegmentAndVerify | src/lib/multiVerseSegmentation.ts:52-99 | the method returns the greedy pass `Segments` of its inputs |
| Segmentation.SegmentWords | src/lib/multiVerseSegmentation.ts:57-98 | the loop over the verses yields the pass over their profiles |
| Segmentation.SegmentVerse | src/lib/multiVerseSegmentation.ts:62-95 | one iteration gives the step of the pass for that verse |
| Segmentation.ScoreAt | src/lib/multiVerseSegmentation.ts:79-80 | the score of the `w` words at the cursor, non-negative |
| Segmentation.ChooseWindow | src/lib/multiVerseSegmentation.ts:69-85 | the window choice for a verse's word count and normalised text |
| Segmentation.TryWindow | src/lib/multiVerseSegmentation.ts:79-84 | scoring size `w` and keeping it only when it beats the best so far extends the scan to `w` |
| Segmentation.ScanWindows | src/lib/multiVerseSegmentation.ts:62-76 | with words left (the `remaining <= 0` branch is `SegmentVerse`), for a verse of word count masterLen, the scan between MinWindow and MaxWindow, with the fallback end, gives the window choice |
| Segmentation.ScanRange | src/lib/multiVerseSegmentation.ts:75-85 | with an empty range it returns the fallback end and -1; otherwise it returns the scan's first best window |
| WordDiff.TraceMasterSide | src/components/VoiceRecorder.tsx:33-47 | the words of the match and miss tokens are the master words, in order |
| WordDiff.TraceSpokenSide | src/components/VoiceRecorder.tsx:33-47 | the words of the match and extra tokens are the spoken words, in order |
| WordDiff.TraceMatchCount | src/components/VoiceRecorder.tsx:27-47 | the number of match tokens is the LCS length from the table |
| WordDiff.TokenCount | src/components/VoiceRecorder.tsx:33-47 | the token count plus the match count equals the spoken plus master word counts |
| WordDiff.MatchedOnBothSides | src/components/VoiceRecorder.tsx:33-47 | the matched words are a common subsequence of the spoken and master words |
| WordDiff.LcsIsLongest | src/components/VoiceRecorder.tsx:27-31 | no common subsequence of the two word lists is longer than the table's value |
| WordDiff.DiffFacts | src/components/VoiceRecorder.tsx:22-49 | master side = master words; spoken side = spoken words; the matches form a longest common subsequence; there are spoken + master - matched tokens |
| WordDiff.TraceOfSame | src/components/VoiceRecorder.tsx:33-47 | identical word lists diff to all matches |
| WordDiff.TraceOfSilence | src/components/VoiceRecorder.tsx:33-47 | with no spoken words, every token is a miss |
| WordDiff.TraceWithoutMaster | src/components/VoiceRecorder.tsx:33-47 | with no master words, every token is extra |
| WordDiff.DiffWords | src/components/VoiceRecorder.tsx:22-49 | the method returns the traceback of the words of both texts, with the master side, spoken side and match count of DiffFacts |
| WordDiff.LcsTable | src/components/VoiceRecorder.tsx:27-31 | every cell of the filled table holds the LCS length of the corresponding suffixes |
| WordDiff.FillRow | src/components/VoiceRecorder.tsx:30-31 | after filling row `i`, every row from `i` holds the LCS length of the corresponding suffixes |
| WordDiff.Traceback | src/components/VoiceRecorder.tsx:33-48 | the traceback loop emits the specification traceback from (0, 0) |

## Left out

- Floating point: scores are exact rationals. `0.55` and `1.8` are written exactly: the window sizes are `floor(11m/20)` and `ceil(9m/5)`. `Math.round` is `Floor(x + 1/2)`. IEEE rounding of `(1 - d/L) * 100` and of `x * 100` is not modelled.
- Characters: `toLowerCase` lowercases ASCII letters only. The whitespace class `\s` is space, tab, newline and carriage return. UTF-16 code units, surrogate pairs and other Unicode whitespace and case mappings are not modelled.
- Precomputation: the pass's specification reads each verse through a profile of its number, word count and normalised text, computed once per verse. The source computes these inside the loop. The values are the same, and the methods compute them as the source does.
- Everything else in `VoiceRecorder.tsx`: the React component, speech recognition, timers and the result UI. Only `DiffToken` and `diffWords` (`VoiceRecorder.tsx:20-49`) are modelled.
- `threshold` in `scoreWindow`: it only sets `passed` in the discarded verification result, so it has no effect on the score returned.
- Persistence, API routes, authentication and the other pages of the app: they do not compute scores.
