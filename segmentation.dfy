/** Multi-verse segmentation: a continuous transcript is cut, greedily and
    left to right, into one slice of words per verse of a sequence; each
    slice is the window size (between 55% and 180% of the verse's word
    count) that scores best against the verse. */
module Segmentation {

  import opened Numeric
  import opened Rounding
  import opened Text
  import opened Levenshtein
  import opened Verification

  /** One verse to match: its number and its master text. */
  datatype VerseTarget = VerseTarget(verse: int, text: string)

  /** `VerseSegmentResult`: the words attributed to a verse, their score and
      whether it passes. */
  datatype VerseSegmentResult = VerseSegmentResult(verse: int, segment: string, score: real, passed: bool)

  // ---------------------------------------------------------------- words

  /** The filler set of this file. It differs from the single-verse list:
      `you`, `know` and `huh` are fillers on their own here, and there are
      no two-word entries. */
  const FillerSet: set<string> := {
    "um", "uh", "uhh", "umm", "like", "you", "know", "youknow", "basically", "literally",
    "so", "uh", "huh", "uhhuh", "er", "erm", "ah", "hmm", "well"
  }

  /** The filter of `toWords`: a non-empty token that is not a filler. */
  predicate IsSpokenWord(w: string)
  {
    w != [] && w !in FillerSet
  }

  function KeepSpokenWords(ws: seq<string>): seq<string>
  {
    if ws == [] then []
    else (if IsSpokenWord(ws[0]) then [ws[0]] else []) + KeepSpokenWords(ws[1..])
  }

  /** `toWords`: the same lowercase, punctuation, whitespace and split chain
      as `normalizeText`, then the filter. */
  function ToWords(text: string): seq<string>
  {
    KeepSpokenWords(Tokens(text))
  }

  lemma {:induction false} KeepSpokenWordsMembers(ws: seq<string>)
    ensures forall w :: w in KeepSpokenWords(ws) <==> w in ws && IsSpokenWord(w)
  {
    if ws != [] {
      KeepSpokenWordsMembers(ws[1..]);
      assert ws == [ws[0]] + ws[1..];
    }
  }

  lemma {:induction false} KeepSpokenWordsOfSpoken(ws: seq<string>)
    requires forall w :: w in ws ==> IsSpokenWord(w)
    ensures KeepSpokenWords(ws) == ws
  {
    if ws != [] {
      assert ws[0] in ws;
      assert forall w :: w in ws[1..] ==> w in ws;
      KeepSpokenWordsOfSpoken(ws[1..]);
    }
  }

  /** The empty token `""` that `split` leaves for a blank text is dropped. */
  lemma KeepSpokenWordsOfEmptyToken()
    ensures KeepSpokenWords([[]]) == []
  {
    var ws: seq<string> := [[]];
    assert ws[1..] == [];
  }

  /** `toWords` keeps exactly the spoken words of the folded text, in order. */
  lemma ToWordsOfFold(text: string)
    ensures ToWords(text) == KeepSpokenWords(Words(Fold(text)))
  {
    TokensAreWords(text);
    var ws := Words(Fold(text));
    if ws == [] {
      KeepSpokenWordsOfEmptyToken();
    }
  }

  /** Every word `toWords` returns is a non-empty lowercase word with no
      punctuation or whitespace, and not a filler. */
  lemma ToWordsClean(text: string)
    ensures forall w :: w in ToWords(text) ==> CleanWord(w) && w !in FillerSet
  {
    ToWordsOfFold(text);
    KeepSpokenWordsMembers(Words(Fold(text)));
    WordsOfFoldAreClean(text);
  }

  /** Joining the words and splitting them again gives them back. */
  lemma ToWordsIdempotent(text: string)
    ensures ToWords(Join(ToWords(text))) == ToWords(text)
  {
    var ws := ToWords(text);
    ToWordsClean(text);
    ToWordsOfFold(Join(ws));
    JoinWellFormed(ws);
    WellFormedIsFixed(Join(ws));
    WordsOfJoin(ws);
    KeepSpokenWordsOfSpoken(ws);
  }

  // ---------------------------------------------------------------- window sizes

  /** `masterWords.length || 1`. */
  function MasterLength(masterText: string): Positive
  {
    var n := |ToWords(masterText)|;
    if n == 0 then 1 else n
  }

  /** `Math.max(1, Math.floor(masterLen * 0.55))`. */
  function MinWindow(m: nat): nat
  {
    Max(1, m * 11 / 20)
  }

  /** `Math.min(remaining, Math.ceil(masterLen * 1.8))`. */
  function MaxWindow(m: nat, remaining: nat): nat
  {
    Min(remaining, (9 * m + 4) / 5)
  }

  /** `m * 11 / 20` is the floor of 55% of `m`. */
  lemma MinWindowIsFloor(m: nat)
    ensures (m * 11 / 20) as real <= m as real * 0.55 < (m * 11 / 20 + 1) as real
  {
    var q, r := m * 11 / 20, m * 11 % 20;
    assert m * 11 == 20 * q + r && 0 <= r < 20;
    assert m as real * 0.55 == (20 * q + r) as real / 20.0;
  }

  /** `(9 * m + 4) / 5` is the ceiling of 180% of `m`. */
  lemma MaxWindowIsCeiling(m: nat)
    ensures ((9 * m + 4) / 5) as real >= m as real * 1.8
    ensures ((9 * m + 4) / 5 - 1) as real < m as real * 1.8
  {
    var q, r := (9 * m + 4) / 5, (9 * m + 4) % 5;
    assert 9 * m + 4 == 5 * q + r && 0 <= r < 5;
    assert m as real * 1.8 == (5 * q + r - 4) as real / 5.0;
  }

  /** For a verse of `m >= 1` words the smallest window is at least one word
      and at most `m`, and `m` is at most the largest. */
  lemma WindowSizes(m: nat)
    requires m >= 1
    ensures 1 <= MinWindow(m) <= m <= (9 * m + 4) / 5
  {
  }

  // ---------------------------------------------------------------- window choice

  /** The score of the `w` words starting at the cursor, as `scoreWindow`
      gives it: 0 for no words, otherwise the grace score of the joined words
      against the master text, both normalised. */
  function WindowScore(ws: seq<string>, masterText: string): real
  {
    if ws == [] then 0.0 else GraceScore(NormalizeText(Join(ws)), NormalizeText(masterText))
  }

  lemma WindowScoreRange(ws: seq<string>, masterText: string)
    ensures 0.0 <= WindowScore(ws, masterText) <= 100.0
    ensures Round2(WindowScore(ws, masterText)) == WindowScore(ws, masterText)
  {
    if ws != [] {
      var s, m := NormalizeText(Join(ws)), NormalizeText(masterText);
      GraceFormulaRange(EditDistance(s, m), Max(|s|, |m|));
      GraceOnGridIsRounded(EditDistance(s, m), Max(|s|, |m|));
    } else {
      Round2OfGrid(0);
    }
  }

  lemma GraceOnGridIsRounded(distance: nat, maxLength: nat)
    ensures Round2(GraceFormula(distance, maxLength)) == GraceFormula(distance, maxLength)
  {
    var g := GraceFormula(distance, maxLength);
    GraceFormulaOnGrid(distance, maxLength);
    var n := (g * 100.0).Floor;
    assert g == n as real / 100.0;
    Round2OfGrid(n);
  }

  /** Every word is a clean word and not a filler: what `toWords` returns. */
  predicate AllSpoken(ws: seq<string>)
    decreases |ws|
  {
    ws == [] || (CleanWord(ws[0]) && ws[0] !in FillerSet && AllSpoken(ws[1..]))
  }

  lemma {:induction false} AllSpokenIff(ws: seq<string>)
    ensures AllSpoken(ws) <==> forall w :: w in ws ==> CleanWord(w) && w !in FillerSet
    decreases |ws|
  {
    if ws != [] {
      AllSpokenIff(ws[1..]);
      assert ws == [ws[0]] + ws[1..];
    }
  }

  /** The single-verse filler list has no one-word entry missing from the
      filler set of this file, so no spoken word is a filler there either. */
  lemma SpokenNotFiller(w: string)
    requires CleanWord(w) && w !in FillerSet
    ensures !IsFiller(w)
  {
    CleanWordIsLower(w);
    assert !CleanWord("you know") by { assert "you know"[3] == ' '; }
    assert !CleanWord("uh huh") by { assert "uh huh"[2] == ' '; }
  }

  /** The score of the `w` words that start at the cursor against the
      normalised master text `normMaster`. Spoken words are normalised
      already, so only the master text is. */
  function Score(words: seq<string>, cursor: nat, w: nat, normMaster: string): real
    requires cursor + w <= |words|
  {
    if w == 0 then 0.0 else GraceScore(Join(words[cursor..cursor + w]), normMaster)
  }

  /** Spoken words come through `normalizeText` unchanged, so their score
      is the grace score of the joined words against the normalised master. */
  lemma WindowScoreOfSpoken(ws: seq<string>, masterText: string)
    requires ws != [] && AllSpoken(ws)
    ensures WindowScore(ws, masterText) == GraceScore(Join(ws), NormalizeText(masterText))
  {
    AllSpokenIff(ws);
    forall x | x in ws ensures CleanWord(x) && !IsFiller(x) {
      SpokenNotFiller(x);
    }
    NormalizeJoin(ws);
    RemoveFillersOfNonFillers(ws);
  }

  lemma AllSpokenSlice(words: seq<string>, lo: nat, hi: nat)
    requires AllSpoken(words) && lo <= hi <= |words|
    ensures AllSpoken(words[lo..hi])
  {
    AllSpokenIff(words);
    AllSpokenIff(words[lo..hi]);
    assert forall x :: x in words[lo..hi] ==> x in words;
  }

  /** On spoken words `Score` is the score `scoreWindow` gives. */
  lemma ScoreIsWindowScore(words: seq<string>, cursor: nat, w: nat, masterText: string)
    requires AllSpoken(words) && cursor + w <= |words|
    ensures Score(words, cursor, w, NormalizeText(masterText)) == WindowScore(words[cursor..cursor + w], masterText)
  {
    if w > 0 {
      AllSpokenSlice(words, cursor, cursor + w);
      WindowScoreOfSpoken(words[cursor..cursor + w], masterText);
    }
  }

  /** Where the segment of a verse ends and the best score found. */
  datatype Choice = Choice(end: nat, best: real)

  /** The scan over the window sizes `lo..hi`, in increasing order: a size
      replaces the best so far only when its score is strictly higher, and
      the first size always replaces the initial -1. */
  function Scan(words: seq<string>, cursor: nat, lo: nat, hi: nat, normMaster: string): (c: Choice)
    requires 1 <= lo <= hi && cursor + hi <= |words|
    ensures cursor + lo <= c.end <= cursor + hi
    decreases hi - lo
  {
    if hi == lo then Choice(cursor + lo, Score(words, cursor, lo, normMaster))
    else
      var c := Scan(words, cursor, lo, hi - 1, normMaster);
      var x := Score(words, cursor, hi, normMaster);
      if x > c.best then Choice(cursor + hi, x) else c
  }

  /** One step of the scan: from the best of the sizes `lo..hi-1` (or the
      initial -1 before the first size) to the best of `lo..hi`. */
  lemma ScanStep(words: seq<string>, cursor: nat, lo: nat, hi: nat, normMaster: string,
                 end: nat, best: real, x: real)
    requires 1 <= lo <= hi && cursor + hi <= |words|
    requires x == Score(words, cursor, hi, normMaster) && x >= 0.0
    requires lo == hi ==> best == -1.0
    requires lo < hi ==> Choice(end, best) == Scan(words, cursor, lo, hi - 1, normMaster)
    ensures (if x > best then Choice(cursor + hi, x) else Choice(end, best)) == Scan(words, cursor, lo, hi, normMaster)
  {
  }

  /** The scan ends the segment after a best-scoring window, the smallest of
      the best. */
  lemma {:induction false} ScanFacts(words: seq<string>, cursor: nat, lo: nat, hi: nat, normMaster: string)
    requires 1 <= lo <= hi && cursor + hi <= |words|
    ensures var c := Scan(words, cursor, lo, hi, normMaster);
      && c.best == Score(words, cursor, c.end - cursor, normMaster)
      && (forall w :: lo <= w <= hi ==> Score(words, cursor, w, normMaster) <= c.best)
      && (forall w :: lo <= w < c.end - cursor ==> Score(words, cursor, w, normMaster) < c.best)
    decreases hi - lo
  {
    if lo < hi {
      ScanFacts(words, cursor, lo, hi - 1, normMaster);
    }
  }

  /** The choice for a verse of `m` words whose normalised text is
      `normMaster`: when no window size fits (fewer words are left than the
      smallest window), the segment takes `min(masterLen, remaining)` words
      and the score stays -1. */
  function ChooseFor(words: seq<string>, cursor: nat, m: nat, normMaster: string): (c: Choice)
    requires cursor < |words| && m >= 1
    ensures cursor < c.end <= |words|
  {
    var remaining := |words| - cursor;
    var lo, hi := MinWindow(m), MaxWindow(m, remaining);
    if lo > hi then Choice(cursor + Min(m, remaining), -1.0)
    else Scan(words, cursor, lo, hi, normMaster)
  }

  /** The choice spelled out the way the scan computes it. */
  lemma ChooseForOfScan(words: seq<string>, cursor: nat, m: nat, normMaster: string)
    requires cursor < |words| && m >= 1
    ensures var remaining := |words| - cursor;
      var lo, hi := MinWindow(m), MaxWindow(m, remaining);
      ChooseFor(words, cursor, m, normMaster)
        == if lo > hi then Choice(cursor + Min(m, remaining), -1.0) else Scan(words, cursor, lo, hi, normMaster)
  {
  }

  /** The segment of a verse is a best-scoring window of allowed size, the
      smallest of them; with fewer words left than the smallest window it is
      the whole rest, scored -1. */
  lemma ChooseForFacts(words: seq<string>, cursor: nat, m: nat, normMaster: string)
    requires cursor < |words| && m >= 1
    ensures var c := ChooseFor(words, cursor, m, normMaster);
      var lo, hi := MinWindow(m), MaxWindow(m, |words| - cursor);
      && (lo > hi ==> c.best == -1.0 && c.end == |words|)
      && (lo <= hi ==>
            && lo <= c.end - cursor <= hi
            && c.best == Score(words, cursor, c.end - cursor, normMaster)
            && (forall w :: lo <= w <= hi ==> Score(words, cursor, w, normMaster) <= c.best)
            && (forall w :: lo <= w < c.end - cursor ==> Score(words, cursor, w, normMaster) < c.best))
  {
    var lo, hi := MinWindow(m), MaxWindow(m, |words| - cursor);
    WindowSizes(m);
    if lo <= hi {
      ScanFacts(words, cursor, lo, hi, normMaster);
    }
  }

  // ---------------------------------------------------------------- the greedy pass

  /** A word count of at least one, as `masterWords.length || 1` is. */
  type Positive = n: nat | n >= 1 witness 1

  /** What the pass needs of a verse: its number, its word count (at least
      one) and its normalised master text. All three depend on the verse
      alone. */
  datatype VerseProfile = VerseProfile(verse: int, masterLen: Positive, normMaster: string)

  function Profile(t: VerseTarget): VerseProfile
  {
    VerseProfile(t.verse, MasterLength(t.text), NormalizeText(t.text))
  }

  function Profiles(ts: seq<VerseTarget>): seq<VerseProfile>
  {
    seq(|ts|, i requires 0 <= i < |ts| => Profile(ts[i]))
  }

  /** How a verse picks its window from the cursor: the end of its segment
      and the score recorded for it. */
  type Chooser = (nat, VerseProfile) -> Choice

  /** A chooser that, while words are left, always takes at least one of
      them and never runs past the last. The pass is defined for any such
      chooser; `segmentAndVerify` uses `Greedy`. */
  ghost predicate Advances(words: seq<string>, choose: Chooser)
  {
    forall cursor: nat, v: VerseProfile :: cursor < |words| ==> cursor < choose(cursor, v).end <= |words|
  }

  /** The window scan of `segmentAndVerify`, at any cursor where words are left. */
  function ChooseAt(words: seq<string>, cursor: nat, v: VerseProfile): Choice
  {
    if cursor < |words| then ChooseFor(words, cursor, v.masterLen, v.normMaster) else Choice(cursor, 0.0)
  }

  function Greedy(words: seq<string>): Chooser
  {
    (cursor: nat, v: VerseProfile) => ChooseAt(words, cursor, v)
  }

  lemma GreedyAdvances(words: seq<string>)
    ensures Advances(words, Greedy(words))
  {
  }

  /** What one verse yields and where the cursor then stands. */
  datatype Step = Step(entry: VerseSegmentResult, cursor: nat)

  /** One iteration of the loop over the verse sequence. */
  function StepWith(words: seq<string>, cursor: nat, v: VerseProfile, passThreshold: real, choose: Chooser): (s: Step)
    requires cursor <= |words| && Advances(words, choose)
    ensures cursor <= s.cursor <= |words|
  {
    if |words| - cursor <= 0 then
      Step(VerseSegmentResult(v.verse, [], 0.0, false), cursor)
    else
      var c := choose(cursor, v);
      Step(VerseSegmentResult(v.verse, Join(words[cursor..c.end]), Round2(c.best), c.best >= passThreshold), c.end)
  }

  /** The results so far and the cursor after the verses of `verses`. */
  datatype Progress = Progress(results: seq<VerseSegmentResult>, cursor: nat)

  function Run(words: seq<string>, verses: seq<VerseProfile>, passThreshold: real, choose: Chooser): (p: Progress)
    requires Advances(words, choose)
    ensures p.cursor <= |words| && |p.results| == |verses|
    decreases |verses|
  {
    if verses == [] then Progress([], 0)
    else
      var p := Run(words, verses[..|verses| - 1], passThreshold, choose);
      var s := StepWith(words, p.cursor, verses[|verses| - 1], passThreshold, choose);
      Progress(p.results + [s.entry], s.cursor)
  }

  /** `segmentAndVerify` as a function of its inputs. */
  function Segments(spokenText: string, verseSequence: seq<VerseTarget>, passThreshold: real): seq<VerseSegmentResult>
  {
    var words := ToWords(spokenText);
    GreedyAdvances(words);
    Run(words, Profiles(verseSequence), passThreshold, Greedy(words)).results
  }

  // ---------------------------------------------------------------- properties of the pass

  /** A window score lies in [0, 100] and on the grid of hundredths. */
  lemma ScoreOnGrid(words: seq<string>, cursor: nat, w: nat, normMaster: string)
    requires cursor + w <= |words|
    ensures 0.0 <= Score(words, cursor, w, normMaster) <= 100.0
    ensures Round2(Score(words, cursor, w, normMaster)) == Score(words, cursor, w, normMaster)
  {
    if w == 0 {
      Round2OfGrid(0);
    } else {
      var s := Join(words[cursor..cursor + w]);
      GraceFormulaRange(EditDistance(s, normMaster), Max(|s|, |normMaster|));
      GraceOnGridIsRounded(EditDistance(s, normMaster), Max(|s|, |normMaster|));
    }
  }

  /** The best score of a verse is -1 exactly when no window size fits, and
      then the segment runs to the end; otherwise it is a score in [0, 100]
      that rounding leaves unchanged. */
  lemma ChooseForBest(words: seq<string>, cursor: nat, m: nat, normMaster: string)
    requires cursor < |words| && m >= 1
    ensures var c := ChooseFor(words, cursor, m, normMaster);
      && (c.best == -1.0 <==> MinWindow(m) > MaxWindow(m, |words| - cursor))
      && (c.best == -1.0 ==> c.end == |words|)
      && (c.best != -1.0 ==> 0.0 <= c.best <= 100.0 && Round2(c.best) == c.best)
  {
    var c := ChooseFor(words, cursor, m, normMaster);
    ChooseForFacts(words, cursor, m, normMaster);
    if MinWindow(m) <= MaxWindow(m, |words| - cursor) {
      ScoreOnGrid(words, cursor, c.end - cursor, normMaster);
    }
  }

  /** Words joined with single spaces are empty only when there are none. */
  lemma JoinSpokenNonEmpty(ws: seq<string>)
    requires AllSpoken(ws)
    ensures Join(ws) == [] <==> ws == []
  {
  }

  /** One verse of the greedy pass: an exhausted cursor yields the empty
      segment, score 0, not passed, and stays put; otherwise the verse takes
      at least one word, its segment is the words it takes, its score is -1
      exactly when fewer words are left than its smallest window (and then
      it takes them all) and otherwise in [0, 100], and it passes exactly
      when its score reaches the threshold. */
  lemma StepFacts(words: seq<string>, cursor: nat, v: VerseProfile, passThreshold: real)
    requires AllSpoken(words) && cursor <= |words|
    ensures Advances(words, Greedy(words))
    ensures var s := StepWith(words, cursor, v, passThreshold, Greedy(words));
      && s.entry.verse == v.verse
      && s.entry.segment == Join(words[cursor..s.cursor])
      && (cursor == |words| ==> s.cursor == cursor && s.entry.score == 0.0 && !s.entry.passed)
      && (cursor < |words| ==>
            && cursor < s.cursor
            && s.entry.segment != []
            && (s.entry.score == -1.0 <==> MinWindow(v.masterLen) > MaxWindow(v.masterLen, |words| - cursor))
            && (s.entry.score == -1.0 ==> s.cursor == |words|)
            && (s.entry.score != -1.0 ==> 0.0 <= s.entry.score <= 100.0)
            && (s.entry.passed <==> s.entry.score >= passThreshold))
  {
    GreedyAdvances(words);
    if cursor < |words| {
      var c := ChooseFor(words, cursor, v.masterLen, v.normMaster);
      assert Greedy(words)(cursor, v) == c;
      ChooseForBest(words, cursor, v.masterLen, v.normMaster);
      if c.best == -1.0 {
        Round2OfGrid(-100);
      }
      AllSpokenSlice(words, cursor, c.end);
      JoinSpokenNonEmpty(words[cursor..c.end]);
    }
  }

  /** Where the cursor stands before verse `i`. */
  function Cut(words: seq<string>, verses: seq<VerseProfile>, passThreshold: real, choose: Chooser, i: nat): nat
    requires Advances(words, choose) && i <= |verses|
  {
    Run(words, verses[..i], passThreshold, choose).cursor
  }

  /** The pass over the first `k` verses yields the first `k` entries of
      the pass over them all: later verses never change earlier entries. */
  lemma {:induction false} RunPrefix(words: seq<string>, verses: seq<VerseProfile>, passThreshold: real, choose: Chooser, k: nat)
    requires Advances(words, choose) && k <= |verses|
    ensures Run(words, verses[..k], passThreshold, choose).results == Run(words, verses, passThreshold, choose).results[..k]
    decreases |verses|
  {
    var n := |verses|;
    if k < n {
      var front := verses[..n - 1];
      var q := Run(words, front, passThreshold, choose);
      var last := StepWith(words, q.cursor, verses[n - 1], passThreshold, choose);
      assert Run(words, verses, passThreshold, choose).results == q.results + [last.entry];
      RunPrefix(words, front, passThreshold, choose, k);
      assert front[..k] == verses[..k];
    } else {
      assert verses[..k] == verses;
    }
  }

  /** The pass over the verses up to `i` ends with one step from the cursor
      before verse `i`. */
  lemma RunUpTo(words: seq<string>, verses: seq<VerseProfile>, passThreshold: real, choose: Chooser, i: nat)
    requires Advances(words, choose) && i < |verses|
    ensures var s := StepWith(words, Cut(words, verses, passThreshold, choose, i), verses[i], passThreshold, choose);
      && Run(words, verses[..i + 1], passThreshold, choose).results[i] == s.entry
      && Cut(words, verses, passThreshold, choose, i + 1) == s.cursor
  {
    var upTo := verses[..i + 1];
    assert upTo[..i] == verses[..i];
    assert upTo[i] == verses[i];
  }

  /** The pass over the verses up to `i` is the pass up to `i - 1` and one
      more step. */
  lemma RunSnoc(words: seq<string>, verses: seq<VerseProfile>, passThreshold: real, choose: Chooser, i: nat)
    requires Advances(words, choose) && i < |verses|
    ensures var p := Run(words, verses[..i], passThreshold, choose);
      var s := StepWith(words, p.cursor, verses[i], passThreshold, choose);
      Run(words, verses[..i + 1], passThreshold, choose) == Progress(p.results + [s.entry], s.cursor)
  {
    assert verses[..i + 1][..i] == verses[..i];
  }

  /** Entry `i` of the pass is what one step from the cursor before verse
      `i` gives, and the cursor after it is the cursor before verse `i + 1`. */
  lemma RunEntry(words: seq<string>, verses: seq<VerseProfile>, passThreshold: real, choose: Chooser, i: nat)
    requires Advances(words, choose) && i < |verses|
    ensures var p := Run(words, verses, passThreshold, choose);
      var s := StepWith(words, Cut(words, verses, passThreshold, choose, i), verses[i], passThreshold, choose);
      && p.results[i] == s.entry
      && Cut(words, verses, passThreshold, choose, i + 1) == s.cursor
  {
    RunPrefix(words, verses, passThreshold, choose, i + 1);
    RunUpTo(words, verses, passThreshold, choose, i);
  }

  /** What `segmentAndVerify` promises of entry `i`: one entry per verse, in
      order; the segments are consecutive runs of spoken words starting at
      the first; each verse consumes at least one word while any are left;
      once they are used up the entry is empty, scored 0 and not passed; a
      score is -1 exactly when fewer words were left than the verse's
      smallest window, and then the verse takes the rest, otherwise it is
      in [0, 100]; and an entry passes exactly when it has words and its
      score reaches the threshold. */
  lemma RunFacts(words: seq<string>, verses: seq<VerseProfile>, passThreshold: real, i: nat)
    requires AllSpoken(words) && i < |verses|
    ensures Advances(words, Greedy(words))
    ensures var results := Run(words, verses, passThreshold, Greedy(words)).results;
      var c, d := Cut(words, verses, passThreshold, Greedy(words), i), Cut(words, verses, passThreshold, Greedy(words), i + 1);
      var e, m := results[i], verses[i].masterLen;
      && |results| == |verses|
      && Cut(words, verses, passThreshold, Greedy(words), 0) == 0
      && c <= d <= |words|
      && e.verse == verses[i].verse
      && e.segment == Join(words[c..d])
      && (c < |words| ==> c < d)
      && (c == |words| ==> d == c && e.segment == [] && e.score == 0.0 && !e.passed)
      && (c < |words| ==> (e.score == -1.0 <==> MinWindow(m) > MaxWindow(m, |words| - c)))
      && (e.score == -1.0 ==> d == |words|)
      && (e.score == -1.0 || 0.0 <= e.score <= 100.0)
      && (e.passed <==> e.segment != [] && e.score >= passThreshold)
  {
    GreedyAdvances(words);
    RunEntry(words, verses, passThreshold, Greedy(words), i);
    StepFacts(words, Cut(words, verses, passThreshold, Greedy(words), i), verses[i], passThreshold);
  }

  /** While words are left, a greedy step ends where the window scan does
      and records its best score, which rounding leaves unchanged. */
  lemma GreedyStep(words: seq<string>, cursor: nat, v: VerseProfile, passThreshold: real)
    requires cursor < |words|
    ensures Advances(words, Greedy(words))
    ensures var s := StepWith(words, cursor, v, passThreshold, Greedy(words));
      var c := ChooseFor(words, cursor, v.masterLen, v.normMaster);
      s.cursor == c.end && s.entry.score == c.best
  {
    GreedyAdvances(words);
    var c := ChooseFor(words, cursor, v.masterLen, v.normMaster);
    assert Greedy(words)(cursor, v) == c;
    ChooseForBest(words, cursor, v.masterLen, v.normMaster);
  }

  /** The window of entry `i`: when words are left and some window size
      fits, the verse takes an allowed number of words, its score is the
      score of that window, no allowed size scores higher and every smaller
      allowed size scores strictly less. */
  lemma RunWindow(words: seq<string>, verses: seq<VerseProfile>, passThreshold: real, i: nat)
    requires AllSpoken(words) && i < |verses|
    ensures Advances(words, Greedy(words))
    ensures var results := Run(words, verses, passThreshold, Greedy(words)).results;
      var c, d := Cut(words, verses, passThreshold, Greedy(words), i), Cut(words, verses, passThreshold, Greedy(words), i + 1);
      var m, nm := verses[i].masterLen, verses[i].normMaster;
      var lo := MinWindow(m);
      c <= d <= |words| &&
      (c < |words| && lo <= MaxWindow(m, |words| - c) ==>
        && lo <= d - c <= MaxWindow(m, |words| - c)
        && results[i].score == Score(words, c, d - c, nm)
        && (forall w :: lo <= w <= MaxWindow(m, |words| - c) ==> Score(words, c, w, nm) <= results[i].score)
        && (forall w :: lo <= w < d - c ==> Score(words, c, w, nm) < results[i].score))
  {
    GreedyAdvances(words);
    var c := Cut(words, verses, passThreshold, Greedy(words), i);
    RunEntry(words, verses, passThreshold, Greedy(words), i);
    if c < |words| {
      GreedyStep(words, c, verses[i], passThreshold);
      ChooseForFacts(words, c, verses[i].masterLen, verses[i].normMaster);
    }
  }

  /** The words of the segments, each split back on single spaces, in order. */
  function WordsOfSegments(results: seq<VerseSegmentResult>): seq<string>
  {
    if results == [] then []
    else WordsOfSegments(results[..|results| - 1]) + NonEmpty(Split(results[|results| - 1].segment))
  }

  /** Splitting the segment of one step gives back the words it took. */
  lemma StepWords(words: seq<string>, cursor: nat, v: VerseProfile, passThreshold: real, choose: Chooser)
    requires AllSpoken(words) && cursor <= |words| && Advances(words, choose)
    ensures var s := StepWith(words, cursor, v, passThreshold, choose);
      NonEmpty(Split(s.entry.segment)) == words[cursor..s.cursor]
  {
    var s := StepWith(words, cursor, v, passThreshold, choose);
    assert s.entry.segment == Join(words[cursor..s.cursor]);
    AllSpokenSlice(words, cursor, s.cursor);
    AllSpokenIff(words[cursor..s.cursor]);
    NonEmptySplitOfJoin(words[cursor..s.cursor]);
  }

  /** One more segment holding the next words extends the tiling. */
  lemma TileAppend(words: seq<string>, results: seq<VerseSegmentResult>, entry: VerseSegmentResult, c: nat, d: nat)
    requires c <= d <= |words|
    requires WordsOfSegments(results) == words[..c]
    requires NonEmpty(Split(entry.segment)) == words[c..d]
    ensures WordsOfSegments(results + [entry]) == words[..d]
  {
    assert (results + [entry])[..|results|] == results;
    assert words[..c] + words[c..d] == words[..d];
  }

  /** The segments tile the spoken words: their words, in order, are the
      words before the final cursor, each used once. */
  lemma {:induction false} RunTiles(words: seq<string>, verses: seq<VerseProfile>, passThreshold: real, choose: Chooser)
    requires AllSpoken(words) && Advances(words, choose)
    ensures var p := Run(words, verses, passThreshold, choose);
      WordsOfSegments(p.results) == words[..p.cursor]
    decreases |verses|
  {
    if verses != [] {
      var n := |verses|;
      var q := Run(words, verses[..n - 1], passThreshold, choose);
      var s := StepWith(words, q.cursor, verses[n - 1], passThreshold, choose);
      assert Run(words, verses, passThreshold, choose) == Progress(q.results + [s.entry], s.cursor);
      RunTiles(words, verses[..n - 1], passThreshold, choose);
      StepWords(words, q.cursor, verses[n - 1], passThreshold, choose);
      TileAppend(words, q.results, s.entry, q.cursor, s.cursor);
    }
  }

  /** Once the words are used up the cursor stays at the end. */
  lemma {:induction false} CutStaysAtEnd(words: seq<string>, verses: seq<VerseProfile>, passThreshold: real, choose: Chooser,
                                         i: nat, k: nat)
    requires Advances(words, choose) && i <= k <= |verses|
    requires Cut(words, verses, passThreshold, choose, i) == |words|
    ensures Cut(words, verses, passThreshold, choose, k) == |words|
    decreases k - i
  {
    if i < k {
      CutStaysAtEnd(words, verses, passThreshold, choose, i, k - 1);
      RunUpTo(words, verses, passThreshold, choose, k - 1);
    }
  }

  /** Once the words are used up, every later verse gets the empty segment,
      score 0 and not passed. */
  lemma ExhaustedAfter(words: seq<string>, verses: seq<VerseProfile>, passThreshold: real, choose: Chooser, i: nat)
    requires Advances(words, choose) && i <= |verses|
    requires Cut(words, verses, passThreshold, choose, i) == |words|
    ensures var results := Run(words, verses, passThreshold, choose).results;
      forall k :: i <= k < |verses| ==> results[k] == VerseSegmentResult(verses[k].verse, [], 0.0, false)
  {
    var results := Run(words, verses, passThreshold, choose).results;
    forall k | i <= k < |verses|
      ensures results[k] == VerseSegmentResult(verses[k].verse, [], 0.0, false)
    {
      CutStaysAtEnd(words, verses, passThreshold, choose, i, k);
      RunEntry(words, verses, passThreshold, choose, k);
    }
  }

  /** `segmentAndVerify` is the greedy pass over the spoken words of the
      transcript and the profiles of the verses: the words are spoken words,
      and profile `i` is verse `i`'s number, word count and normalised text. */
  lemma SegmentsFacts(spokenText: string, verseSequence: seq<VerseTarget>, passThreshold: real)
    ensures AllSpoken(ToWords(spokenText)) && Advances(ToWords(spokenText), Greedy(ToWords(spokenText)))
    ensures Segments(spokenText, verseSequence, passThreshold)
              == Run(ToWords(spokenText), Profiles(verseSequence), passThreshold, Greedy(ToWords(spokenText))).results
    ensures |Profiles(verseSequence)| == |verseSequence|
    ensures forall i :: 0 <= i < |verseSequence| ==>
              && Profiles(verseSequence)[i].verse == verseSequence[i].verse
              && Profiles(verseSequence)[i].masterLen == MasterLength(verseSequence[i].text)
              && Profiles(verseSequence)[i].normMaster == NormalizeText(verseSequence[i].text)
  {
    ToWordsClean(spokenText);
    AllSpokenIff(ToWords(spokenText));
    GreedyAdvances(ToWords(spokenText));
  }

  /** The segments `segmentAndVerify` returns, split back into words and
      concatenated, are the first words of the transcript, in order and each
      once. */
  lemma SegmentsTile(spokenText: string, verseSequence: seq<VerseTarget>, passThreshold: real)
    ensures WordsOfSegments(Segments(spokenText, verseSequence, passThreshold)) <= ToWords(spokenText)
  {
    var words := ToWords(spokenText);
    SegmentsFacts(spokenText, verseSequence, passThreshold);
    RunTiles(words, Profiles(verseSequence), passThreshold, Greedy(words));
  }

  /** Entry `i` of the pass is labelled with the number of verse `i`. */
  lemma {:induction false} RunVerses(words: seq<string>, verses: seq<VerseProfile>, passThreshold: real, choose: Chooser)
    requires Advances(words, choose)
    ensures var results := Run(words, verses, passThreshold, choose).results;
      forall i :: 0 <= i < |verses| ==> results[i].verse == verses[i].verse
    decreases |verses|
  {
    if verses != [] {
      var n := |verses|;
      var q := Run(words, verses[..n - 1], passThreshold, choose);
      var s := StepWith(words, q.cursor, verses[n - 1], passThreshold, choose);
      assert Run(words, verses, passThreshold, choose).results == q.results + [s.entry];
      RunVerses(words, verses[..n - 1], passThreshold, choose);
    }
  }

  /** `segmentAndVerify` returns one entry per verse of the sequence, in
      its order, each labelled with its verse's number. */
  lemma SegmentsVerses(spokenText: string, verseSequence: seq<VerseTarget>, passThreshold: real)
    ensures var results := Segments(spokenText, verseSequence, passThreshold);
      && |results| == |verseSequence|
      && forall i :: 0 <= i < |verseSequence| ==> results[i].verse == verseSequence[i].verse
  {
    var words := ToWords(spokenText);
    SegmentsFacts(spokenText, verseSequence, passThreshold);
    RunVerses(words, Profiles(verseSequence), passThreshold, Greedy(words));
  }

  /** `scoreWindow`: no words score 0, otherwise the score of
      `verifyRecitation` on the joined words. */
  method ScoreWindow(spokenWords: seq<string>, masterText: string, threshold: real) returns (score: real)
    ensures score == WindowScore(spokenWords, masterText)
    ensures 0.0 <= score <= 100.0
  {
    WindowScoreRange(spokenWords, masterText);
    if |spokenWords| == 0 {
      return 0.0;
    }
    var result := VerifyRecitation(Join(spokenWords), masterText, threshold);
    score := result.score;
  }

  /** `segmentAndVerify`. */
  method SegmentAndVerify(spokenText: string, verseSequence: seq<VerseTarget>, passThreshold: real := 80.0)
    returns (results: seq<VerseSegmentResult>)
    ensures results == Segments(spokenText, verseSequence, passThreshold)
  {
    var spokenWords := ToWords(spokenText);
    ToWordsClean(spokenText);
    AllSpokenIff(spokenWords);
    results := SegmentWords(spokenWords, verseSequence, passThreshold);
  }

  /** The loop of `segmentAndVerify` over the verse sequence. */
  method SegmentWords(spokenWords: seq<string>, verseSequence: seq<VerseTarget>, passThreshold: real)
    returns (results: seq<VerseSegmentResult>)
    requires AllSpoken(spokenWords)
    ensures Advances(spokenWords, Greedy(spokenWords))
    ensures results == Run(spokenWords, Profiles(verseSequence), passThreshold, Greedy(spokenWords)).results
  {
    GreedyAdvances(spokenWords);
    results := [];
    var cursor: nat := 0;
    ghost var verses := Profiles(verseSequence);
    for k := 0 to |verseSequence|
      invariant cursor <= |spokenWords|
      invariant Run(spokenWords, verses[..k], passThreshold, Greedy(spokenWords)) == Progress(results, cursor)
    {
      RunSnoc(spokenWords, verses, passThreshold, Greedy(spokenWords), k);
      assert verses[k] == Profile(verseSequence[k]);
      var entry, next := SegmentVerse(spokenWords, cursor, verseSequence[k], passThreshold);
      results := results + [entry];
      cursor := next;
    }
    assert verses[..|verseSequence|] == verses;
  }

  /** One iteration: a zero entry once the words are used up, otherwise the
      chosen window, its rounded score and the pass flag. */
  method SegmentVerse(spokenWords: seq<string>, cursor: nat, target: VerseTarget, passThreshold: real)
    returns (entry: VerseSegmentResult, next: nat)
    requires AllSpoken(spokenWords) && cursor <= |spokenWords|
    ensures Advances(spokenWords, Greedy(spokenWords))
    ensures Step(entry, next) == StepWith(spokenWords, cursor, Profile(target), passThreshold, Greedy(spokenWords))
  {
    GreedyAdvances(spokenWords);
    var remaining := |spokenWords| - cursor;
    if remaining <= 0 {
      return VerseSegmentResult(target.verse, [], 0.0, false), cursor;
    }
    var bestEnd, bestScore := ChooseWindow(spokenWords, cursor, target.text, passThreshold);
    var segmentWords := spokenWords[cursor..bestEnd];
    entry := VerseSegmentResult(target.verse, Join(segmentWords), Round2(bestScore), bestScore >= passThreshold);
    next := bestEnd;
  }

  /** The score of the window of `w` words at the cursor. */
  method ScoreAt(spokenWords: seq<string>, cursor: nat, w: nat, masterText: string, passThreshold: real)
    returns (score: real)
    requires AllSpoken(spokenWords) && cursor + w <= |spokenWords|
    ensures score == Score(spokenWords, cursor, w, NormalizeText(masterText))
    ensures score >= 0.0
  {
    var candidate := spokenWords[cursor..cursor + w];
    score := ScoreWindow(candidate, masterText, passThreshold);
    ScoreIsWindowScore(spokenWords, cursor, w, masterText);
  }

  /** The window scan of one verse: its word count, then the scan. */
  method ChooseWindow(spokenWords: seq<string>, cursor: nat, masterText: string, passThreshold: real)
    returns (bestEnd: nat, bestScore: real)
    requires cursor < |spokenWords| && AllSpoken(spokenWords)
    ensures ChooseFor(spokenWords, cursor, MasterLength(masterText), NormalizeText(masterText)) == Choice(bestEnd, bestScore)
  {
    var masterWords := ToWords(masterText);
    var masterLen := if |masterWords| == 0 then 1 else |masterWords|;
    bestEnd, bestScore := ScanWindows(spokenWords, cursor, masterText, masterLen, passThreshold);
  }

  /** Sizes the window between 55% and 180% of the verse, then scans. */
  method ScanWindows(spokenWords: seq<string>, cursor: nat, masterText: string, masterLen: nat, passThreshold: real)
    returns (bestEnd: nat, bestScore: real)
    requires cursor < |spokenWords| && AllSpoken(spokenWords) && masterLen >= 1
    ensures ChooseFor(spokenWords, cursor, masterLen, NormalizeText(masterText)) == Choice(bestEnd, bestScore)
  {
    var remaining := |spokenWords| - cursor;
    var minWindow := MinWindow(masterLen);
    var maxWindow := MaxWindow(masterLen, remaining);
    bestEnd, bestScore := ScanRange(spokenWords, cursor, masterText, minWindow, maxWindow,
                                    cursor + Min(masterLen, remaining), passThreshold);
    ChooseForOfScan(spokenWords, cursor, masterLen, NormalizeText(masterText));
  }

  /** The body of the window loop: score size `w` and keep it when it beats
      the best so far. */
  method TryWindow(spokenWords: seq<string>, cursor: nat, masterText: string, minWindow: nat, w: nat,
                   end: nat, best: real, passThreshold: real)
    returns (bestEnd: nat, bestScore: real)
    requires AllSpoken(spokenWords) && 1 <= minWindow <= w && cursor + w <= |spokenWords|
    requires w == minWindow ==> best == -1.0
    requires w > minWindow ==> Choice(end, best) == Scan(spokenWords, cursor, minWindow, w - 1, NormalizeText(masterText))
    ensures Choice(bestEnd, bestScore) == Scan(spokenWords, cursor, minWindow, w, NormalizeText(masterText))
  {
    var score := ScoreAt(spokenWords, cursor, w, masterText, passThreshold);
    ScanStep(spokenWords, cursor, minWindow, w, NormalizeText(masterText), end, best, score);
    bestEnd, bestScore := end, best;
    if score > bestScore {
      bestScore := score;
      bestEnd := cursor + w;
    }
  }

  /** `for (let w = minWindow; w <= maxWindow; w++)`: the first best window,
      or the fallback end and -1 when the range is empty. */
  method ScanRange(spokenWords: seq<string>, cursor: nat, masterText: string, minWindow: nat, maxWindow: nat,
                   fallbackEnd: nat, passThreshold: real)
    returns (bestEnd: nat, bestScore: real)
    requires AllSpoken(spokenWords) && 1 <= minWindow && cursor + maxWindow <= |spokenWords|
    ensures minWindow > maxWindow ==> bestEnd == fallbackEnd && bestScore == -1.0
    ensures minWindow <= maxWindow ==>
              Choice(bestEnd, bestScore) == Scan(spokenWords, cursor, minWindow, maxWindow, NormalizeText(masterText))
  {
    bestScore := -1.0;
    bestEnd := fallbackEnd;
    ghost var normMaster := NormalizeText(masterText);
    var w := minWindow;
    while w <= maxWindow
      invariant minWindow <= w && (w > minWindow ==> w - 1 <= maxWindow)
      invariant w == minWindow ==> bestScore == -1.0 && bestEnd == fallbackEnd
      invariant w > minWindow ==> Choice(bestEnd, bestScore) == Scan(spokenWords, cursor, minWindow, w - 1, normMaster)
      decreases maxWindow as int + 1 - w
    {
      bestEnd, bestScore := TryWindow(spokenWords, cursor, masterText, minWindow, w, bestEnd, bestScore, passThreshold);
      w := w + 1;
    }
    if minWindow <= maxWindow {
      assert w - 1 == maxWindow;
    }
  }
}
