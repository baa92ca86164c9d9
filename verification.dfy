/** The single-verse verifier: `normalizeText`, the grace formula and
    `verifyRecitation`, with `getDetailedMetrics` on top. */
module Verification {

  import opened Numeric
  import opened Rounding
  import opened Text
  import opened Levenshtein

  // ---------------------------------------------------------------- normalisation

  /** `FILLER_WORDS` of the verifier. Two entries contain a space and so can
      never equal a token produced by `split(' ')`. */
  const FillerWords: seq<string> := [
    "um", "uh", "uhh", "umm", "like", "you know", "youknow", "basically",
    "literally", "so", "uh huh", "uhhuh", "er", "erm", "ah", "hmm", "well"
  ]

  /** The test of the `filter` in `normalizeText`. */
  predicate IsFiller(w: string)
  {
    ToLower(w) in FillerWords
  }

  /** The `filter` of `normalizeText`: tokens whose lowercase form is a filler
      entry are dropped, the others kept in order. */
  function RemoveFillers(ws: seq<string>): (r: seq<string>)
    ensures |r| <= |ws|
  {
    if ws == [] then []
    else (if IsFiller(ws[0]) then [] else [ws[0]]) + RemoveFillers(ws[1..])
  }

  /** A token is kept exactly when it is not a filler. */
  lemma {:induction false} RemoveFillersMembers(ws: seq<string>)
    ensures forall w :: w in RemoveFillers(ws) <==> w in ws && !IsFiller(w)
  {
    if ws != [] {
      RemoveFillersMembers(ws[1..]);
      assert ws == [ws[0]] + ws[1..];
    }
  }

  /** `normalizeText(text)`. */
  function NormalizeText(text: string): string
  {
    Trim(Join(RemoveFillers(Tokens(text))))
  }

  /** The words a normalised text is made of: the words of the folded text
      with the filler entries removed. */
  function NormalizedWords(text: string): seq<string>
  {
    RemoveFillers(Words(Fold(text)))
  }

  lemma RemoveFillersOfNonFillers(ws: seq<string>)
    requires forall w :: w in ws ==> !IsFiller(w)
    ensures RemoveFillers(ws) == ws
  {
  }

  /** Every normalised word is a clean word and not a filler entry. */
  lemma NormalizedWordsClean(text: string)
    ensures forall w :: w in NormalizedWords(text) ==> CleanWord(w) && !IsFiller(w) && w !in FillerWords
  {
    WordsOfFoldAreClean(text);
    RemoveFillersMembers(Words(Fold(text)));
    forall w | w in NormalizedWords(text)
      ensures CleanWord(w) && !IsFiller(w) && w !in FillerWords
    {
      CleanWordIsLower(w);
    }
  }

  lemma EmptyNotFiller()
    ensures !IsFiller([])
  {
    assert ToLower([]) == [];
  }

  /** The lone empty token that `split(' ')` gives for an empty text is not a
      filler. */
  lemma EmptyTokenKept()
    ensures RemoveFillers([[]]) == [[]]
  {
  }

  /** `normalizeText` joins the normalised words with single spaces. */
  lemma NormalizeTextIsJoin(text: string)
    ensures NormalizeText(text) == Join(NormalizedWords(text))
  {
    TokensAreWords(text);
    var ws := Words(Fold(text));
    if ws == [] {
      EmptyTokenKept();
    } else {
      NormalizedWordsClean(text);
      JoinWellFormed(NormalizedWords(text));
      WellFormedIsFixed(Join(NormalizedWords(text)));
    }
  }

  /** `normalizeText` gives single spaces between clean words: no
      punctuation, no capital, no space at an end, no run of spaces. */
  lemma NormalizeTextWellFormed(text: string)
    ensures WellFormed(NormalizeText(text))
  {
    NormalizeTextIsJoin(text);
    NormalizedWordsClean(text);
    JoinWellFormed(NormalizedWords(text));
  }

  lemma WellFormedIsScrubbed(n: string)
    requires WellFormed(n)
    ensures forall i :: 0 <= i < |n| ==> !IsPunctuation(n[i]) && !IsUpper(n[i])
  {
    forall i | 0 <= i < |n|
      ensures !IsPunctuation(n[i]) && !IsUpper(n[i])
    {
      assert n[i] == ' ' || CleanChar(n[i]);
    }
  }

  /** No character of a normalised text is punctuation or upper case. */
  lemma NormalizeTextScrubbed(text: string)
    ensures forall i :: 0 <= i < |NormalizeText(text)| ==>
              !IsPunctuation(NormalizeText(text)[i]) && !IsUpper(NormalizeText(text)[i])
  {
    NormalizeTextWellFormed(text);
    WellFormedIsScrubbed(NormalizeText(text));
  }

  /** No token of a normalised text is in the filler list. */
  lemma NormalizeTextHasNoFiller(text: string)
    ensures forall w :: w in Split(NormalizeText(text)) ==> !IsFiller(w)
  {
    NormalizeTextIsJoin(text);
    var ws := NormalizedWords(text);
    NormalizedWordsClean(text);
    if ws == [] {
      assert Split(Join(ws)) == [[]];
      EmptyNotFiller();
    } else {
      SplitOfJoin(ws);
    }
  }

  /** The words of the normalised text are the normalised words. */
  lemma WordsOfNormalizeText(text: string)
    ensures Words(NormalizeText(text)) == NormalizedWords(text)
  {
    NormalizeTextIsJoin(text);
    NormalizedWordsClean(text);
    WordsOfJoin(NormalizedWords(text));
  }

  /** Normalising clean words joined by spaces removes exactly the filler
      entries. */
  lemma NormalizeJoin(ws: seq<string>)
    requires forall w :: w in ws ==> CleanWord(w)
    ensures NormalizeText(Join(ws)) == Join(RemoveFillers(ws))
  {
    var t := Join(ws);
    JoinWellFormed(ws);
    WellFormedIsFixed(t);
    WordsOfJoin(ws);
    NormalizeTextIsJoin(t);
  }

  /** `normalizeText` is idempotent. */
  lemma NormalizeTextIdempotent(text: string)
    ensures NormalizeText(NormalizeText(text)) == NormalizeText(text)
  {
    var ws := NormalizedWords(text);
    NormalizeTextIsJoin(text);
    NormalizedWordsClean(text);
    NormalizeJoin(ws);
    RemoveFillersOfNonFillers(ws);
  }

  /** No token contains a space: every token is either the empty string or a
      clean word. */
  lemma TokensHaveNoSpace(text: string)
    ensures forall w :: w in Tokens(text) ==> forall i :: 0 <= i < |w| ==> w[i] != ' '
  {
    TokensAreWords(text);
    WordsOfFoldAreClean(text);
  }

  /** No list entry that contains a space ever equals a token, so the two
      two-word entries never match. */
  lemma MultiWordEntriesNeverMatch(text: string)
    ensures forall e :: e in FillerWords && ' ' in e ==> e !in Tokens(text)
  {
    TokensHaveNoSpace(text);
    forall e | e in FillerWords && ' ' in e
      ensures e !in Tokens(text)
    {
      var k :| 0 <= k < |e| && e[k] == ' ';
      NotATokenIfSpaced(Tokens(text), e, k);
    }
  }

  /** A string with a space in it is not in a list of space-free tokens. */
  lemma NotATokenIfSpaced(toks: seq<string>, e: string, k: nat)
    requires forall w :: w in toks ==> forall i :: 0 <= i < |w| ==> w[i] != ' '
    requires k < |e| && e[k] == ' '
    ensures e !in toks
  {
  }

  /** Hence `you`, `know` and `huh` survive normalisation. */
  lemma YouKnowHuhKept(text: string)
    ensures forall w :: w in Words(Fold(text)) && (w == "you" || w == "know" || w == "huh") ==>
              w in NormalizedWords(text)
  {
    forall w | w in Words(Fold(text)) && (w == "you" || w == "know" || w == "huh")
      ensures w in NormalizedWords(text)
    {
      RemoveFillersMembers(Words(Fold(text)));
      WordsOfFoldAreClean(text);
      CleanWordIsLower(w);
    }
  }

  /** Two concrete consequences of the list as written: the filter keeps both
      words of "you know" and only drops the "uh" of "uh huh". */
  lemma FillerExamples()
    ensures RemoveFillers(["you", "know"]) == ["you", "know"]
    ensures RemoveFillers(["uh", "huh"]) == ["huh"]
  {
    ExampleLower();
    ExampleMembership();
    assert RemoveFillers(["know"]) == ["know"];
    assert RemoveFillers(["huh"]) == ["huh"];
  }

  lemma ExampleLower()
    ensures ToLower("you") == "you" && ToLower("know") == "know"
    ensures ToLower("uh") == "uh" && ToLower("huh") == "huh"
  {
  }

  lemma ExampleMembership()
    ensures "you" !in FillerWords && "know" !in FillerWords
    ensures "uh" in FillerWords && "huh" !in FillerWords
  {
  }

  /** Texts with the same words after case folding and punctuation removal
      normalise alike: case, the stripped punctuation and whitespace do not
      matter. */
  lemma SameWordsSameNormalization(a: string, b: string)
    requires Words(Fold(a)) == Words(Fold(b))
    ensures NormalizeText(a) == NormalizeText(b)
  {
    NormalizeTextIsJoin(a);
    NormalizeTextIsJoin(b);
  }

  // ---------------------------------------------------------------- the grace formula

  /** `Math.max(0, (1 - distance / maxLength) * 100)` rounded to two decimals,
      and 100 when both texts are empty. */
  function GraceFormula(distance: nat, maxLength: nat): real
  {
    if maxLength == 0 then 100.0
    else Round2(MaxReal(0.0, (1.0 - distance as real / maxLength as real) * 100.0))
  }

  /** The score of two normalised texts. */
  function GraceScore(spoken: string, master: string): real
  {
    GraceFormula(EditDistance(spoken, master), Max(|spoken|, |master|))
  }

  /** Every score lies in [0, 100]. */
  lemma GraceFormulaRange(distance: nat, maxLength: nat)
    ensures 0.0 <= GraceFormula(distance, maxLength) <= 100.0
  {
    if maxLength > 0 {
      var q := distance as real / maxLength as real;
      assert q >= 0.0;
      Round2InRange(MaxReal(0.0, (1.0 - q) * 100.0));
    }
  }

  /** Every score is a whole number of hundredths. */
  lemma GraceFormulaOnGrid(distance: nat, maxLength: nat)
    ensures (GraceFormula(distance, maxLength) * 100.0).Floor as real == GraceFormula(distance, maxLength) * 100.0
  {
  }

  /** When the distance does not exceed the longer length the clamp at 0 never
      acts. */
  lemma ClampInactive(distance: nat, maxLength: nat)
    requires 0 < maxLength && distance <= maxLength
    ensures (1.0 - distance as real / maxLength as real) * 100.0 >= 0.0
    ensures GraceFormula(distance, maxLength) == Round2((1.0 - distance as real / maxLength as real) * 100.0)
  {
    var q := distance as real / maxLength as real;
    assert q * maxLength as real == distance as real;
    assert q <= 1.0;
  }

  /** A score of 100 is reached exactly when the distance is at most one
      twenty-thousandth of the longer length; a nonzero distance can still
      round to 100 on a text of 20000 characters or more. */
  lemma GraceFormulaFullIff(distance: nat, maxLength: nat)
    requires distance <= maxLength
    ensures GraceFormula(distance, maxLength) == 100.0 <==> 20000 * distance <= maxLength
  {
    if maxLength > 0 {
      ClampInactive(distance, maxLength);
      var q := distance as real / maxLength as real;
      QuotientAtMost(distance as real, maxLength as real, 0.00005);
      assert q >= 0.0;
      Round2Full((1.0 - q) * 100.0);
    }
  }

  /** `d / L <= c` exactly when `d <= c * L`, for positive `L`. */
  lemma QuotientAtMost(d: real, L: real, c: real)
    requires L > 0.0
    ensures d / L <= c <==> d <= c * L
  {
    var q := d / L;
    assert q * L == d;
    if q <= c {
      assert q * L <= c * L;
    } else {
      assert q * L > c * L;
    }
  }

  /** Using rounding's monotonicity: a larger distance never scores higher. */
  lemma GraceFormulaAntitone(d1: nat, d2: nat, maxLength: nat)
    requires d1 <= d2
    ensures GraceFormula(d2, maxLength) <= GraceFormula(d1, maxLength)
  {
    if maxLength > 0 {
      var L := maxLength as real;
      var q1, q2 := d1 as real / L, d2 as real / L;
      assert q1 * L == d1 as real && q2 * L == d2 as real;
      assert q1 <= q2;
      var x1, x2 := MaxReal(0.0, (1.0 - q1) * 100.0), MaxReal(0.0, (1.0 - q2) * 100.0);
      assert x2 <= x1;
      Round2Monotone(x2, x1);
    }
  }

  /** The score does not depend on which text is the spoken one. */
  lemma GraceScoreSymmetric(a: string, b: string)
    ensures GraceScore(a, b) == GraceScore(b, a)
  {
    EditDistanceSymmetric(a, b);
  }

  /** A text scored against itself gets 100. */
  lemma GraceScoreSelf(a: string)
    ensures GraceScore(a, a) == 100.0
  {
    EditDistanceSelf(a);
    GraceFormulaFullIff(0, |a|);
  }

  /** An empty recitation of a non-empty master scores 0. */
  lemma GraceScoreEmptySpoken(master: string)
    requires master != []
    ensures GraceScore([], master) == 0.0
  {
    assert EditDistance([], master) == |master|;
    var L := |master| as real;
    assert L / L == 1.0;
    Round2OfGrid(0);
  }

  /** When neither text is empty the clamp is inactive: the score is the raw
      grace formula rounded. */
  lemma GraceScoreUnclamped(spoken: string, master: string)
    requires spoken != [] || master != []
    ensures var d, L := EditDistance(spoken, master), Max(|spoken|, |master|);
      GraceScore(spoken, master) == Round2((1.0 - d as real / L as real) * 100.0)
  {
    EditDistanceBounds(spoken, master);
    ClampInactive(EditDistance(spoken, master), Max(|spoken|, |master|));
  }

  // ---------------------------------------------------------------- verifyRecitation

  datatype VerificationResult = VerificationResult(
    score: real,
    passed: bool,
    normalizedSpoken: string,
    normalizedMaster: string,
    distance: nat)

  /** `verifyRecitation(spokenText, masterText, passThreshold = 90)`. */
  method VerifyRecitation(spokenText: string, masterText: string, passThreshold: real := 90.0)
    returns (result: VerificationResult)
    ensures result.normalizedSpoken == NormalizeText(spokenText)
    ensures result.normalizedMaster == NormalizeText(masterText)
    ensures result.distance == EditDistance(result.normalizedSpoken, result.normalizedMaster)
    ensures result.score == GraceScore(result.normalizedSpoken, result.normalizedMaster)
    ensures result.passed <==> result.score >= passThreshold
    ensures 0.0 <= result.score <= 100.0
    ensures result.distance == 0 <==> result.normalizedSpoken == result.normalizedMaster
    ensures result.score == 100.0 <==>
              20000 * result.distance <= Max(|result.normalizedSpoken|, |result.normalizedMaster|)
  {
    var normalizedSpoken := NormalizeText(spokenText);
    var normalizedMaster := NormalizeText(masterText);

    var distance := LevenshteinDistance(normalizedSpoken, normalizedMaster);

    var maxLength := Max(|normalizedSpoken|, |normalizedMaster|);

    var score := 0.0;
    if maxLength == 0 {
      score := 100.0;
    } else {
      score := MaxReal(0.0, (1.0 - distance as real / maxLength as real) * 100.0);
    }

    ghost var unrounded := score;
    score := Round2(score);
    RoundedGraceFormula(distance, maxLength, unrounded);

    var passed := score >= passThreshold;

    result := VerificationResult(score, passed, normalizedSpoken, normalizedMaster, distance);

    GraceScoreFacts(normalizedSpoken, normalizedMaster);
  }

  /** The step-by-step computation of `verifyRecitation` gives the grace formula. */
  lemma RoundedGraceFormula(distance: nat, maxLength: nat, unrounded: real)
    requires maxLength == 0 ==> unrounded == 100.0
    requires maxLength > 0 ==> unrounded == MaxReal(0.0, (1.0 - distance as real / maxLength as real) * 100.0)
    ensures Round2(unrounded) == GraceFormula(distance, maxLength)
  {
    if maxLength == 0 {
      Round2OfGrid(10000);
      assert 10000 as real / 100.0 == 100.0;
    }
  }

  /** What a score says about the two texts it compares. */
  lemma GraceScoreFacts(spoken: string, master: string)
    ensures 0.0 <= GraceScore(spoken, master) <= 100.0
    ensures EditDistance(spoken, master) == 0 <==> spoken == master
    ensures GraceScore(spoken, master) == 100.0 <==>
              20000 * EditDistance(spoken, master) <= Max(|spoken|, |master|)
  {
    var d, L := EditDistance(spoken, master), Max(|spoken|, |master|);
    GraceFormulaRange(d, L);
    EditDistanceZeroIff(spoken, master);
    EditDistanceBounds(spoken, master);
    GraceFormulaFullIff(d, L);
  }

  /** Recitations that differ from the master only in case, in the stripped
      punctuation or in whitespace are at distance 0 and score 100. */
  lemma SameWordsScoreFull(spokenText: string, masterText: string)
    requires Words(Fold(spokenText)) == Words(Fold(masterText))
    ensures EditDistance(NormalizeText(spokenText), NormalizeText(masterText)) == 0
    ensures GraceScore(NormalizeText(spokenText), NormalizeText(masterText)) == 100.0
  {
    SameWordsSameNormalization(spokenText, masterText);
    EditDistanceSelf(NormalizeText(spokenText));
    GraceScoreSelf(NormalizeText(spokenText));
  }

  // ---------------------------------------------------------------- getDetailedMetrics

  datatype DetailedMetrics = DetailedMetrics(
    verification: VerificationResult,
    spokenWordCount: nat,
    masterWordCount: nat,
    originalSpokenLength: nat,
    originalMasterLength: nat,
    normalizedSpokenLength: nat,
    normalizedMasterLength: nat)

  /** `getDetailedMetrics(spokenText, masterText)`: the verification at the
      default threshold of 90, plus word counts and lengths. */
  method GetDetailedMetrics(spokenText: string, masterText: string) returns (metrics: DetailedMetrics)
    ensures metrics.verification.normalizedSpoken == NormalizeText(spokenText)
    ensures metrics.verification.normalizedMaster == NormalizeText(masterText)
    ensures metrics.verification.distance == EditDistance(NormalizeText(spokenText), NormalizeText(masterText))
    ensures metrics.verification.score == GraceScore(NormalizeText(spokenText), NormalizeText(masterText))
    ensures metrics.verification.passed <==> metrics.verification.score >= 90.0
    ensures metrics.spokenWordCount == |NormalizedWords(spokenText)|
    ensures metrics.masterWordCount == |NormalizedWords(masterText)|
    ensures metrics.originalSpokenLength == |spokenText| && metrics.originalMasterLength == |masterText|
    ensures metrics.normalizedSpokenLength == |NormalizeText(spokenText)|
    ensures metrics.normalizedMasterLength == |NormalizeText(masterText)|
    ensures metrics.spokenWordCount == 0 <==> metrics.normalizedSpokenLength == 0
    ensures metrics.masterWordCount == 0 <==> metrics.normalizedMasterLength == 0
  {
    var result := VerifyRecitation(spokenText, masterText);

    var spokenWords := NonEmpty(Split(result.normalizedSpoken));
    var masterWords := NonEmpty(Split(result.normalizedMaster));

    metrics := DetailedMetrics(result, |spokenWords|, |masterWords|,
                               |spokenText|, |masterText|,
                               |result.normalizedSpoken|, |result.normalizedMaster|);

    WordCount(spokenText);
    WordCount(masterText);
  }

  /** The non-empty space-separated tokens of a normalised text are its
      normalised words; there are none exactly when the text is empty. */
  lemma WordCount(text: string)
    ensures NonEmpty(Split(NormalizeText(text))) == NormalizedWords(text)
    ensures NormalizedWords(text) == [] <==> NormalizeText(text) == []
  {
    NormalizeTextIsJoin(text);
    NormalizedWordsClean(text);
    NonEmptySplitOfJoin(NormalizedWords(text));
    var ws := NormalizedWords(text);
    if ws != [] {
      assert CleanWord(ws[0]);
      if |ws| > 1 {
        assert Join(ws) == ws[0] + [' '] + Join(ws[1..]);
      }
    }
  }
}
