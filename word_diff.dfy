/** The word-level diff the recorder shows after an attempt: a longest
    common subsequence table over the spoken and master words, then a walk
    from the front that marks each word as matched, missed (a master word
    not spoken) or extra (a spoken word not in the master). */
module WordDiff {
  import opened Numeric
  import opened Text

  datatype Status = Match | Miss | Extra

  datatype DiffToken = DiffToken(word: string, status: Status)

  // ---------------------------------------------------------------- specification

  /** The length of a longest common subsequence of `sw[i..]` and `mw[j..]`,
      by the recurrence the table is filled with. */
  function Lcs(sw: seq<string>, mw: seq<string>, i: nat, j: nat): nat
    requires i <= |sw| && j <= |mw|
    decreases |sw| - i + |mw| - j
  {
    if i == |sw| || j == |mw| then 0
    else if sw[i] == mw[j] then 1 + Lcs(sw, mw, i + 1, j + 1)
    else Max(Lcs(sw, mw, i + 1, j), Lcs(sw, mw, i, j + 1))
  }

  /** The tokens the traceback emits from position `(i, j)`: a match when
      both words agree, otherwise a miss when the master side keeps at
      least as long a common subsequence, otherwise an extra. */
  function Trace(sw: seq<string>, mw: seq<string>, i: nat, j: nat): seq<DiffToken>
    requires i <= |sw| && j <= |mw|
    decreases |sw| - i + |mw| - j
  {
    if i == |sw| && j == |mw| then []
    else if i < |sw| && j < |mw| && sw[i] == mw[j] then
      [DiffToken(mw[j], Match)] + Trace(sw, mw, i + 1, j + 1)
    else if j < |mw| && (i >= |sw| || Lcs(sw, mw, i, j + 1) >= Lcs(sw, mw, i + 1, j)) then
      [DiffToken(mw[j], Miss)] + Trace(sw, mw, i, j + 1)
    else
      [DiffToken(sw[i], Extra)] + Trace(sw, mw, i + 1, j)
  }

  /** The words of the tokens that stand for master words: matches and misses. */
  function MasterSide(t: seq<DiffToken>): seq<string>
  {
    if t == [] then []
    else (if t[0].status == Extra then [] else [t[0].word]) + MasterSide(t[1..])
  }

  /** The words of the tokens that stand for spoken words: matches and extras. */
  function SpokenSide(t: seq<DiffToken>): seq<string>
  {
    if t == [] then []
    else (if t[0].status == Miss then [] else [t[0].word]) + SpokenSide(t[1..])
  }

  /** The words of the matched tokens. */
  function Matched(t: seq<DiffToken>): seq<string>
  {
    if t == [] then []
    else (if t[0].status == Match then [t[0].word] else []) + Matched(t[1..])
  }

  /** `c` is a subsequence of `s`: its words occur in `s` in order. */
  predicate IsSubsequence(c: seq<string>, s: seq<string>)
  {
    c == [] || (s != [] && ((c[0] == s[0] && IsSubsequence(c[1..], s[1..])) || IsSubsequence(c, s[1..])))
  }

  // ---------------------------------------------------------------- the traceback

  /** Read back, the master-side tokens spell the master words from `j` on. */
  lemma {:induction false} TraceMasterSide(sw: seq<string>, mw: seq<string>, i: nat, j: nat)
    requires i <= |sw| && j <= |mw|
    ensures MasterSide(Trace(sw, mw, i, j)) == mw[j..]
    decreases |sw| - i + |mw| - j
  {
    var t := Trace(sw, mw, i, j);
    if i == |sw| && j == |mw| {
    } else if i < |sw| && j < |mw| && sw[i] == mw[j] {
      TraceMasterSide(sw, mw, i + 1, j + 1);
      assert t[1..] == Trace(sw, mw, i + 1, j + 1);
      assert mw[j..] == [mw[j]] + mw[j + 1..];
    } else if j < |mw| && (i >= |sw| || Lcs(sw, mw, i, j + 1) >= Lcs(sw, mw, i + 1, j)) {
      TraceMasterSide(sw, mw, i, j + 1);
      assert t[1..] == Trace(sw, mw, i, j + 1);
      assert mw[j..] == [mw[j]] + mw[j + 1..];
    } else {
      TraceMasterSide(sw, mw, i + 1, j);
      assert t[1..] == Trace(sw, mw, i + 1, j);
    }
  }

  /** Read back, the spoken-side tokens spell the spoken words from `i` on. */
  lemma {:induction false} TraceSpokenSide(sw: seq<string>, mw: seq<string>, i: nat, j: nat)
    requires i <= |sw| && j <= |mw|
    ensures SpokenSide(Trace(sw, mw, i, j)) == sw[i..]
    decreases |sw| - i + |mw| - j
  {
    var t := Trace(sw, mw, i, j);
    if i == |sw| && j == |mw| {
    } else if i < |sw| && j < |mw| && sw[i] == mw[j] {
      TraceSpokenSide(sw, mw, i + 1, j + 1);
      assert t[1..] == Trace(sw, mw, i + 1, j + 1);
      assert sw[i..] == [sw[i]] + sw[i + 1..];
    } else if j < |mw| && (i >= |sw| || Lcs(sw, mw, i, j + 1) >= Lcs(sw, mw, i + 1, j)) {
      TraceSpokenSide(sw, mw, i, j + 1);
      assert t[1..] == Trace(sw, mw, i, j + 1);
    } else {
      TraceSpokenSide(sw, mw, i + 1, j);
      assert t[1..] == Trace(sw, mw, i + 1, j);
      assert sw[i..] == [sw[i]] + sw[i + 1..];
    }
  }

  /** The traceback follows an optimal path: it matches exactly as many
      words as a longest common subsequence has. */
  lemma {:induction false} TraceMatchCount(sw: seq<string>, mw: seq<string>, i: nat, j: nat)
    requires i <= |sw| && j <= |mw|
    ensures |Matched(Trace(sw, mw, i, j))| == Lcs(sw, mw, i, j)
    decreases |sw| - i + |mw| - j
  {
    var t := Trace(sw, mw, i, j);
    if i == |sw| && j == |mw| {
    } else if i < |sw| && j < |mw| && sw[i] == mw[j] {
      TraceMatchCount(sw, mw, i + 1, j + 1);
      assert t[1..] == Trace(sw, mw, i + 1, j + 1);
    } else if j < |mw| && (i >= |sw| || Lcs(sw, mw, i, j + 1) >= Lcs(sw, mw, i + 1, j)) {
      TraceMatchCount(sw, mw, i, j + 1);
      assert t[1..] == Trace(sw, mw, i, j + 1);
    } else {
      TraceMatchCount(sw, mw, i + 1, j);
      assert t[1..] == Trace(sw, mw, i + 1, j);
    }
  }

  /** Every token is a match, a miss or an extra, so a token sequence is as
      long as its master side and its spoken side together, less the
      matches they share. */
  lemma {:induction false} TokenCount(t: seq<DiffToken>)
    ensures |t| + |Matched(t)| == |MasterSide(t)| + |SpokenSide(t)|
  {
    if t != [] {
      TokenCount(t[1..]);
    }
  }

  /** The matched words occur in order on both sides. */
  lemma {:induction false} MatchedOnBothSides(t: seq<DiffToken>)
    ensures IsSubsequence(Matched(t), MasterSide(t))
    ensures IsSubsequence(Matched(t), SpokenSide(t))
  {
    if t != [] {
      MatchedOnBothSides(t[1..]);
      var c, m, s := Matched(t), MasterSide(t), SpokenSide(t);
      if t[0].status == Match {
        assert c == [t[0].word] + Matched(t[1..]);
        assert m == [t[0].word] + MasterSide(t[1..]);
        assert s == [t[0].word] + SpokenSide(t[1..]);
        assert c[1..] == Matched(t[1..]);
        assert m[1..] == MasterSide(t[1..]);
        assert s[1..] == SpokenSide(t[1..]);
      } else if t[0].status == Miss {
        assert c == Matched(t[1..]) && s == SpokenSide(t[1..]);
        assert m == [t[0].word] + MasterSide(t[1..]);
        assert m[1..] == MasterSide(t[1..]);
        SkipHead(c, m);
      } else {
        assert c == Matched(t[1..]) && m == MasterSide(t[1..]);
        assert s == [t[0].word] + SpokenSide(t[1..]);
        assert s[1..] == SpokenSide(t[1..]);
        SkipHead(c, s);
      }
    }
  }

  lemma SkipHead(c: seq<string>, s: seq<string>)
    requires s != [] && IsSubsequence(c, s[1..])
    ensures IsSubsequence(c, s)
  {
  }

  /** A subsequence stays one when its first word is dropped. */
  lemma {:induction false} SubsequenceTail(c: seq<string>, s: seq<string>)
    requires c != [] && IsSubsequence(c, s)
    ensures IsSubsequence(c[1..], s)
    decreases |s|
  {
    if !(c[0] == s[0] && IsSubsequence(c[1..], s[1..])) {
      SubsequenceTail(c, s[1..]);
    }
  }

  /** When the first words agree, the rest is a subsequence of the rest. */
  lemma HeadTail(c: seq<string>, s: seq<string>)
    requires c != [] && s != [] && c[0] == s[0] && IsSubsequence(c, s)
    ensures IsSubsequence(c[1..], s[1..])
  {
    if !IsSubsequence(c[1..], s[1..]) {
      SubsequenceTail(c, s[1..]);
    }
  }

  /** No common subsequence of `sw[i..]` and `mw[j..]` is longer than `Lcs`. */
  lemma {:induction false} LcsIsLongest(sw: seq<string>, mw: seq<string>, i: nat, j: nat, c: seq<string>)
    requires i <= |sw| && j <= |mw|
    requires IsSubsequence(c, sw[i..]) && IsSubsequence(c, mw[j..])
    ensures |c| <= Lcs(sw, mw, i, j)
    decreases |sw| - i + |mw| - j
  {
    if c != [] {
      var s, m := sw[i..], mw[j..];
      assert s[1..] == sw[i + 1..];
      assert m[1..] == mw[j + 1..];
      if c[0] == sw[i] && c[0] == mw[j] {
        HeadTail(c, s);
        HeadTail(c, m);
        LcsIsLongest(sw, mw, i + 1, j + 1, c[1..]);
      } else if sw[i] == mw[j] {
        LcsIsLongest(sw, mw, i + 1, j + 1, c);
      } else if c[0] != sw[i] {
        LcsIsLongest(sw, mw, i + 1, j, c);
      } else {
        LcsIsLongest(sw, mw, i, j + 1, c);
      }
    }
  }

  /** What the diff promises: reading the master-side tokens gives the
      master words, reading the spoken-side tokens gives the spoken words,
      the matched words are a common subsequence of the two and none is
      longer, and the diff has one token per master word plus one per
      spoken word, less one per match. */
  lemma DiffFacts(sw: seq<string>, mw: seq<string>)
    ensures var t := Trace(sw, mw, 0, 0);
      && MasterSide(t) == mw
      && SpokenSide(t) == sw
      && IsSubsequence(Matched(t), sw) && IsSubsequence(Matched(t), mw)
      && (forall c :: IsSubsequence(c, sw) && IsSubsequence(c, mw) ==> |c| <= |Matched(t)|)
      && |t| == |sw| + |mw| - |Matched(t)|
  {
    var t := Trace(sw, mw, 0, 0);
    TraceMasterSide(sw, mw, 0, 0);
    TraceSpokenSide(sw, mw, 0, 0);
    TraceMatchCount(sw, mw, 0, 0);
    MatchedOnBothSides(t);
    TokenCount(t);
    assert sw[0..] == sw && mw[0..] == mw;
    forall c | IsSubsequence(c, sw) && IsSubsequence(c, mw)
      ensures |c| <= |Matched(t)|
    {
      LcsIsLongest(sw, mw, 0, 0, c);
    }
  }

  /** Identical word lists diff to matches only, one per word. */
  lemma {:induction false} TraceOfSame(ws: seq<string>, i: nat)
    requires i <= |ws|
    ensures forall tok :: tok in Trace(ws, ws, i, i) ==> tok.status == Match
    ensures Matched(Trace(ws, ws, i, i)) == ws[i..]
    decreases |ws| - i
  {
    if i < |ws| {
      TraceOfSame(ws, i + 1);
      var r := Trace(ws, ws, i + 1, i + 1);
      assert Trace(ws, ws, i, i) == [DiffToken(ws[i], Match)] + r;
      assert ws[i..] == [ws[i]] + ws[i + 1..];
    }
  }

  /** Nothing spoken: every master word is missed. */
  lemma {:induction false} TraceOfSilence(mw: seq<string>, j: nat)
    requires j <= |mw|
    ensures forall tok :: tok in Trace([], mw, 0, j) ==> tok.status == Miss
    decreases |mw| - j
  {
    if j < |mw| {
      TraceOfSilence(mw, j + 1);
      assert Trace([], mw, 0, j) == [DiffToken(mw[j], Miss)] + Trace([], mw, 0, j + 1);
    }
  }

  /** No master words: every spoken word is extra. */
  lemma {:induction false} TraceWithoutMaster(sw: seq<string>, i: nat)
    requires i <= |sw|
    ensures forall tok :: tok in Trace(sw, [], i, 0) ==> tok.status == Extra
    decreases |sw| - i
  {
    if i < |sw| {
      TraceWithoutMaster(sw, i + 1);
      assert Trace(sw, [], i, 0) == [DiffToken(sw[i], Extra)] + Trace(sw, [], i + 1, 0);
    }
  }

  // ---------------------------------------------------------------- diffWords

  /** The words of a normalised text: split on single spaces, empty pieces
      dropped. */
  function WordsOf(norm: string): seq<string>
  {
    NonEmpty(Split(norm))
  }

  /** `diffWords`: splits both texts, fills the table, walks it back. */
  method DiffWords(spokenNorm: string, masterNorm: string) returns (result: seq<DiffToken>)
    ensures result == Trace(WordsOf(spokenNorm), WordsOf(masterNorm), 0, 0)
    ensures MasterSide(result) == WordsOf(masterNorm)
    ensures SpokenSide(result) == WordsOf(spokenNorm)
    ensures |Matched(result)| == Lcs(WordsOf(spokenNorm), WordsOf(masterNorm), 0, 0)
  {
    var sw := WordsOf(spokenNorm);
    var mw := WordsOf(masterNorm);
    var dp := LcsTable(sw, mw);
    result := Traceback(sw, mw, dp);
    DiffFacts(sw, mw);
    TraceMatchCount(sw, mw, 0, 0);
  }

  /** Cell `(a, b)` of the table holds `Lcs(sw, mw, a, b)` for every row
      from `i` on. */
  ghost predicate RowsFrom(dp: array2<nat>, sw: seq<string>, mw: seq<string>, i: nat)
    reads dp
    requires dp.Length0 == |sw| + 1 && dp.Length1 == |mw| + 1
  {
    forall a, b :: i <= a <= |sw| && 0 <= b <= |mw| ==> dp[a, b] == Lcs(sw, mw, a, b)
  }

  /** The table of `diffWords`, filled from the last row and column back. */
  method LcsTable(sw: seq<string>, mw: seq<string>) returns (dp: array2<nat>)
    ensures fresh(dp)
    ensures dp.Length0 == |sw| + 1 && dp.Length1 == |mw| + 1
    ensures RowsFrom(dp, sw, mw, 0)
  {
    var m, n := |sw|, |mw|;
    dp := new nat[m + 1, n + 1]((_, _) => 0);
    for i := m downto 0
      invariant RowsFrom(dp, sw, mw, i)
      invariant forall a :: 0 <= a < i ==> dp[a, n] == 0
    {
      FillRow(dp, sw, mw, i);
    }
  }

  /** The inner loop: row `i` from the last column back. */
  method FillRow(dp: array2<nat>, sw: seq<string>, mw: seq<string>, i: nat)
    requires i < |sw| && dp.Length0 == |sw| + 1 && dp.Length1 == |mw| + 1
    requires RowsFrom(dp, sw, mw, i + 1)
    requires forall a :: 0 <= a <= i ==> dp[a, |mw|] == 0
    modifies dp
    ensures RowsFrom(dp, sw, mw, i)
    ensures forall a :: 0 <= a < i ==> dp[a, |mw|] == 0
  {
    var n := |mw|;
    for j := n downto 0
      invariant forall b :: j <= b <= n ==> dp[i, b] == Lcs(sw, mw, i, b)
      invariant RowsFrom(dp, sw, mw, i + 1)
      invariant forall a :: 0 <= a < i ==> dp[a, n] == 0
    {
      dp[i, j] := if sw[i] == mw[j] then 1 + dp[i + 1, j + 1] else Max(dp[i + 1, j], dp[i, j + 1]);
    }
  }

  /** One step of the traceback, read off the table. */
  lemma TraceStep(sw: seq<string>, mw: seq<string>, dp: array2<nat>, i: nat, j: nat)
    requires dp.Length0 == |sw| + 1 && dp.Length1 == |mw| + 1
    requires RowsFrom(dp, sw, mw, 0)
    requires i <= |sw| && j <= |mw| && (i < |sw| || j < |mw|)
    ensures var m, n := |sw|, |mw|;
      if i < m && j < n && sw[i] == mw[j] then
        Trace(sw, mw, i, j) == [DiffToken(mw[j], Match)] + Trace(sw, mw, i + 1, j + 1)
      else if j < n && (i >= m || dp[i, j + 1] >= dp[i + 1, j]) then
        Trace(sw, mw, i, j) == [DiffToken(mw[j], Miss)] + Trace(sw, mw, i, j + 1)
      else
        i < m && Trace(sw, mw, i, j) == [DiffToken(sw[i], Extra)] + Trace(sw, mw, i + 1, j)
  {
    if j < |mw| && i < |sw| {
      assert dp[i, j + 1] == Lcs(sw, mw, i, j + 1);
      assert dp[i + 1, j] == Lcs(sw, mw, i + 1, j);
    }
  }

  lemma Regroup(a: seq<DiffToken>, x: DiffToken, b: seq<DiffToken>)
    ensures (a + [x]) + b == a + ([x] + b)
  {
  }

  /** The traceback from `(0, 0)` to `(|sw|, |mw|)`. */
  method Traceback(sw: seq<string>, mw: seq<string>, dp: array2<nat>) returns (result: seq<DiffToken>)
    requires dp.Length0 == |sw| + 1 && dp.Length1 == |mw| + 1
    requires RowsFrom(dp, sw, mw, 0)
    ensures result == Trace(sw, mw, 0, 0)
  {
    var m, n := |sw|, |mw|;
    result := [];
    var i, j := 0, 0;
    while i < m || j < n
      invariant i <= m && j <= n
      invariant result + Trace(sw, mw, i, j) == Trace(sw, mw, 0, 0)
      decreases m - i + n - j
    {
      TraceStep(sw, mw, dp, i, j);
      ghost var before := result;
      if i < m && j < n && sw[i] == mw[j] {
        result := result + [DiffToken(mw[j], Match)];
        i, j := i + 1, j + 1;
      } else if j < n && (i >= m || dp[i, j + 1] >= dp[i + 1, j]) {
        result := result + [DiffToken(mw[j], Miss)];
        j := j + 1;
      } else {
        result := result + [DiffToken(sw[i], Extra)];
        i := i + 1;
      }
      Regroup(before, result[|result| - 1], Trace(sw, mw, i, j));
    }
  }
}
