/** The string operations both normalisers are built from: ASCII
    `toLowerCase`, `trim`, the punctuation `replace`, the `\s+` collapse,
    `split(' ')`, `join(' ')` and `filter(Boolean)`. Beside them stands a
    reference definition, `Words`, of "the words of a text", and the lemmas
    that tie the pipeline to it. */
module Text {

  // ---------------------------------------------------------------- characters

  /** The whitespace that `trim()` and `\s` remove, restricted to ASCII. */
  predicate IsWhitespace(c: char)
  {
    c == ' ' || c == '\t' || c == '\n' || c == '\r'
  }

  /** The character class `[.,!?;:\-—"()[\]{}]`. */
  predicate IsPunctuation(c: char)
  {
    c == '.' || c == ',' || c == '!' || c == '?' || c == ';' || c == ':' ||
    c == '-' || c == '\U{2014}' || c == '"' || c == '(' || c == ')' ||
    c == '[' || c == ']' || c == '{' || c == '}'
  }

  predicate IsUpper(c: char)
  {
    'A' <= c <= 'Z'
  }

  function LowerChar(c: char): char
  {
    if IsUpper(c) then (c as int + 32) as char else c
  }

  /** No punctuation and no upper-case letter anywhere. */
  predicate Scrubbed(s: string)
  {
    forall i :: 0 <= i < |s| ==> !IsPunctuation(s[i]) && !IsUpper(s[i])
  }

  /** A character that can occur inside a normalised word. */
  predicate CleanChar(c: char)
  {
    !IsWhitespace(c) && !IsPunctuation(c) && !IsUpper(c)
  }

  /** A non-empty word made of clean characters only. */
  predicate CleanWord(w: string)
  {
    |w| > 0 && forall i :: 0 <= i < |w| ==> CleanChar(w[i])
  }

  /** The shape of a normalised text: clean characters and single spaces,
      no space at either end and never two spaces in a row. */
  predicate WellFormed(s: string)
  {
    && (forall i :: 0 <= i < |s| ==> s[i] == ' ' || CleanChar(s[i]))
    && (|s| > 0 ==> s[0] != ' ' && s[|s| - 1] != ' ')
    && (forall i :: 0 <= i < |s| - 1 ==> s[i] != ' ' || s[i + 1] != ' ')
  }

  /** The only whitespace character in `s` is the space. */
  predicate OnlySpaces(s: string)
  {
    forall i :: 0 <= i < |s| ==> IsWhitespace(s[i]) ==> s[i] == ' '
  }

  /** No two whitespace characters of `s` are adjacent. */
  predicate NoAdjacentWhitespace(s: string)
  {
    forall i :: 0 <= i < |s| - 1 ==> !IsWhitespace(s[i]) || !IsWhitespace(s[i + 1])
  }

  // ---------------------------------------------------------------- the pipeline

  /** `toLowerCase()` (ASCII letters only). */
  function ToLower(s: string): string
  {
    seq(|s|, i requires 0 <= i < |s| => LowerChar(s[i]))
  }

  /** `replace(/[.,!?;:\-—"()[\]{}]/g, ' ')`. */
  function ReplacePunctuation(s: string): string
  {
    seq(|s|, i requires 0 <= i < |s| => if IsPunctuation(s[i]) then ' ' else s[i])
  }

  /** Leading whitespace removed. */
  function TrimStart(s: string): (r: string)
    ensures |r| <= |s|
    ensures forall i :: 0 <= i < |s| - |r| ==> IsWhitespace(s[i])
    ensures r != [] ==> !IsWhitespace(r[0])
  {
    if s != [] && IsWhitespace(s[0]) then TrimStart(s[1..]) else s
  }

  /** What `TrimStart` keeps is a suffix of its argument. */
  lemma {:induction false} TrimStartIsSuffix(s: string)
    ensures TrimStart(s) == s[|s| - |TrimStart(s)|..]
    decreases |s|
  {
    if s != [] && IsWhitespace(s[0]) {
      TrimStartIsSuffix(s[1..]);
    }
  }

  /** Trailing whitespace removed. */
  function TrimEnd(s: string): (r: string)
    ensures |r| <= |s| && forall i {:trigger r[i]} :: 0 <= i < |r| ==> r[i] == s[i]
    ensures forall i :: |r| <= i < |s| ==> IsWhitespace(s[i])
    ensures r != [] ==> !IsWhitespace(r[|r| - 1])
  {
    if s != [] && IsWhitespace(s[|s| - 1]) then TrimEnd(s[..|s| - 1]) else s
  }

  /** `trim()`. */
  function Trim(s: string): string
  {
    TrimEnd(TrimStart(s))
  }

  /** `replace(/\s+/g, ' ')`: every maximal run of whitespace becomes one space. */
  function CollapseWhitespace(s: string): (r: string)
    ensures s == [] <==> r == []
    ensures s != [] ==> (IsWhitespace(r[0]) <==> IsWhitespace(s[0]))
    decreases |s|
  {
    if s == [] then []
    else if IsWhitespace(s[0]) then [' '] + CollapseWhitespace(TrimStart(s[1..]))
    else [s[0]] + CollapseWhitespace(s[1..])
  }

  /** `split(' ')`: there is always at least one part, and empty parts appear
      where spaces are adjacent or at an end. */
  function Split(s: string): (r: seq<string>)
    ensures |r| >= 1
    decreases |s|
  {
    if s == [] then [[]]
    else if s[0] == ' ' then [[]] + Split(s[1..])
    else
      var rest := Split(s[1..]);
      [[s[0]] + rest[0]] + rest[1..]
  }

  /** `join(' ')`. */
  function Join(ws: seq<string>): string
  {
    if |ws| == 0 then []
    else if |ws| == 1 then ws[0]
    else ws[0] + [' '] + Join(ws[1..])
  }

  /** `filter(Boolean)` on an array of strings: the empty strings dropped. */
  function NonEmpty(ws: seq<string>): (r: seq<string>)
    ensures forall w :: w in r <==> w in ws && w != []
  {
    if ws == [] then []
    else (if ws[0] == [] then [] else [ws[0]]) + NonEmpty(ws[1..])
  }

  /** The chain of steps that `normalizeText` and `toWords` share, character
      for character: lowercase, trim, punctuation to spaces, collapse
      whitespace, trim, split on single spaces. */
  function Tokens(text: string): seq<string>
  {
    Split(Trim(CollapseWhitespace(ReplacePunctuation(Trim(ToLower(text))))))
  }

  // ---------------------------------------------------------------- reference words

  /** Lowercasing followed by punctuation-to-space, one character at a time. */
  function Fold(s: string): string
  {
    seq(|s|, i requires 0 <= i < |s| => if IsPunctuation(s[i]) then ' ' else LowerChar(s[i]))
  }

  /** Splitting at every whitespace character (not only at spaces). */
  function SplitWhitespace(s: string): (r: seq<string>)
    ensures |r| >= 1
    decreases |s|
  {
    if s == [] then [[]]
    else if IsWhitespace(s[0]) then [[]] + SplitWhitespace(s[1..])
    else
      var rest := SplitWhitespace(s[1..]);
      [[s[0]] + rest[0]] + rest[1..]
  }

  /** The words of a text: its maximal runs of non-whitespace characters. */
  function Words(s: string): seq<string>
  {
    NonEmpty(SplitWhitespace(s))
  }

  // ---------------------------------------------------------------- lemmas

  lemma NonEmptyAppend(a: seq<string>, b: seq<string>)
    ensures NonEmpty(a + b) == NonEmpty(a) + NonEmpty(b)
  {
    if a != [] {
      var h := if a[0] == [] then [] else [a[0]];
      assert (a + b)[0] == a[0];
      assert (a + b)[1..] == a[1..] + b;
      NonEmptyAppend(a[1..], b);
      assert NonEmpty(a + b) == h + NonEmpty(a[1..] + b);
      assert NonEmpty(a) == h + NonEmpty(a[1..]);
    } else {
      assert a + b == b;
    }
  }

  lemma NonEmptyOfNonEmptyWords(ws: seq<string>)
    requires forall w :: w in ws ==> w != []
    ensures NonEmpty(ws) == ws
  {
    if ws != [] {
      assert forall w :: w in ws[1..] ==> w in ws;
      NonEmptyOfNonEmptyWords(ws[1..]);
      assert ws[0] in ws;
      assert NonEmpty(ws) == [ws[0]] + NonEmpty(ws[1..]);
      assert [ws[0]] + ws[1..] == ws;
    }
  }

  lemma NonEmptyConsEmpty(t: seq<string>)
    ensures NonEmpty([[]] + t) == NonEmpty(t)
  {
    assert ([[]] + t)[1..] == t;
  }

  /** The words of a text are its first part's word followed by the rest's. */
  lemma WordsHeadTail(s: string)
    ensures Words(s) == NonEmpty([SplitWhitespace(s)[0]]) + NonEmpty(SplitWhitespace(s)[1..])
  {
    var p := SplitWhitespace(s);
    assert p == [p[0]] + p[1..];
    NonEmptyAppend([p[0]], p[1..]);
  }

  lemma WordsOfWhitespacePrefix(a: string, b: string)
    requires forall i :: 0 <= i < |a| ==> IsWhitespace(a[i])
    ensures Words(a + b) == Words(b)
  {
    if a != [] {
      var t := (a + b)[1..];
      assert t == a[1..] + b;
      assert IsWhitespace((a + b)[0]);
      assert SplitWhitespace(a + b) == [[]] + SplitWhitespace(t);
      NonEmptyConsEmpty(SplitWhitespace(t));
      WordsOfWhitespacePrefix(a[1..], b);
    } else {
      assert a + b == b;
    }
  }

  lemma SplitWhitespaceSnoc(y: string, c: char)
    requires IsWhitespace(c)
    ensures SplitWhitespace(y + [c]) == SplitWhitespace(y) + [[]]
    decreases |y|
  {
    if y == [] {
      assert [c][1..] == [];
      assert y + [c] == [c];
    } else {
      var t := (y + [c])[1..];
      assert t == y[1..] + [c];
      assert (y + [c])[0] == y[0];
      SplitWhitespaceSnoc(y[1..], c);
      var q := SplitWhitespace(y[1..]);
      if IsWhitespace(y[0]) {
        assert SplitWhitespace(y + [c]) == [[]] + (q + [[]]);
      } else {
        var rest := SplitWhitespace(t);
        assert rest == q + [[]];
        assert rest[0] == q[0];
        assert rest[1..] == q[1..] + [[]];
      }
    }
  }

  lemma WordsOfWhitespaceSuffix(a: string, b: string)
    requires forall i :: 0 <= i < |b| ==> IsWhitespace(b[i])
    ensures Words(a + b) == Words(a)
    decreases |b|
  {
    if b != [] {
      var b' := b[..|b| - 1];
      assert a + b == (a + b') + [b[|b| - 1]];
      SplitWhitespaceSnoc(a + b', b[|b| - 1]);
      NonEmptyAppend(SplitWhitespace(a + b'), [[]]);
      assert NonEmpty([[]]) == [];
      WordsOfWhitespaceSuffix(a, b');
    } else {
      assert a + b == a;
    }
  }

  lemma WordsOfTrimStart(s: string)
    ensures Words(TrimStart(s)) == Words(s)
  {
    var r := TrimStart(s);
    TrimStartIsSuffix(s);
    assert s == s[..|s| - |r|] + r;
    WordsOfWhitespacePrefix(s[..|s| - |r|], r);
  }

  lemma WordsOfTrimEnd(s: string)
    ensures Words(TrimEnd(s)) == Words(s)
  {
    var r := TrimEnd(s);
    assert s == r + s[|r|..];
    WordsOfWhitespaceSuffix(r, s[|r|..]);
  }

  /** Trimming never changes the words. */
  lemma WordsOfTrim(s: string)
    ensures Words(Trim(s)) == Words(s)
  {
    WordsOfTrimStart(s);
    WordsOfTrimEnd(TrimStart(s));
  }

  lemma {:induction false} CollapseKeepsParts(s: string)
    ensures SplitWhitespace(CollapseWhitespace(s))[0] == SplitWhitespace(s)[0]
    ensures NonEmpty(SplitWhitespace(CollapseWhitespace(s))[1..]) == NonEmpty(SplitWhitespace(s)[1..])
    decreases |s|
  {
    if s == [] {
    } else if IsWhitespace(s[0]) {
      var t := TrimStart(s[1..]);
      var ct := CollapseWhitespace(t);
      var cs := CollapseWhitespace(s);
      assert cs == [' '] + ct;
      assert cs[1..] == ct;
      assert SplitWhitespace(cs) == [[]] + SplitWhitespace(ct);
      assert SplitWhitespace(s) == [[]] + SplitWhitespace(s[1..]);
      CollapseKeepsParts(t);
      WordsHeadTail(ct);
      WordsHeadTail(t);
      WordsOfTrimStart(s[1..]);
      assert ([[]] + SplitWhitespace(ct))[1..] == SplitWhitespace(ct);
      assert ([[]] + SplitWhitespace(s[1..]))[1..] == SplitWhitespace(s[1..]);
    } else {
      var cs := CollapseWhitespace(s[1..]);
      assert CollapseWhitespace(s) == [s[0]] + cs;
      assert ([s[0]] + cs)[1..] == cs;
      CollapseKeepsParts(s[1..]);
    }
  }

  /** Collapsing whitespace runs never changes the words. */
  lemma WordsOfCollapse(s: string)
    ensures Words(CollapseWhitespace(s)) == Words(s)
  {
    CollapseKeepsParts(s);
    WordsHeadTail(s);
    WordsHeadTail(CollapseWhitespace(s));
  }

  lemma {:induction false} CollapseOnlySpaces(s: string)
    ensures OnlySpaces(CollapseWhitespace(s))
    decreases |s|
  {
    if s != [] {
      var t := if IsWhitespace(s[0]) then TrimStart(s[1..]) else s[1..];
      var r := CollapseWhitespace(t);
      var c := if IsWhitespace(s[0]) then ' ' else s[0];
      assert CollapseWhitespace(s) == [c] + r;
      CollapseOnlySpaces(t);
      forall i | 0 <= i < |[c] + r| && IsWhitespace(([c] + r)[i])
        ensures ([c] + r)[i] == ' '
      {
        if i > 0 {
          assert ([c] + r)[i] == r[i - 1];
        }
      }
    }
  }

  lemma {:induction false} CollapseNoAdjacent(s: string)
    ensures NoAdjacentWhitespace(CollapseWhitespace(s))
    decreases |s|
  {
    if s != [] {
      var t := if IsWhitespace(s[0]) then TrimStart(s[1..]) else s[1..];
      var r := CollapseWhitespace(t);
      var c := if IsWhitespace(s[0]) then ' ' else s[0];
      assert CollapseWhitespace(s) == [c] + r;
      CollapseNoAdjacent(t);
      forall i | 0 <= i < |[c] + r| - 1
        ensures !IsWhitespace(([c] + r)[i]) || !IsWhitespace(([c] + r)[i + 1])
      {
        if i > 0 {
          assert ([c] + r)[i] == r[i - 1] && ([c] + r)[i + 1] == r[i];
        } else if IsWhitespace(s[0]) {
          assert ([c] + r)[1] == r[0];
        }
      }
    }
  }

  lemma ReplaceAfterWhitespace(p: string, m: string)
    requires forall i :: 0 <= i < |p| ==> IsWhitespace(p[i])
    ensures ReplacePunctuation(p + m) == p + ReplacePunctuation(m)
  {
    var s := p + m;
    forall i | 0 <= i < |s|
      ensures ReplacePunctuation(s)[i] == (p + ReplacePunctuation(m))[i]
    {
      if i < |p| {
        assert s[i] == p[i];
      } else {
        assert s[i] == m[i - |p|];
      }
    }
  }

  lemma ReplaceBeforeWhitespace(m: string, q: string)
    requires forall i :: 0 <= i < |q| ==> IsWhitespace(q[i])
    ensures ReplacePunctuation(m + q) == ReplacePunctuation(m) + q
  {
    var s := m + q;
    forall i | 0 <= i < |s|
      ensures ReplacePunctuation(s)[i] == (ReplacePunctuation(m) + q)[i]
    {
      if i < |m| {
        assert s[i] == m[i];
      } else {
        assert s[i] == q[i - |m|];
      }
    }
  }

  lemma WordsOfReplacedTrimStart(s: string)
    ensures Words(ReplacePunctuation(TrimStart(s))) == Words(ReplacePunctuation(s))
  {
    var u := TrimStart(s);
    TrimStartIsSuffix(s);
    var pre := s[..|s| - |u|];
    assert s == pre + u;
    ReplaceAfterWhitespace(pre, u);
    WordsOfWhitespacePrefix(pre, ReplacePunctuation(u));
  }

  lemma WordsOfReplacedTrimEnd(u: string)
    ensures Words(ReplacePunctuation(TrimEnd(u))) == Words(ReplacePunctuation(u))
  {
    var r := TrimEnd(u);
    var suf := u[|r|..];
    assert u == r + suf;
    assert forall i :: 0 <= i < |suf| ==> IsWhitespace(suf[i]) by {
      forall i | 0 <= i < |suf|
        ensures IsWhitespace(suf[i])
      {
        assert suf[i] == u[|r| + i];
      }
    }
    ReplaceBeforeWhitespace(r, suf);
    WordsOfWhitespaceSuffix(ReplacePunctuation(r), suf);
  }

  /** Trimming before the punctuation step does not change the words after it. */
  lemma WordsOfReplacedTrim(s: string)
    ensures Words(ReplacePunctuation(Trim(s))) == Words(ReplacePunctuation(s))
  {
    WordsOfReplacedTrimStart(s);
    WordsOfReplacedTrimEnd(TrimStart(s));
  }

  /** Every slice keeps the shape of the string it is cut from. */
  lemma SliceShape(s: string, lo: nat, hi: nat)
    requires lo <= hi <= |s|
    ensures OnlySpaces(s) ==> OnlySpaces(s[lo..hi])
    ensures NoAdjacentWhitespace(s) ==> NoAdjacentWhitespace(s[lo..hi])
    ensures Scrubbed(s) ==> Scrubbed(s[lo..hi])
  {
    var u := s[lo..hi];
    forall i | 0 <= i < |u|
      ensures u[i] == s[lo + i]
    {
    }
  }

  lemma TrimmedCollapseSpacing(z: string)
    ensures var y := Trim(CollapseWhitespace(z));
      && OnlySpaces(y) && NoAdjacentWhitespace(y)
      && (y != [] ==> y[0] != ' ' && y[|y| - 1] != ' ')
  {
    var x := CollapseWhitespace(z);
    CollapseOnlySpaces(z);
    CollapseNoAdjacent(z);
    TrimStartSpacing(x);
    TrimEndSpacing(TrimStart(x));
  }

  lemma TrimStartSpacing(x: string)
    requires OnlySpaces(x) && NoAdjacentWhitespace(x)
    ensures OnlySpaces(TrimStart(x)) && NoAdjacentWhitespace(TrimStart(x))
  {
    var u := TrimStart(x);
    TrimStartIsSuffix(x);
    assert u == x[|x| - |u|..|x|];
    SliceShape(x, |x| - |u|, |x|);
  }

  /** Trimming the end of a text that starts with no whitespace leaves a text
      that neither starts nor ends with a space. */
  lemma TrimEndSpacing(u: string)
    requires OnlySpaces(u) && NoAdjacentWhitespace(u)
    requires u != [] ==> !IsWhitespace(u[0])
    ensures var y := TrimEnd(u);
      && OnlySpaces(y) && NoAdjacentWhitespace(y)
      && (y != [] ==> y[0] != ' ' && y[|y| - 1] != ' ')
  {
    var y := TrimEnd(u);
    assert y == u[0..|y|];
    SliceShape(u, 0, |y|);
    if y != [] {
      assert y[0] == u[0];
    }
  }

  /** On a text whose only whitespace is the space, `split(' ')` splits at
      exactly the places where `SplitWhitespace` does. */
  lemma SplitAgrees(s: string)
    requires OnlySpaces(s)
    ensures Split(s) == SplitWhitespace(s)
  {
    if s != [] {
      assert s[1..] == s[1..|s|];
      SliceShape(s, 1, |s|);
      SplitAgrees(s[1..]);
    }
  }

  /** In a text with no space at either end and no two spaces in a row,
      every part `split(' ')` yields is non-empty. */
  lemma SplitPartsNonEmpty(y: string)
    requires y != [] && y[0] != ' ' && y[|y| - 1] != ' '
    requires forall i :: 0 <= i < |y| - 1 ==> y[i] != ' ' || y[i + 1] != ' '
    ensures forall w :: w in Split(y) ==> w != []
    decreases |y|
  {
    var t := y[1..];
    var rest := Split(t);
    assert Split(y) == [[y[0]] + rest[0]] + rest[1..];
    if t == [] {
    } else if t[0] == ' ' {
      assert t[1..] == y[2..];
      SplitPartsNonEmpty(y[2..]);
      assert rest == [[]] + Split(y[2..]);
      assert rest[1..] == Split(y[2..]);
    } else {
      SplitPartsNonEmpty(t);
      assert forall w :: w in rest[1..] ==> w in rest;
    }
  }

  /** `Tokens` gives exactly the words of the folded text, or the single
      empty token `""` when there are none. */
  lemma TokensAreWords(text: string)
    ensures Tokens(text) == if Words(Fold(text)) == [] then [[]] else Words(Fold(text))
  {
    var lower := ToLower(text);
    var spaced := ReplacePunctuation(Trim(lower));
    var collapsed := CollapseWhitespace(spaced);
    var y := Trim(collapsed);
    assert Fold(text) == ReplacePunctuation(lower);
    WordsOfReplacedTrim(lower);
    WordsOfCollapse(spaced);
    WordsOfTrim(collapsed);
    assert Words(y) == Words(Fold(text));
    TrimmedCollapseSpacing(spaced);
    SplitOfSpaced(y);
  }

  /** On a text spaced the way the collapse and the trim leave it, `split(' ')`
      gives its words, or the single empty part when there are none. */
  lemma SplitOfSpaced(y: string)
    requires OnlySpaces(y) && NoAdjacentWhitespace(y)
    requires y != [] ==> y[0] != ' ' && y[|y| - 1] != ' '
    ensures Split(y) == if Words(y) == [] then [[]] else Words(y)
  {
    SplitAgrees(y);
    if y == [] {
      assert SplitWhitespace(y) == [[]];
    } else {
      forall i | 0 <= i < |y| - 1
        ensures y[i] != ' ' || y[i + 1] != ' '
      {
        assert !IsWhitespace(y[i]) || !IsWhitespace(y[i + 1]);
      }
      SplitPartsNonEmpty(y);
      NonEmptyOfNonEmptyWords(Split(y));
    }
  }

  /** The parts of a scrubbed text, split at whitespace, have only clean
      characters. */
  lemma {:induction false} SplitWhitespaceClean(s: string)
    requires Scrubbed(s)
    ensures forall w :: w in SplitWhitespace(s) ==> forall i :: 0 <= i < |w| ==> CleanChar(w[i])
    decreases |s|
  {
    if s != [] {
      assert Scrubbed(s[1..]);
      SplitWhitespaceClean(s[1..]);
      var rest := SplitWhitespace(s[1..]);
      if !IsWhitespace(s[0]) {
        var h := [s[0]] + rest[0];
        assert forall i :: 0 <= i < |h| ==> CleanChar(h[i]) by {
          assert rest[0] in rest;
          forall i | 0 <= i < |h|
            ensures CleanChar(h[i])
          {
            if i > 0 { assert h[i] == rest[0][i - 1]; }
          }
        }
        assert forall w :: w in rest[1..] ==> w in rest;
      }
    }
  }

  /** Every word of a folded text is clean. */
  lemma WordsOfFoldAreClean(text: string)
    ensures forall w :: w in Words(Fold(text)) ==> CleanWord(w)
  {
    var f := Fold(text);
    assert Scrubbed(f);
    SplitWhitespaceClean(f);
  }

  /** The parts of a clean word, and of a clean word followed by a space. */
  lemma SplitWhitespaceOfWord(w: string, t: string)
    requires forall i :: 0 <= i < |w| ==> !IsWhitespace(w[i])
    ensures SplitWhitespace(w) == [w]
    ensures SplitWhitespace(w + [' '] + t) == [w] + SplitWhitespace(t)
  {
    if w != [] {
      var u := w + [' '] + t;
      assert u[0] == w[0];
      assert u[1..] == w[1..] + [' '] + t;
      SplitWhitespaceOfWord(w[1..], t);
      assert [w[0]] + w[1..] == w;
    } else {
      var u := w + [' '] + t;
      assert u == [' '] + t;
      assert u[1..] == t;
    }
  }

  lemma SplitWhitespaceOfJoin(ws: seq<string>)
    requires ws != []
    requires forall w :: w in ws ==> CleanWord(w)
    ensures SplitWhitespace(Join(ws)) == ws
  {
    assert CleanWord(ws[0]);
    SplitWhitespaceOfWord(ws[0], []);
    if |ws| > 1 {
      assert forall w :: w in ws[1..] ==> w in ws;
      SplitWhitespaceOfJoin(ws[1..]);
      SplitWhitespaceOfWord(ws[0], Join(ws[1..]));
      assert [ws[0]] + ws[1..] == ws;
    }
  }

  /** Joining clean words and reading the words back gives the same words. */
  lemma WordsOfJoin(ws: seq<string>)
    requires forall w :: w in ws ==> CleanWord(w)
    ensures Words(Join(ws)) == ws
  {
    if ws != [] {
      SplitWhitespaceOfJoin(ws);
      NonEmptyOfNonEmptyWords(ws);
    } else {
      assert Join(ws) == [];
    }
  }

  /** Clean words joined by single spaces form a well-formed text. */
  lemma JoinWellFormed(ws: seq<string>)
    requires forall w :: w in ws ==> CleanWord(w)
    ensures WellFormed(Join(ws))
  {
    if |ws| == 1 {
      assert CleanWord(ws[0]);
    } else if |ws| > 1 {
      assert forall w :: w in ws[1..] ==> w in ws;
      JoinWellFormed(ws[1..]);
      var w, t := ws[0], Join(ws[1..]);
      assert CleanWord(w);
      var s := w + [' '] + t;
      assert Join(ws) == s;
      assert t != [] by { assert CleanWord(ws[1]); }
      assert forall i :: 0 <= i < |s| ==> s[i] == ' ' || CleanChar(s[i]) by {
        forall i | 0 <= i < |s|
          ensures s[i] == ' ' || CleanChar(s[i])
        {
          if i < |w| { assert s[i] == w[i]; }
          else if i > |w| { assert s[i] == t[i - |w| - 1]; }
        }
      }
      assert forall i :: 0 <= i < |s| - 1 ==> s[i] != ' ' || s[i + 1] != ' ' by {
        forall i | 0 <= i < |s| - 1
          ensures s[i] != ' ' || s[i + 1] != ' '
        {
          if i < |w| { assert s[i] == w[i]; }
          else if i == |w| { assert s[i + 1] == t[0]; }
          else { assert s[i] == t[i - |w| - 1] && s[i + 1] == t[i - |w|]; }
        }
      }
      assert s[|s| - 1] == t[|t| - 1];
    }
  }

  /** A well-formed text reads the same after `Fold`, `ToLower` and `Trim`. */
  lemma WellFormedIsFixed(s: string)
    requires WellFormed(s)
    ensures Fold(s) == s && ToLower(s) == s && Trim(s) == s
  {
    assert forall i :: 0 <= i < |s| ==> Fold(s)[i] == s[i];
    assert forall i :: 0 <= i < |s| ==> ToLower(s)[i] == s[i];
  }

  /** A clean word is its own lower case. */
  lemma CleanWordIsLower(w: string)
    requires CleanWord(w)
    ensures ToLower(w) == w
  {
    assert forall i :: 0 <= i < |w| ==> ToLower(w)[i] == w[i];
  }

  /** On a text made of clean words, `split(' ')` undoes `join(' ')`. */
  lemma SplitOfJoin(ws: seq<string>)
    requires ws != []
    requires forall w :: w in ws ==> CleanWord(w)
    ensures Split(Join(ws)) == ws
  {
    JoinWellFormed(ws);
    SplitAgrees(Join(ws));
    SplitWhitespaceOfJoin(ws);
  }

  /** `split(' ').filter(Boolean)` of joined clean words gives them back, in
      particular for no words at all. */
  lemma NonEmptySplitOfJoin(ws: seq<string>)
    requires forall w :: w in ws ==> CleanWord(w)
    ensures NonEmpty(Split(Join(ws))) == ws
  {
    JoinWellFormed(ws);
    SplitAgrees(Join(ws));
    WordsOfJoin(ws);
  }
}
