/** Character-level Levenshtein distance: a recursive definition, the
    dynamic-programming table of `levenshteinDistance` proved to compute it,
    and edit scripts showing that the definition is the least number of
    insertions, deletions and substitutions that turn one string into the
    other. */
module Levenshtein {

  import opened Numeric

  /** 0 when the two characters agree, 1 otherwise (`indicator` in the table). */
  function Indicator(x: char, y: char): nat
  {
    if x == y then 0 else 1
  }

  /** The edit distance between the prefixes `a[..i]` and `b[..j]`, taken
      apart at their last characters. */
  function Distance(a: string, b: string, i: nat, j: nat): nat
    requires i <= |a| && j <= |b|
    decreases i + j
  {
    if i == 0 then j
    else if j == 0 then i
    else Min(Min(Distance(a, b, i - 1, j) + 1, Distance(a, b, i, j - 1) + 1),
             Distance(a, b, i - 1, j - 1) + Indicator(a[i - 1], b[j - 1]))
  }

  /** The edit distance between two whole strings. */
  function EditDistance(a: string, b: string): nat
  {
    Distance(a, b, |a|, |b|)
  }

  // ---------------------------------------------------------------- the table

  /** `levenshteinDistance(str1, str2)`: the table `track` has a row per prefix
      of `str2` and a column per prefix of `str1`; cell `[j, i]` ends up holding
      the distance between `str1[..i]` and `str2[..j]`. */
  method LevenshteinDistance(str1: string, str2: string) returns (d: nat)
    ensures d == EditDistance(str1, str2)
  {
    var n1, n2 := |str1|, |str2|;
    var track := new nat[n2 + 1, n1 + 1]((_, _) => 0);

    for i := 0 to n1 + 1
      invariant forall ii :: 0 <= ii < i ==> track[0, ii] == ii
    {
      track[0, i] := i;
    }

    for j := 0 to n2 + 1
      invariant forall ii :: 0 <= ii <= n1 ==> track[0, ii] == ii
      invariant forall jj :: 0 <= jj < j ==> track[jj, 0] == jj
    {
      track[j, 0] := j;
    }

    for j := 1 to n2 + 1
      invariant forall jj, ii {:trigger track[jj, ii]} :: 0 <= jj < j && 0 <= ii <= n1 ==>
                  track[jj, ii] == Distance(str1, str2, ii, jj)
      invariant forall jj :: j <= jj <= n2 ==> track[jj, 0] == jj
    {
      FillRow(track, str1, str2, j);
    }

    d := track[n2, n1];
  }

  /** The inner loop of the table: row `j` from the rows above it, left to right. */
  method FillRow(track: array2<nat>, str1: string, str2: string, j: nat)
    requires track.Length0 == |str2| + 1 && track.Length1 == |str1| + 1
    requires 1 <= j <= |str2|
    requires forall jj, ii {:trigger track[jj, ii]} :: 0 <= jj < j && 0 <= ii <= |str1| ==> track[jj, ii] == Distance(str1, str2, ii, jj)
    requires track[j, 0] == j
    modifies track
    ensures forall jj, ii {:trigger track[jj, ii]} :: 0 <= jj <= j && 0 <= ii <= |str1| ==> track[jj, ii] == Distance(str1, str2, ii, jj)
    ensures forall jj :: j < jj <= |str2| ==> track[jj, 0] == old(track[jj, 0])
  {
    for i := 1 to |str1| + 1
      invariant forall jj, ii {:trigger track[jj, ii]} :: 0 <= jj < j && 0 <= ii <= |str1| ==> track[jj, ii] == Distance(str1, str2, ii, jj)
      invariant forall ii {:trigger track[j, ii]} :: 0 <= ii < i ==> track[j, ii] == Distance(str1, str2, ii, j)
      invariant forall jj :: j < jj <= |str2| ==> track[jj, 0] == old(track[jj, 0])
    {
      var indicator := Indicator(str1[i - 1], str2[j - 1]);
      DistanceStep(str1, str2, i, j);
      track[j, i] := Min(Min(track[j, i - 1] + 1, track[j - 1, i] + 1),
                         track[j - 1, i - 1] + indicator);
    }
  }

  /** One unfolding of `Distance` away from the borders of the table. */
  lemma DistanceStep(a: string, b: string, i: nat, j: nat)
    requires 0 < i <= |a| && 0 < j <= |b|
    ensures Distance(a, b, i, j) ==
              Min(Min(Distance(a, b, i - 1, j) + 1, Distance(a, b, i, j - 1) + 1),
                  Distance(a, b, i - 1, j - 1) + Indicator(a[i - 1], b[j - 1]))
  {
  }

  // ---------------------------------------------------------------- prefixes

  /** The distance between two prefixes depends on those prefixes only. */
  lemma {:induction false} DistanceOfPrefixes(a: string, b: string, a2: string, b2: string, i: nat, j: nat)
    requires i <= |a| && i <= |a2| && j <= |b| && j <= |b2|
    requires a[..i] == a2[..i] && b[..j] == b2[..j]
    ensures Distance(a, b, i, j) == Distance(a2, b2, i, j)
    decreases i + j
  {
    if i > 0 && j > 0 {
      assert a[..i - 1] == a[..i][..i - 1] && a2[..i - 1] == a2[..i][..i - 1];
      assert b[..j - 1] == b[..j][..j - 1] && b2[..j - 1] == b2[..j][..j - 1];
      assert a[i - 1] == a[..i][i - 1] && a2[i - 1] == a2[..i][i - 1];
      assert b[j - 1] == b[..j][j - 1] && b2[j - 1] == b2[..j][j - 1];
      DistanceOfPrefixes(a, b, a2, b2, i - 1, j);
      DistanceOfPrefixes(a, b, a2, b2, i, j - 1);
      DistanceOfPrefixes(a, b, a2, b2, i - 1, j - 1);
    }
  }

  /** The distance between two prefixes is the edit distance of the prefixes. */
  lemma DistanceIsEditDistance(a: string, b: string, i: nat, j: nat)
    requires i <= |a| && j <= |b|
    ensures Distance(a, b, i, j) == EditDistance(a[..i], b[..j])
  {
    var a2, b2 := a[..i], b[..j];
    assert a2[..i] == a[..i] && b2[..j] == b[..j];
    DistanceOfPrefixes(a, b, a2, b2, i, j);
  }

  // ---------------------------------------------------------------- metric facts

  /** The distance is at least the difference of the lengths. */
  lemma {:induction false} DistanceLowerBound(a: string, b: string, i: nat, j: nat)
    requires i <= |a| && j <= |b|
    ensures i - j <= Distance(a, b, i, j) && j - i <= Distance(a, b, i, j)
    decreases i + j
  {
    if i > 0 && j > 0 {
      DistanceLowerBound(a, b, i - 1, j);
      DistanceLowerBound(a, b, i, j - 1);
      DistanceLowerBound(a, b, i - 1, j - 1);
    }
  }

  /** The distance is at most the longer length: substitute along the
      shorter prefix, then insert or delete the rest. */
  lemma {:induction false} DistanceUpperBound(a: string, b: string, i: nat, j: nat)
    requires i <= |a| && j <= |b|
    ensures Distance(a, b, i, j) <= Max(i, j)
    decreases i + j
  {
    if i > 0 && j > 0 {
      DistanceUpperBound(a, b, i - 1, j - 1);
      SubstituteStep(a, b, i, j);
    }
  }

  lemma EditDistanceBounds(a: string, b: string)
    ensures |a| - |b| <= EditDistance(a, b) && |b| - |a| <= EditDistance(a, b)
    ensures EditDistance(a, b) <= Max(|a|, |b|)
  {
    DistanceLowerBound(a, b, |a|, |b|);
    DistanceUpperBound(a, b, |a|, |b|);
  }

  /** The distance between two prefixes is 0 exactly when they are equal. */
  lemma {:induction false} DistanceZeroIff(a: string, b: string, i: nat, j: nat)
    requires i <= |a| && j <= |b|
    ensures Distance(a, b, i, j) == 0 <==> a[..i] == b[..j]
    decreases i + j
  {
    if i > 0 && j > 0 {
      DistanceZeroIff(a, b, i - 1, j - 1);
      assert a[..i] == a[..i - 1] + [a[i - 1]] && b[..j] == b[..j - 1] + [b[j - 1]];
      if a[..i] == b[..j] {
        assert a[..i - 1] == b[..j - 1] && a[i - 1] == b[j - 1] by {
          assert a[..i - 1] == a[..i][..i - 1] && b[..j - 1] == b[..j][..j - 1];
          assert a[i - 1] == a[..i][i - 1] && b[j - 1] == b[..j][j - 1];
        }
      }
    } else if i > 0 {
      assert |a[..i]| != |b[..j]|;
    } else if j > 0 {
      assert |a[..i]| != |b[..j]|;
    }
  }

  lemma EditDistanceZeroIff(a: string, b: string)
    ensures EditDistance(a, b) == 0 <==> a == b
  {
    DistanceZeroIff(a, b, |a|, |b|);
    assert a[..|a|] == a && b[..|b|] == b;
  }

  lemma EditDistanceSelf(a: string)
    ensures EditDistance(a, a) == 0
  {
    EditDistanceZeroIff(a, a);
  }

  // ---------------------------------------------------------------- edit scripts

  /** One step of an edit script, read left to right over both strings. */
  datatype EditOp = Keep(c: char) | Substitute(from: char, to: char) | Insert(ins: char) | Delete(del: char)

  function OpCost(op: EditOp): nat
  {
    if op.Keep? then 0 else 1
  }

  function OpSource(op: EditOp): string
  {
    match op
    case Keep(c) => [c]
    case Substitute(x, _) => [x]
    case Insert(_) => []
    case Delete(c) => [c]
  }

  function OpTarget(op: EditOp): string
  {
    match op
    case Keep(c) => [c]
    case Substitute(_, y) => [y]
    case Insert(c) => [c]
    case Delete(_) => []
  }

  /** The string an edit script reads. */
  function Source(ops: seq<EditOp>): string
  {
    if ops == [] then [] else Source(ops[..|ops| - 1]) + OpSource(ops[|ops| - 1])
  }

  /** The string an edit script writes. */
  function Target(ops: seq<EditOp>): string
  {
    if ops == [] then [] else Target(ops[..|ops| - 1]) + OpTarget(ops[|ops| - 1])
  }

  /** The number of steps of a script that are not `Keep`. */
  function Cost(ops: seq<EditOp>): nat
  {
    if ops == [] then 0 else Cost(ops[..|ops| - 1]) + OpCost(ops[|ops| - 1])
  }

  lemma ScriptSnoc(ops: seq<EditOp>, op: EditOp)
    ensures Source(ops + [op]) == Source(ops) + OpSource(op)
    ensures Target(ops + [op]) == Target(ops) + OpTarget(op)
    ensures Cost(ops + [op]) == Cost(ops) + OpCost(op)
  {
    assert (ops + [op])[..|ops|] == ops;
  }

  /** The last step of a cheapest script from `a[..i]` to `b[..j]`: the
      branch of the recurrence that attains the minimum. */
  function LastOp(a: string, b: string, i: nat, j: nat): EditOp
    requires i <= |a| && j <= |b| && 0 < i + j
  {
    if i == 0 then Insert(b[j - 1])
    else if j == 0 then Delete(a[i - 1])
    else if Distance(a, b, i, j) == Distance(a, b, i - 1, j - 1) + Indicator(a[i - 1], b[j - 1]) then
      (if a[i - 1] == b[j - 1] then Keep(a[i - 1]) else Substitute(a[i - 1], b[j - 1]))
    else if Distance(a, b, i, j) == Distance(a, b, i - 1, j) + 1 then Delete(a[i - 1])
    else Insert(b[j - 1])
  }

  /** `LastOp` reads the last character of `a[..i]` unless it inserts and
      writes the last character of `b[..j]` unless it deletes. */
  lemma LastOpShape(a: string, b: string, i: nat, j: nat)
    requires i <= |a| && j <= |b| && 0 < i + j
    ensures var op := LastOp(a, b, i, j);
      var i', j' := i - |OpSource(op)|, j - |OpTarget(op)|;
      0 <= i' && 0 <= j' && i' + j' < i + j &&
      a[..i] == a[..i'] + OpSource(op) && b[..j] == b[..j'] + OpTarget(op)
  {
    if i == 0 {
      assert b[..j] == b[..j - 1] + [b[j - 1]];
    } else if j == 0 {
      assert a[..i] == a[..i - 1] + [a[i - 1]];
    } else {
      assert a[..i] == a[..i - 1] + [a[i - 1]];
      assert b[..j] == b[..j - 1] + [b[j - 1]];
    }
  }

  /** The cost of `LastOp` is what the distance gains over the prefixes that
      remain once it is undone. */
  lemma LastOpCost(a: string, b: string, i: nat, j: nat)
    requires i <= |a| && j <= |b| && 0 < i + j
    ensures var op := LastOp(a, b, i, j);
      |OpSource(op)| <= i && |OpTarget(op)| <= j &&
      Distance(a, b, i, j) == Distance(a, b, i - |OpSource(op)|, j - |OpTarget(op)|) + OpCost(op)
  {
  }

  /** A script from `a[..i]` to `b[..j]` that attains their distance. */
  function OptimalScript(a: string, b: string, i: nat, j: nat): (r: seq<EditOp>)
    requires i <= |a| && j <= |b|
    ensures Source(r) == a[..i] && Target(r) == b[..j]
    ensures Cost(r) == Distance(a, b, i, j)
    decreases i + j
  {
    if i + j == 0 then []
    else
      var op := LastOp(a, b, i, j);
      LastOpShape(a, b, i, j);
      LastOpCost(a, b, i, j);
      var s := OptimalScript(a, b, i - |OpSource(op)|, j - |OpTarget(op)|);
      ScriptSnoc(s, op);
      s + [op]
  }

  /** The edit distance is attained by some script. */
  lemma EditDistanceAttained(a: string, b: string)
    ensures var r := OptimalScript(a, b, |a|, |b|);
      Source(r) == a && Target(r) == b && Cost(r) == EditDistance(a, b)
  {
    assert a[..|a|] == a && b[..|b|] == b;
  }

  /** No script from `a` to `b` is cheaper than the distance: the distance is
      the minimum. */
  lemma {:induction false} ScriptCostAtLeastDistance(ops: seq<EditOp>)
    ensures Cost(ops) >= EditDistance(Source(ops), Target(ops))
    decreases |ops|
  {
    if ops != [] {
      var init, op := ops[..|ops| - 1], ops[|ops| - 1];
      ScriptCostAtLeastDistance(init);
      LastStep(Source(init), Target(init), op);
    }
  }

  /** Appending one step to a script raises the distance by at most its cost. */
  lemma LastStep(a0: string, b0: string, op: EditOp)
    ensures EditDistance(a0 + OpSource(op), b0 + OpTarget(op)) <= EditDistance(a0, b0) + OpCost(op)
  {
    match op
    case Keep(c) =>
      ExtendBoth(a0, b0, c, c);
      assert Indicator(c, c) == 0;
    case Substitute(x, y) =>
      ExtendBoth(a0, b0, x, y);
      assert Indicator(x, y) <= 1;
    case Insert(c) =>
      ExtendTarget(a0, b0, c);
      assert a0 + OpSource(op) == a0;
    case Delete(c) =>
      ExtendSource(a0, b0, c);
      assert b0 + OpTarget(op) == b0;
  }

  lemma ExtendBoth(a0: string, b0: string, x: char, y: char)
    ensures EditDistance(a0 + [x], b0 + [y]) <= EditDistance(a0, b0) + Indicator(x, y)
  {
    var a, b := a0 + [x], b0 + [y];
    assert a[..|a0|] == a0[..|a0|] && b[..|b0|] == b0[..|b0|];
    DistanceOfPrefixes(a, b, a0, b0, |a0|, |b0|);
    SubstituteStep(a, b, |a|, |b|);
  }

  lemma ExtendTarget(a0: string, b0: string, y: char)
    ensures EditDistance(a0, b0 + [y]) <= EditDistance(a0, b0) + 1
  {
    var b := b0 + [y];
    assert a0[..|a0|] == a0[..|a0|] && b[..|b0|] == b0[..|b0|];
    DistanceOfPrefixes(a0, b, a0, b0, |a0|, |b0|);
    InsertStep(a0, b, |a0|, |b|);
  }

  lemma ExtendSource(a0: string, b0: string, x: char)
    ensures EditDistance(a0 + [x], b0) <= EditDistance(a0, b0) + 1
  {
    var a := a0 + [x];
    assert a[..|a0|] == a0[..|a0|] && b0[..|b0|] == b0[..|b0|];
    DistanceOfPrefixes(a, b0, a0, b0, |a0|, |b0|);
    DeleteStep(a, b0, |a|, |b0|);
  }

  /** Extending both prefixes by one character raises the distance by at
      most one, and not at all when the two characters agree. */
  lemma SubstituteStep(a: string, b: string, i: nat, j: nat)
    requires 0 < i <= |a| && 0 < j <= |b|
    ensures Distance(a, b, i, j) <= Distance(a, b, i - 1, j - 1) + Indicator(a[i - 1], b[j - 1])
  {
  }

  /** Extending the second prefix by one character raises the distance by at
      most one. */
  lemma InsertStep(a: string, b: string, i: nat, j: nat)
    requires i <= |a| && 0 < j <= |b|
    ensures Distance(a, b, i, j) <= Distance(a, b, i, j - 1) + 1
  {
  }

  /** Extending the first prefix by one character raises the distance by at
      most one. */
  lemma DeleteStep(a: string, b: string, i: nat, j: nat)
    requires 0 < i <= |a| && j <= |b|
    ensures Distance(a, b, i, j) <= Distance(a, b, i - 1, j) + 1
  {
  }

  // ---------------------------------------------------------------- symmetry

  /** The step that undoes `op`: insertions and deletions change places. */
  function FlipOp(op: EditOp): EditOp
  {
    match op
    case Keep(c) => Keep(c)
    case Substitute(x, y) => Substitute(y, x)
    case Insert(c) => Delete(c)
    case Delete(c) => Insert(c)
  }

  /** The script that turns the target of `ops` back into its source. */
  function Flip(ops: seq<EditOp>): seq<EditOp>
  {
    if ops == [] then [] else Flip(ops[..|ops| - 1]) + [FlipOp(ops[|ops| - 1])]
  }

  lemma {:induction false} FlipScript(ops: seq<EditOp>)
    ensures Source(Flip(ops)) == Target(ops) && Target(Flip(ops)) == Source(ops)
    ensures Cost(Flip(ops)) == Cost(ops)
    decreases |ops|
  {
    if ops != [] {
      var init, op := ops[..|ops| - 1], ops[|ops| - 1];
      FlipScript(init);
      ScriptSnoc(Flip(init), FlipOp(op));
    }
  }

  /** The distance does not depend on the order of its arguments: flipping a
      cheapest script from `a` to `b` gives a script from `b` to `a` of the
      same cost. */
  lemma EditDistanceSymmetric(a: string, b: string)
    ensures EditDistance(a, b) == EditDistance(b, a)
  {
    EditDistanceAttained(a, b);
    EditDistanceAttained(b, a);
    var r, q := OptimalScript(a, b, |a|, |b|), OptimalScript(b, a, |b|, |a|);
    FlipScript(r);
    FlipScript(q);
    ScriptCostAtLeastDistance(Flip(r));
    ScriptCostAtLeastDistance(Flip(q));
  }
}
