/**
 Levenshtein edit distance (insertion, deletion and substitution each cost 1).
 `Dist` is the recursive specification, written over prefixes so that it
 follows the cell recurrence of the dynamic-programming matrix cell for cell;
 `LevenshteinDistance` fills that matrix and is proved equal to it.
 */
module EditDistance {

  function Min3(x: nat, y: nat, z: nat): nat {
    if x <= y && x <= z then x else if y <= z then y else z
  }

  function Max(x: nat, y: nat): nat {
    if x >= y then x else y
  }

  /** The edit distance between `a` and `b`, by the matrix recurrence on their last characters. */
  function Dist(a: string, b: string): nat
    decreases |a| + |b|
  {
    if |a| == 0 then |b|
    else if |b| == 0 then |a|
    else if a[|a| - 1] == b[|b| - 1] then Dist(a[..|a| - 1], b[..|b| - 1])
    else 1 + Min3(Dist(a[..|a| - 1], b[..|b| - 1]),
                  Dist(a[..|a| - 1], b),
                  Dist(a, b[..|b| - 1]))
  }

  /** A string is at distance 0 from itself. */
  lemma {:induction false} DistSelf(a: string)
    ensures Dist(a, a) == 0
  {
    if |a| > 0 {
      DistSelf(a[..|a| - 1]);
    }
  }

  /** The distance is symmetric. */
  lemma {:induction false} DistSymmetric(a: string, b: string)
    ensures Dist(a, b) == Dist(b, a)
    decreases |a| + |b|
  {
    if |a| > 0 && |b| > 0 {
      DistSymmetric(a[..|a| - 1], b[..|b| - 1]);
      DistSymmetric(a[..|a| - 1], b);
      DistSymmetric(a, b[..|b| - 1]);
    }
  }

  /** At least the difference of the lengths: each edit changes the length by at most one. */
  lemma {:induction false} DistAtLeastLengthGap(a: string, b: string)
    ensures |a| - |b| <= Dist(a, b) && |b| - |a| <= Dist(a, b)
    decreases |a| + |b|
  {
    if |a| > 0 && |b| > 0 {
      DistAtLeastLengthGap(a[..|a| - 1], b[..|b| - 1]);
      DistAtLeastLengthGap(a[..|a| - 1], b);
      DistAtLeastLengthGap(a, b[..|b| - 1]);
    }
  }

  /** At most the longer length: substitute along the shorter string, insert the rest. */
  lemma {:induction false} DistAtMostLonger(a: string, b: string)
    ensures Dist(a, b) <= Max(|a|, |b|)
    decreases |a| + |b|
  {
    if |a| > 0 && |b| > 0 {
      DistAtMostLonger(a[..|a| - 1], b[..|b| - 1]);
    }
  }

  /** Distance 0 means equal strings, and only then. */
  lemma {:induction false} DistZeroIff(a: string, b: string)
    ensures Dist(a, b) == 0 <==> a == b
    decreases |a| + |b|
  {
    if a == b {
      DistSelf(a);
    }
    if Dist(a, b) == 0 {
      DistAtLeastLengthGap(a, b);
      if |a| > 0 {
        assert a[|a| - 1] == b[|b| - 1];
        DistZeroIff(a[..|a| - 1], b[..|b| - 1]);
        assert a == a[..|a| - 1] + [a[|a| - 1]];
        assert b == b[..|b| - 1] + [b[|b| - 1]];
      }
    }
  }

  /** One cell of the matrix: `Dist` on the prefixes `a[..j]` and `b[..i]` in terms of its three neighbours. */
  lemma DistCell(a: string, b: string, i: nat, j: nat)
    requires 1 <= i <= |b| && 1 <= j <= |a|
    ensures Dist(a[..j], b[..i]) ==
      if b[i - 1] == a[j - 1] then Dist(a[..j - 1], b[..i - 1])
      else 1 + Min3(Dist(a[..j - 1], b[..i - 1]), Dist(a[..j - 1], b[..i]), Dist(a[..j], b[..i - 1]))
  {
    assert a[..j][..j - 1] == a[..j - 1];
    assert b[..i][..i - 1] == b[..i - 1];
  }

  /** `row` is row `i` of the matrix: entry `j` is the distance between `a[..j]` and `b[..i]`. */
  ghost predicate IsRow(a: string, b: string, i: nat, row: seq<nat>)
    requires i <= |b|
  {
    |row| == |a| + 1 && forall j :: 0 <= j <= |a| ==> row[j] == Dist(a[..j], b[..i])
  }

  /** Fills row `i` of the matrix left to right from the row above it. */
  method FillRow(a: string, b: string, i: nat, above: seq<nat>) returns (row: seq<nat>)
    requires 1 <= i <= |b|
    requires IsRow(a, b, i - 1, above)
    ensures IsRow(a, b, i, row)
  {
    row := [i];
    var j := 1;
    while j <= |a|
      invariant 1 <= j <= |a| + 1
      invariant |row| == j
      invariant forall j' :: 0 <= j' < j ==> row[j'] == Dist(a[..j'], b[..i])
    {
      DistCell(a, b, i, j);
      var cell;
      if b[i - 1] == a[j - 1] {
        cell := above[j - 1];
      } else {
        cell := Min3(above[j - 1] + 1, row[j - 1] + 1, above[j] + 1);
      }
      assert cell == Dist(a[..j], b[..i]);
      row := row + [cell];
      j := j + 1;
    }
  }

  /**
   `levenshteinDistance(a, b)`: builds the full (|b|+1) x (|a|+1) matrix, row `i`
   for the prefix `b[..i]` and column `j` for the prefix `a[..j]`, and reads the
   bottom-right cell.
   */
  method LevenshteinDistance(a: string, b: string) returns (d: nat)
    ensures d == Dist(a, b)
  {
    var top: seq<nat> := seq(|a| + 1, j requires 0 <= j <= |a| => j);
    assert IsRow(a, b, 0, top);
    var matrix := [top];
    var i := 1;
    while i <= |b|
      invariant 1 <= i <= |b| + 1
      invariant |matrix| == i
      invariant forall i' :: 0 <= i' < i ==> IsRow(a, b, i', matrix[i'])
    {
      var row := FillRow(a, b, i, matrix[i - 1]);
      matrix := matrix + [row];
      i := i + 1;
    }
    d := matrix[|b|][|a|];
    assert a[..|a|] == a && b[..|b|] == b;
  }
}
