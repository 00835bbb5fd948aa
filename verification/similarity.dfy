/**
 `calculateSimilarity`: one minus the case-insensitive edit distance divided by
 the length of the longer string, and 1.0 when both strings are empty. Scores
 are exact reals.
 */
module SimilarityScorer {
  import opened Text
  import opened EditDistance

  /** The argument `calculateSimilarity` treats as the longer one: the second on a tie. */
  function Longer(s1: string, s2: string): string {
    if |s1| > |s2| then s1 else s2
  }

  function Shorter(s1: string, s2: string): string {
    if |s1| > |s2| then s2 else s1
  }

  /** `(n - d) / n` for a distance `d` no larger than the length `n`. */
  function Ratio(n: nat, d: nat): (r: real)
    requires 0 < n && d <= n
    ensures 0.0 <= r <= 1.0
    ensures r == 1.0 <==> d == 0
  {
    var q := (n - d) as real / n as real;
    assert q * n as real == (n - d) as real;
    q
  }

  /**
   The score lies in [0, 1]. It is exactly 1.0 when both strings are empty, and
   otherwise exactly 1.0 when they are equal up to case.
   */
  function Similarity(s1: string, s2: string): (r: real)
    ensures 0.0 <= r <= 1.0
    ensures |s1| == 0 && |s2| == 0 ==> r == 1.0
    ensures r == 1.0 <==> Lower(s1) == Lower(s2)
  {
    var longer := Longer(s1, s2);
    var shorter := Shorter(s1, s2);
    if |longer| == 0 then 1.0
    else
      var d := Dist(Lower(longer), Lower(shorter));
      DistAtMostLonger(Lower(longer), Lower(shorter));
      DistZeroIff(Lower(longer), Lower(shorter));
      Ratio(|longer|, d)
  }

  /** The argument order does not matter, including when the lengths are equal. */
  lemma SimilaritySymmetric(s1: string, s2: string)
    ensures Similarity(s1, s2) == Similarity(s2, s1)
  {
    if |s1| == |s2| {
      DistSymmetric(Lower(s1), Lower(s2));
    }
  }
}
