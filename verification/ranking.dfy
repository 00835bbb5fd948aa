/**
 De-duplication, scoring and ranking of the merged hits (the tail of
 `findBestMatch`): the first hit seen for a title wins, each kept hit is scored
 by title similarity plus a snippet bonus, and the list is sorted by descending
 score with a stable sort, as `Array.prototype.sort` has been since ES2019.
 */
module Ranking {
  import opened Options
  import opened Text
  import opened SimilarityScorer
  import opened Aggregate

  /** The bonus for a snippet that contains the term, case-insensitively. */
  const SnippetBonus: real := 0.2

  /** A kept hit with its `relevanceScore`. */
  datatype Scored = Scored(hit: Hit, score: real)

  function Titles(hits: seq<Hit>): set<string> {
    set h | h in hits :: h.title
  }

  function ScoredTitles(rs: seq<Scored>): set<string> {
    set r | r in rs :: r.hit.title
  }

  /** No two hits share a title. */
  predicate DistinctHitTitles(hits: seq<Hit>) {
    forall i, j :: 0 <= i < j < |hits| ==> hits[i].title != hits[j].title
  }

  /** No two entries share a title. */
  predicate DistinctTitles(rs: seq<Scored>) {
    forall i, j :: 0 <= i < j < |rs| ==> rs[i].hit.title != rs[j].hit.title
  }

  /** The first hit carrying title `t`. */
  function FirstWithTitle(hits: seq<Hit>, t: string): (h: Hit)
    requires t in Titles(hits)
    ensures h in hits && h.title == t
  {
    if hits[0].title == t then hits[0]
    else
      assert t in Titles(hits[1..]) by {
        var h :| h in hits && h.title == t;
        assert h != hits[0];
      }
      FirstWithTitle(hits[1..], t)
  }

  /**
   The walk with the `seen` set: a hit whose title was already seen is dropped,
   otherwise it is kept and its title marked seen.
   */
  function Walk(hits: seq<Hit>, seen: set<string>): (r: seq<Hit>)
    ensures |r| <= |hits|
    ensures forall k :: 0 <= k < |r| ==> r[k] in hits && r[k].title !in seen
  {
    if |hits| == 0 then []
    else if hits[0].title in seen then Walk(hits[1..], seen)
    else [hits[0]] + Walk(hits[1..], seen + {hits[0].title})
  }

  /**
   Every kept hit is the first input hit with its title, titles are pairwise
   distinct, and the kept titles are exactly the input titles not already seen.
   */
  lemma {:induction false} WalkKeepsFirstOfEachTitle(hits: seq<Hit>, seen: set<string>)
    ensures var r := Walk(hits, seen);
      && |r| <= |hits|
      && DistinctHitTitles(r)
      && Titles(r) == Titles(hits) - seen
      && (forall k :: 0 <= k < |r| ==> r[k].title in Titles(hits) && r[k] == FirstWithTitle(hits, r[k].title))
  {
    if |hits| > 0 {
      var h := hits[0];
      assert Titles(hits) == {h.title} + Titles(hits[1..]);
      if h.title in seen {
        WalkKeepsFirstOfEachTitle(hits[1..], seen);
      } else {
        var rest := Walk(hits[1..], seen + {h.title});
        WalkKeepsFirstOfEachTitle(hits[1..], seen + {h.title});
        assert Titles([h] + rest) == {h.title} + Titles(rest);
        assert Walk(hits, seen) == [h] + rest;
      }
    }
  }

  /**
   `uniqueResults` before scoring: the walk from an empty `seen` set. Titles are
   pairwise distinct and exactly the input titles, and each kept hit is the
   first input hit with its title.
   */
  function Dedup(hits: seq<Hit>): (r: seq<Hit>)
    ensures |r| <= |hits|
    ensures DistinctHitTitles(r)
    ensures Titles(r) == Titles(hits)
    ensures forall k :: 0 <= k < |r| ==> r[k].title in Titles(hits) && r[k] == FirstWithTitle(hits, r[k].title)
  {
    WalkKeepsFirstOfEachTitle(hits, {});
    Walk(hits, {})
  }

  /** Hit `i` is the first of its title. */
  predicate IsFirstOfTitle(hits: seq<Hit>, i: nat)
    requires i < |hits|
  {
    forall j :: 0 <= j < i ==> hits[j].title != hits[i].title
  }

  /** Reference definition: the hits from index `k` on that are the first of their title, in input order. */
  function FirstsFrom(hits: seq<Hit>, k: nat): seq<Hit>
    requires k <= |hits|
    decreases |hits| - k
  {
    if k == |hits| then []
    else (if IsFirstOfTitle(hits, k) then [hits[k]] else []) + FirstsFrom(hits, k + 1)
  }

  /** Before hit `k`, its title has been seen exactly when it is not the first of its title. */
  lemma SeenIffNotFirst(hits: seq<Hit>, k: nat)
    requires k < |hits|
    ensures hits[k].title in Titles(hits[..k]) <==> !IsFirstOfTitle(hits, k)
  {
    if !IsFirstOfTitle(hits, k) {
      var j :| 0 <= j < k && hits[j].title == hits[k].title;
      assert hits[..k][j] == hits[j];
    }
    if hits[k].title in Titles(hits[..k]) {
      var g :| g in hits[..k] && g.title == hits[k].title;
      var j :| 0 <= j < k && hits[..k][j] == g;
    }
  }

  lemma TitlesOfLongerPrefix(hits: seq<Hit>, k: nat)
    requires k < |hits|
    ensures Titles(hits[..k + 1]) == Titles(hits[..k]) + {hits[k].title}
  {
    assert hits[..k + 1] == hits[..k] + [hits[k]];
  }

  /** One step of the walk at index `k`, with the titles of the hits before `k` as the seen set. */
  lemma WalkStepAt(hits: seq<Hit>, k: nat)
    requires k < |hits|
    ensures Walk(hits[k..], Titles(hits[..k])) ==
      (if IsFirstOfTitle(hits, k) then [hits[k]] else []) + Walk(hits[k + 1..], Titles(hits[..k + 1]))
  {
    var seen := Titles(hits[..k]);
    TitlesOfLongerPrefix(hits, k);
    SeenIffNotFirst(hits, k);
    assert hits[k..][0] == hits[k] && hits[k..][1..] == hits[k + 1..];
    if !IsFirstOfTitle(hits, k) {
      assert seen + {hits[k].title} == seen;
    }
  }

  /** From index `k` on, the walk keeps exactly the hits that are first of their title, in input order. */
  lemma {:induction false} WalkKeepsFirsts(hits: seq<Hit>, k: nat)
    requires k <= |hits|
    ensures Walk(hits[k..], Titles(hits[..k])) == FirstsFrom(hits, k)
    decreases |hits| - k
  {
    if k < |hits| {
      WalkKeepsFirsts(hits, k + 1);
      WalkStepAt(hits, k);
      var here := if IsFirstOfTitle(hits, k) then [hits[k]] else [];
      assert FirstsFrom(hits, k) == here + FirstsFrom(hits, k + 1);
    }
  }

  /** The de-duplicated hits are exactly the hits that are first of their title, in input order. */
  lemma DedupKeepsFirsts(hits: seq<Hit>)
    ensures Dedup(hits) == FirstsFrom(hits, 0)
  {
    WalkKeepsFirsts(hits, 0);
    assert hits[0..] == hits;
    assert Titles(hits[..0]) == {};
  }

  /** The snippet contains the term, both lower-cased; an absent snippet never does. */
  predicate SnippetMatches(term: string, h: Hit) {
    h.snippet.Some? && Contains(Lower(h.snippet.value), Lower(term))
  }

  /** `relevanceScore`: title similarity, plus the bonus when the snippet matches. */
  function Relevance(term: string, h: Hit): (score: real)
    ensures 0.0 <= score <= 1.0 + SnippetBonus
    ensures SnippetMatches(term, h) ==> score == Similarity(term, h.title) + SnippetBonus
    ensures !SnippetMatches(term, h) ==> score == Similarity(term, h.title)
  {
    Similarity(term, h.title) + (if SnippetMatches(term, h) then SnippetBonus else 0.0)
  }

  function ScoreAll(term: string, hits: seq<Hit>): (rs: seq<Scored>)
    ensures |rs| == |hits|
    ensures forall i :: 0 <= i < |hits| ==> rs[i] == Scored(hits[i], Relevance(term, hits[i]))
  {
    seq(|hits|, i requires 0 <= i < |hits| => Scored(hits[i], Relevance(term, hits[i])))
  }

  /** Non-increasing by score. */
  predicate SortedDesc(rs: seq<Scored>) {
    forall i, j :: 0 <= i < j < |rs| ==> rs[i].score >= rs[j].score
  }

  /** The entries with score exactly `v`, in order: sorting stably must not reorder these. */
  function WithScore(rs: seq<Scored>, v: real): seq<Scored> {
    if |rs| == 0 then []
    else (if rs[0].score == v then [rs[0]] else []) + WithScore(rs[1..], v)
  }

  /** Inserts `x` before the first entry it does not score below, so it stays ahead of its ties. */
  function Insert(x: Scored, s: seq<Scored>): (r: seq<Scored>)
    requires SortedDesc(s)
    ensures SortedDesc(r)
    ensures multiset(r) == multiset(s) + multiset{x}
  {
    if |s| == 0 || x.score >= s[0].score then [x] + s
    else
      var rest := Insert(x, s[1..]);
      HeadDominates(x, s, rest);
      [s[0]] + rest
  }

  /** When `x` scores below the head of `s`, that head dominates `x` inserted into the tail. */
  lemma HeadDominates(x: Scored, s: seq<Scored>, rest: seq<Scored>)
    requires SortedDesc(s) && |s| > 0 && x.score < s[0].score
    requires SortedDesc(rest) && multiset(rest) == multiset(s[1..]) + multiset{x}
    ensures SortedDesc([s[0]] + rest)
    ensures multiset([s[0]] + rest) == multiset(s) + multiset{x}
  {
    assert s == [s[0]] + s[1..];
    forall k | 0 <= k < |rest| ensures s[0].score >= rest[k].score {
      assert rest[k] in multiset(rest);
      if rest[k] != x {
        assert rest[k] in multiset(s[1..]);
      }
    }
  }

  lemma WithScoreCons(e: Scored, s: seq<Scored>, v: real)
    ensures WithScore([e] + s, v) == (if e.score == v then [e] else []) + WithScore(s, v)
  {
    assert ([e] + s)[1..] == s;
  }

  /** Two singleton runs for different scores may swap: at most one of them is non-empty. */
  lemma SwapTies(x: Scored, y: Scored, v: real, tail: seq<Scored>)
    requires x.score != y.score
    ensures (if y.score == v then [y] else []) + ((if x.score == v then [x] else []) + tail)
         == (if x.score == v then [x] else []) + ((if y.score == v then [y] else []) + tail)
  {
  }

  /** Insertion keeps the order among entries of equal score, with `x` first among its ties. */
  lemma {:induction false} InsertStable(x: Scored, s: seq<Scored>, v: real)
    requires SortedDesc(s)
    ensures WithScore(Insert(x, s), v) == (if x.score == v then [x] else []) + WithScore(s, v)
  {
    if |s| == 0 || x.score >= s[0].score {
      WithScoreCons(x, s, v);
    } else {
      var rest := Insert(x, s[1..]);
      assert Insert(x, s) == [s[0]] + rest;
      InsertStable(x, s[1..], v);
      WithScoreCons(s[0], rest, v);
      assert s == [s[0]] + s[1..];
      WithScoreCons(s[0], s[1..], v);
      SwapTies(x, s[0], v, WithScore(s[1..], v));
    }
  }

  /** A stable sort by descending score: insertion from the back keeps earlier entries ahead of their ties. */
  function SortByScore(rs: seq<Scored>): (r: seq<Scored>)
    ensures SortedDesc(r)
    ensures multiset(r) == multiset(rs)
  {
    if |rs| == 0 then []
    else
      assert rs == [rs[0]] + rs[1..];
      Insert(rs[0], SortByScore(rs[1..]))
  }

  /** Stability: for every score, the entries with that score keep their input order. */
  lemma {:induction false} SortByScoreStable(rs: seq<Scored>, v: real)
    ensures WithScore(SortByScore(rs), v) == WithScore(rs, v)
  {
    if |rs| > 0 {
      SortByScoreStable(rs[1..], v);
      InsertStable(rs[0], SortByScore(rs[1..]), v);
    }
  }

  /** In a list with distinct titles no entry occurs twice. */
  lemma {:induction false} DistinctTitlesOccurOnce(rs: seq<Scored>, e: Scored)
    requires DistinctTitles(rs)
    ensures multiset(rs)[e] <= 1
  {
    if |rs| > 0 {
      assert rs == [rs[0]] + rs[1..];
      DistinctTitlesOccurOnce(rs[1..], e);
      if e == rs[0] {
        assert e !in rs[1..] by {
          forall k | 0 <= k < |rs[1..]| ensures rs[1..][k] != e {
            assert rs[1..][k] == rs[k + 1];
          }
        }
      }
    }
  }

  lemma OccursTwice(b: seq<Scored>, i: nat, j: nat)
    requires i < j < |b| && b[i] == b[j]
    ensures multiset(b)[b[i]] >= 2
  {
    assert b == b[..j] + b[j..];
    assert b[i] in b[..j] && b[j] in b[j..];
    assert multiset(b) == multiset(b[..j]) + multiset(b[j..]);
  }

  /** Reordering a list with distinct titles keeps its titles distinct. */
  lemma PermutationKeepsDistinctTitles(a: seq<Scored>, b: seq<Scored>)
    requires multiset(a) == multiset(b)
    requires DistinctTitles(a)
    ensures DistinctTitles(b)
  {
    forall i, j | 0 <= i < j < |b| ensures b[i].hit.title != b[j].hit.title {
      assert b[i] in multiset(b) && b[j] in multiset(b);
      var p :| 0 <= p < |a| && a[p] == b[i];
      var q :| 0 <= q < |a| && a[q] == b[j];
      if b[i] == b[j] {
        OccursTwice(b, i, j);
        DistinctTitlesOccurOnce(a, b[i]);
      } else if p < q {
        assert a[p].hit.title != a[q].hit.title;
      } else {
        assert a[q].hit.title != a[p].hit.title;
      }
    }
  }

  /** Predicate form of the score range [0, 1 + bonus]. */
  predicate ScoresInRange(rs: seq<Scored>) {
    forall i :: 0 <= i < |rs| ==> 0.0 <= rs[i].score <= 1.0 + SnippetBonus
  }

  /** Scoring keeps the hits, their titles and their order, and every score is in range. */
  lemma ScoreAllKeepsTitles(term: string, hits: seq<Hit>)
    requires DistinctHitTitles(hits)
    ensures DistinctTitles(ScoreAll(term, hits))
    ensures ScoredTitles(ScoreAll(term, hits)) == Titles(hits)
    ensures ScoresInRange(ScoreAll(term, hits))
  {
    var rs := ScoreAll(term, hits);
    forall t | t in Titles(hits) ensures t in ScoredTitles(rs) {
      var h :| h in hits && h.title == t;
      var i :| 0 <= i < |hits| && hits[i] == h;
      assert rs[i].hit == h;
    }
    forall t | t in ScoredTitles(rs) ensures t in Titles(hits) {
      var r :| r in rs && r.hit.title == t;
      var i :| 0 <= i < |rs| && rs[i] == r;
      assert hits[i] in hits;
    }
  }

  /** Reordering keeps the set of titles and the score range. */
  lemma PermutationKeepsTitlesAndScores(a: seq<Scored>, b: seq<Scored>)
    requires multiset(a) == multiset(b)
    ensures ScoredTitles(a) == ScoredTitles(b)
    ensures ScoresInRange(a) ==> ScoresInRange(b)
  {
    forall e ensures e in a <==> e in b {
      assert e in a <==> e in multiset(a);
      assert e in b <==> e in multiset(b);
    }
    if ScoresInRange(a) {
      forall i | 0 <= i < |b| ensures 0.0 <= b[i].score <= 1.0 + SnippetBonus {
        assert b[i] in a;
      }
    }
  }

  /**
   The ranked result set: the first hit of every title, scored, sorted by
   descending score. Titles are unique and are exactly the merged hits' titles;
   every score lies in [0, 1.2].
   */
  function Rank(term: string, hits: seq<Hit>): (r: seq<Scored>)
    ensures SortedDesc(r)
    ensures multiset(r) == multiset(ScoreAll(term, Dedup(hits)))
    ensures DistinctTitles(r)
    ensures ScoredTitles(r) == Titles(hits)
    ensures ScoresInRange(r)
  {
    var kept := Dedup(hits);
    var scored := ScoreAll(term, kept);
    var r := SortByScore(scored);
    ScoreAllKeepsTitles(term, kept);
    PermutationKeepsDistinctTitles(scored, r);
    PermutationKeepsTitlesAndScores(scored, r);
    r
  }

  /** Two hits titled "A": only the first, with its own snippet, survives. */
  lemma DedupExample(first: Option<string>, second: Option<string>)
    ensures Dedup([Hit("A", first), Hit("A", second)]) == [Hit("A", first)]
  {
    var a1, a2 := Hit("A", first), Hit("A", second);
    assert [a1, a2][1..] == [a2] && [a2][1..] == [];
    assert Walk([a2], {"A"}) == [];
    var none: set<string> := {};
    assert none + {a1.title} == {"A"};
    assert Walk([a1, a2], none) == [a1] + Walk([a2], {"A"});
    assert Walk([a1, a2], {}) == [a1] + Walk([a2], {"A"});
  }

  /** Every entry of a permutation comes from the original list. */
  lemma InPermutation(a: seq<Scored>, b: seq<Scored>, i: nat)
    requires multiset(a) == multiset(b) && i < |b|
    ensures b[i] in a
  {
    assert b[i] in multiset(b);
  }

  /** Every scored entry carries one of the scored hits. */
  lemma ScoredFrom(term: string, hits: seq<Hit>, e: Scored)
    requires e in ScoreAll(term, hits)
    ensures e.hit in hits
  {
    var k :| 0 <= k < |hits| && ScoreAll(term, hits)[k] == e;
  }

  /** Every de-duplicated hit is the first input hit with its title. */
  lemma DedupMember(hits: seq<Hit>, h: Hit)
    requires h in Dedup(hits)
    ensures h.title in Titles(hits) && h == FirstWithTitle(hits, h.title)
  {
    var k :| 0 <= k < |Dedup(hits)| && Dedup(hits)[k] == h;
  }

  /** Every ranked entry's score is the relevance of its own hit. */
  lemma RankScoresAreRelevance(term: string, hits: seq<Hit>, i: nat)
    requires i < |Rank(term, hits)|
    ensures Rank(term, hits)[i].score == Relevance(term, Rank(term, hits)[i].hit)
  {
    var scored := ScoreAll(term, Dedup(hits));
    var e := Rank(term, hits)[i];
    InPermutation(scored, Rank(term, hits), i);
    var k :| 0 <= k < |scored| && scored[k] == e;
  }

  /** First-seen wins survives the sort: every ranked entry carries the first merged hit with its title. */
  lemma RankKeepsFirstHits(term: string, hits: seq<Hit>, i: nat)
    requires i < |Rank(term, hits)|
    ensures var h := Rank(term, hits)[i].hit;
      h.title in Titles(hits) && h == FirstWithTitle(hits, h.title)
  {
    var ranked := Rank(term, hits);
    InPermutation(ScoreAll(term, Dedup(hits)), ranked, i);
    ScoredFrom(term, Dedup(hits), ranked[i]);
    DedupMember(hits, ranked[i].hit);
  }

  /**
   Ranking is a stable sort of the scored first-of-title hits: among entries
   of equal score the merged order is kept.
   */
  lemma RankStable(term: string, hits: seq<Hit>, v: real)
    ensures WithScore(Rank(term, hits), v) == WithScore(ScoreAll(term, Dedup(hits)), v)
  {
    SortByScoreStable(ScoreAll(term, Dedup(hits)), v);
  }

  /** The ranked head is the earliest scored first-of-title hit with the top score. */
  lemma RankHeadIsEarliestTop(term: string, hits: seq<Hit>)
    requires |Rank(term, hits)| > 0
    ensures var r := Rank(term, hits);
      var ties := WithScore(ScoreAll(term, Dedup(hits)), r[0].score);
      |ties| > 0 && ties[0] == r[0]
  {
    var r := Rank(term, hits);
    RankStable(term, hits, r[0].score);
    assert r == [r[0]] + r[1..];
    WithScoreCons(r[0], r[1..], r[0].score);
  }
}
