/**
 The entry point `window.function` and the whole of `findBestMatch`, with every
 network call replaced by an input: the two translation replies, one reply per
 search request, and the first Wikidata label.
 */
module Entry {
  import opened Options
  import opened Text
  import opened Translation
  import opened QueryPlan
  import opened Aggregate
  import opened Ranking

  /** The strings `String(keyword).trim()` yields for a missing or unusable keyword. */
  predicate IsSentinel(s: string) {
    s == "" || s == "undefined" || s == "null" || s == "[object Object]"
  }

  /** The keyword check: the trimmed keyword, or `None` for the "Keyword is required" error. */
  function CheckKeyword(keyword: string): (r: Option<string>)
    ensures r.None? <==> IsSentinel(Trim(keyword))
    ensures r.Some? ==> r.value == Trim(keyword) && r.value != "" && IsTrimmed(r.value)
  {
    var term := Trim(keyword);
    if IsSentinel(term) then None else Some(term)
  }

  /** A keyword that passed the check passes it again unchanged. */
  lemma CheckKeywordIdempotent(keyword: string)
    requires CheckKeyword(keyword).Some?
    ensures CheckKeyword(CheckKeyword(keyword).value) == CheckKeyword(keyword)
  {
    TrimIdempotent(keyword);
  }

  /** What `findBestMatch` hands back: the ranked results, the translation, and the plan it searched. */
  datatype MatchResult = MatchResult(results: seq<Scored>, translation: Option<Outcome>, searchTermsUsed: seq<string>)

  /**
   One reply per request: a reply for every query of the plan, in plan order.
   Each request is independent, so the same query text may succeed once and
   fail another time.
   */
  predicate RepliesFit(term: string, myMemory: Option<MyMemoryReply>, libre: Option<string>, outcomes: seq<SearchOutcome>) {
    |outcomes| == |Plan(term, Resolve(term, myMemory, libre))|
  }

  /**
   `findBestMatch`: translate, plan, search, merge, de-duplicate, score, rank.
   `outcomes[i]` is the reply to the search for query `i` of the plan, and
   `bonus` the reply to the search for the Wikidata label (consulted only when
   the label is eligible). The result lists each title at most once, sorted by
   non-increasing score in [0, 1.2]; its entries are the first merged hit of
   each title with its relevance score.
   */
  function FindBestMatch(term: string, myMemory: Option<MyMemoryReply>, libre: Option<string>,
                         outcomes: seq<SearchOutcome>, entityLabel: Option<string>, bonus: SearchOutcome): (r: MatchResult)
    requires RepliesFit(term, myMemory, libre, outcomes)
    ensures r.translation == Resolve(term, myMemory, libre)
    ensures r.searchTermsUsed == Plan(term, r.translation) && |r.searchTermsUsed| == |outcomes|
    ensures SortedDesc(r.results) && DistinctTitles(r.results) && ScoresInRange(r.results)
    ensures multiset(r.results) == multiset(ScoreAll(term, Dedup(Merge(term, outcomes, entityLabel, bonus))))
    ensures ScoredTitles(r.results) == Titles(Merge(term, outcomes, entityLabel, bonus))
  {
    var translation := Resolve(term, myMemory, libre);
    MatchResult(Rank(term, Merge(term, outcomes, entityLabel, bonus)), translation, Plan(term, translation))
  }

  /** Every ranked entry is the first merged hit with its title, scored by its relevance. */
  lemma ResultsAreFirstHitsScored(term: string, myMemory: Option<MyMemoryReply>, libre: Option<string>,
                                  outcomes: seq<SearchOutcome>, entityLabel: Option<string>, bonus: SearchOutcome, i: nat)
    requires RepliesFit(term, myMemory, libre, outcomes)
    requires i < |FindBestMatch(term, myMemory, libre, outcomes, entityLabel, bonus).results|
    ensures var merged := Merge(term, outcomes, entityLabel, bonus);
      var e := FindBestMatch(term, myMemory, libre, outcomes, entityLabel, bonus).results[i];
      && e.hit.title in Titles(merged) && e.hit == FirstWithTitle(merged, e.hit.title)
      && e.score == Relevance(term, e.hit)
  {
    var merged := Merge(term, outcomes, entityLabel, bonus);
    RankKeepsFirstHits(term, merged, i);
    RankScoresAreRelevance(term, merged, i);
  }

  /**
   The page is the earliest merged entry with the top score: the bonus hits
   come first in the merged list, so among equally scored titles a bonus hit
   is ranked ahead of every plan hit.
   */
  lemma PageIsEarliestTopScored(term: string, myMemory: Option<MyMemoryReply>, libre: Option<string>,
                                outcomes: seq<SearchOutcome>, entityLabel: Option<string>, bonus: SearchOutcome)
    requires RepliesFit(term, myMemory, libre, outcomes)
    requires |FindBestMatch(term, myMemory, libre, outcomes, entityLabel, bonus).results| > 0
    ensures var m := FindBestMatch(term, myMemory, libre, outcomes, entityLabel, bonus);
      var ties := WithScore(ScoreAll(term, Dedup(Merge(term, outcomes, entityLabel, bonus))), m.results[0].score);
      |ties| > 0 && ties[0] == m.results[0]
  {
    RankHeadIsEarliestTop(term, Merge(term, outcomes, entityLabel, bonus));
  }

  /** The titles of a merged list are those of the plan's successful searches, plus the eligible bonus search. */
  lemma MergedTitles(term: string, outcomes: seq<SearchOutcome>, entityLabel: Option<string>, bonus: SearchOutcome, t: string)
    ensures t in Titles(Merge(term, outcomes, entityLabel, bonus)) <==>
      || (exists i :: 0 <= i < |outcomes| && t in Titles(HitsOf(outcomes[i])))
      || (BonusEligible(term, entityLabel) && t in Titles(HitsOf(bonus)))
  {
    var merged := Merge(term, outcomes, entityLabel, bonus);
    if t in Titles(merged) {
      var h :| h in merged && h.title == t;
      if !(BonusEligible(term, entityLabel) && h in HitsOf(bonus)) {
        var i :| 0 <= i < |outcomes| && h in HitsOf(outcomes[i]);
        assert t in Titles(HitsOf(outcomes[i]));
      }
    }
    if exists i :: 0 <= i < |outcomes| && t in Titles(HitsOf(outcomes[i])) {
      var i :| 0 <= i < |outcomes| && t in Titles(HitsOf(outcomes[i]));
      var h :| h in HitsOf(outcomes[i]) && h.title == t;
      assert h in merged;
    }
  }

  /** The first hit with title `t` in a list with `front` prepended is the first in `front`, when `front` has one. */
  lemma {:induction false} FirstWithTitlePrepend(front: seq<Hit>, back: seq<Hit>, t: string)
    requires t in Titles(front)
    ensures t in Titles(front + back)
    ensures FirstWithTitle(front + back, t) == FirstWithTitle(front, t)
  {
    var h :| h in front && h.title == t;
    assert h in front + back;
    if front[0].title != t {
      assert (front + back)[1..] == front[1..] + back;
      assert h != front[0];
      assert h in front[1..];
      FirstWithTitlePrepend(front[1..], back, t);
    }
  }

  /**
   The Wikidata bonus hits take priority on a shared title: the ranked entry for
   any title the bonus search returned is the bonus search's own first hit with
   that title, whatever the plan's searches returned for it.
   */
  lemma BonusWinsSharedTitles(term: string, myMemory: Option<MyMemoryReply>, libre: Option<string>,
                              outcomes: seq<SearchOutcome>, entityLabel: Option<string>, bonus: SearchOutcome, i: nat)
    requires RepliesFit(term, myMemory, libre, outcomes)
    requires BonusEligible(term, entityLabel)
    requires i < |FindBestMatch(term, myMemory, libre, outcomes, entityLabel, bonus).results|
    requires FindBestMatch(term, myMemory, libre, outcomes, entityLabel, bonus).results[i].hit.title in Titles(HitsOf(bonus))
    ensures var e := FindBestMatch(term, myMemory, libre, outcomes, entityLabel, bonus).results[i];
      e.hit == FirstWithTitle(HitsOf(bonus), e.hit.title)
  {
    var m := FindBestMatch(term, myMemory, libre, outcomes, entityLabel, bonus);
    var merged := Merge(term, outcomes, entityLabel, bonus);
    var front := HitsOf(bonus);
    var back := Collect(outcomes);
    assert m.results == Rank(term, merged);
    RankKeepsFirstHits(term, merged, i);
    assert merged == front + back;
    FirstWithTitlePrepend(front, back, m.results[i].hit.title);
  }

  /** With every search failing there is nothing to rank, whatever the translators or Wikidata said. */
  lemma AllSearchesFail(term: string, myMemory: Option<MyMemoryReply>, libre: Option<string>,
                        outcomes: seq<SearchOutcome>, entityLabel: Option<string>)
    requires RepliesFit(term, myMemory, libre, outcomes)
    requires forall i :: 0 <= i < |outcomes| ==> outcomes[i].None?
    ensures FindBestMatch(term, myMemory, libre, outcomes, entityLabel, None).results == []
  {
    var m := FindBestMatch(term, myMemory, libre, outcomes, entityLabel, None);
    var merged := Merge(term, outcomes, entityLabel, None);
    forall t ensures t !in Titles(merged) {
      MergedTitles(term, outcomes, entityLabel, None, t);
    }
    assert ScoredTitles(m.results) == {};
  }

  /**
   Requests are independent even when their query text is the same: for
   "Einstein" without a translation, the raw-term and the capitalized-term
   queries are both "Einstein"; the first request failing and the third
   returning `h` ranks `h` alone.
   */
  lemma IndependentRequests(h: Hit)
    ensures var m := FindBestMatch("Einstein", None, None, [None, None, Some([h])], None, None);
      |m.results| == 1 && m.results[0].hit == h
  {
    var term := "Einstein";
    var outcomes: seq<SearchOutcome> := [None, None, Some([h])];
    EinsteinPlan();
    OnlyThirdSucceeds(h);
    SingleHitRanks(term, h);
    assert Merge(term, outcomes, None, None) == [h];
  }

  /** Two failed requests and one returning `h` collect to `[h]`. */
  lemma OnlyThirdSucceeds(h: Hit)
    ensures Collect([None, None, Some([h])]) == [h]
  {
    var none: seq<SearchOutcome> := [];
    var one: seq<SearchOutcome> := [None];
    var two: seq<SearchOutcome> := [None, None];
    CollectSnoc(none, None);
    assert none + [None] == one;
    CollectSnoc(one, None);
    assert one + [None] == two;
    CollectSnoc(two, Some([h]));
    assert two + [Some([h])] == [None, None, Some([h])];
  }

  /** A single merged hit is ranked alone. */
  lemma SingleHitRanks(term: string, h: Hit)
    ensures |Rank(term, [h])| == 1 && Rank(term, [h])[0].hit == h
  {
    assert Dedup([h]) == [h] by {
      var none: set<string> := {};
      assert Walk([h], none) == [h] + Walk([], {h.title});
    }
    var r := Rank(term, [h]);
    assert multiset(r) == multiset{Scored(h, Relevance(term, h))};
    assert |r| == |multiset(r)|;
    assert r[0] in multiset(r);
  }

  /** `results.slice(1, 4)`: up to three runners-up after the best match. */
  function Alternatives(results: seq<Scored>): (r: seq<Scored>)
    ensures |r| == if |results| <= 1 then 0 else if |results| >= 4 then 3 else |results| - 1
    ensures forall k :: 0 <= k < |r| ==> r[k] == results[k + 1]
  {
    if |results| <= 1 then [] else if |results| >= 4 then results[1..4] else results[1..]
  }

  /** On a ranked list the runners-up never repeat the best title and never outscore it. */
  lemma AlternativesBelowBest(results: seq<Scored>)
    requires SortedDesc(results) && DistinctTitles(results) && |results| > 0
    ensures forall k :: 0 <= k < |Alternatives(results)| ==>
      Alternatives(results)[k].hit.title != results[0].hit.title
      && Alternatives(results)[k].score <= results[0].score
  {
  }

  /** The part of the response decided by the matcher, before any image is fetched. */
  datatype Response =
    | KeywordRequired
    | NoArticles(keyword: string, translation: Option<Outcome>, searchTermsUsed: seq<string>)
    | Matched(keyword: string, pageTitle: string, relevanceScore: real, alternatives: seq<Scored>,
              translation: Option<Outcome>, searchTermsUsed: seq<string>)

  /** The response for a checked term once its ranking is known. */
  function RespondWith(term: string, m: MatchResult): (r: Response)
    requires SortedDesc(m.results) && DistinctTitles(m.results) && ScoresInRange(m.results)
    ensures r.NoArticles? <==> |m.results| == 0
    ensures !r.KeywordRequired? && r.keyword == term && r.searchTermsUsed == m.searchTermsUsed
    ensures !r.KeywordRequired? ==> r.translation == m.translation
    ensures r.Matched? ==> |m.results| > 0 && r.pageTitle == m.results[0].hit.title && r.relevanceScore == m.results[0].score
    ensures r.Matched? ==> r.alternatives == Alternatives(m.results)
    ensures r.Matched? ==> forall k :: 0 <= k < |r.alternatives| ==>
      r.alternatives[k].hit.title != r.pageTitle && r.alternatives[k].score <= r.relevanceScore
    ensures r.Matched? ==> 0.0 <= r.relevanceScore <= 1.0 + SnippetBonus
  {
    if |m.results| == 0 then NoArticles(term, m.translation, m.searchTermsUsed)
    else
      AlternativesBelowBest(m.results);
      Matched(term, m.results[0].hit.title, m.results[0].score, Alternatives(m.results),
              m.translation, m.searchTermsUsed)
  }

  /**
   The replies fit the plan of the keyword's trimmed term; a rejected keyword
   issues no request, so any replies do.
   */
  predicate RepliesFitKeyword(keyword: string, myMemory: Option<MyMemoryReply>, libre: Option<string>, outcomes: seq<SearchOutcome>) {
    IsSentinel(Trim(keyword)) || RepliesFit(Trim(keyword), myMemory, libre, outcomes)
  }

  /**
   `window.function` up to the page-image fetch: reject a sentinel keyword,
   report "no articles" on an empty ranking, otherwise take the head of the
   ranking as the page and the next three as alternatives.
   */
  function Respond(keyword: string, myMemory: Option<MyMemoryReply>, libre: Option<string>,
                   outcomes: seq<SearchOutcome>, entityLabel: Option<string>, bonus: SearchOutcome): (r: Response)
    requires RepliesFitKeyword(keyword, myMemory, libre, outcomes)
    ensures r.KeywordRequired? <==> CheckKeyword(keyword).None?
    ensures !r.KeywordRequired? ==> r.keyword == Trim(keyword) && r.keyword != ""
    ensures !r.KeywordRequired? ==> |r.searchTermsUsed| >= 3 && r.searchTermsUsed[|r.searchTermsUsed| - 3] == r.keyword
    ensures !r.KeywordRequired? ==>
      var m := FindBestMatch(Trim(keyword), myMemory, libre, outcomes, entityLabel, bonus);
      && r.translation == m.translation
      && r.searchTermsUsed == m.searchTermsUsed
      && (r.NoArticles? <==> |m.results| == 0)
      && (r.Matched? ==> r.pageTitle == m.results[0].hit.title && r.relevanceScore == m.results[0].score
                         && r.alternatives == Alternatives(m.results))
  {
    match CheckKeyword(keyword)
    case None => KeywordRequired
    case Some(term) => RespondWith(term, FindBestMatch(term, myMemory, libre, outcomes, entityLabel, bonus))
  }

  /** Commons titles that are icons, logos, SVGs, buttons, symbols or Wikimedia branding are rejected. */
  predicate Excluded(lowered: string) {
    || Contains(lowered, "icon") || Contains(lowered, "logo") || Contains(lowered, ".svg")
    || Contains(lowered, "button") || Contains(lowered, "symbol") || Contains(lowered, "wikimedia")
  }

  /** Only titles that look like raster photographs are kept. */
  predicate HasImageExtension(lowered: string) {
    Contains(lowered, ".jpg") || Contains(lowered, ".jpeg") || Contains(lowered, ".png") || Contains(lowered, ".gif")
  }

  /** The filter predicate, applied to the lower-cased title. */
  predicate IsPhotoTitle(title: string) {
    !Excluded(Lower(title)) && HasImageExtension(Lower(title))
  }

  /** `a` is a subsequence of `b`: its elements occur in `b` in the same order. */
  predicate IsSubsequence<T(==)>(a: seq<T>, b: seq<T>) {
    |a| == 0 || (|b| > 0 && if a[0] == b[0] then IsSubsequence(a[1..], b[1..]) else IsSubsequence(a, b[1..]))
  }

  /** A prefix of a subsequence is a subsequence. */
  lemma {:induction false} SubsequencePrefix<T>(a: seq<T>, b: seq<T>, n: nat)
    requires IsSubsequence(a, b) && n <= |a|
    ensures IsSubsequence(a[..n], b)
  {
    if n > 0 {
      assert a[..n][0] == a[0];
      if a[0] == b[0] {
        assert a[..n][1..] == a[1..][..n - 1];
        SubsequencePrefix(a[1..], b[1..], n - 1);
      } else {
        SubsequencePrefix(a, b[1..], n);
      }
    }
  }

  /** `searchResults.filter(...)`, on the titles: the passing titles, in order. */
  function KeepPhotos(titles: seq<string>): (r: seq<string>)
    ensures |r| <= |titles|
    ensures IsSubsequence(r, titles)
    ensures forall k :: 0 <= k < |r| ==> IsPhotoTitle(r[k])
    ensures forall t :: t in titles && IsPhotoTitle(t) ==> t in r
  {
    if |titles| == 0 then []
    else
      var rest := KeepPhotos(titles[1..]);
      if IsPhotoTitle(titles[0]) then
        assert ([titles[0]] + rest)[1..] == rest;
        [titles[0]] + rest
      else
        assert |rest| == 0 || rest[0] != titles[0];
        rest
  }

  /** Each passing title is kept exactly as often as it occurs; any other title never. */
  lemma {:induction false} KeepPhotosCounts(titles: seq<string>, t: string)
    ensures multiset(KeepPhotos(titles))[t] == if IsPhotoTitle(t) then multiset(titles)[t] else 0
  {
    if |titles| > 0 {
      var rest := titles[1..];
      KeepPhotosCounts(rest, t);
      assert titles == [titles[0]] + rest;
      assert multiset(titles) == multiset{titles[0]} + multiset(rest);
      if IsPhotoTitle(titles[0]) {
        assert KeepPhotos(titles) == [titles[0]] + KeepPhotos(rest);
        assert multiset(KeepPhotos(titles)) == multiset{titles[0]} + multiset(KeepPhotos(rest));
      } else {
        assert KeepPhotos(titles) == KeepPhotos(rest);
      }
    }
  }

  /** The Commons image filter followed by `.slice(0, 5)`: the first five passing titles. */
  function CommonsImages(titles: seq<string>): (r: seq<string>)
    ensures |r| == if |KeepPhotos(titles)| < 5 then |KeepPhotos(titles)| else 5
    ensures r == KeepPhotos(titles)[..|r|]
    ensures IsSubsequence(r, titles)
    ensures forall k :: 0 <= k < |r| ==> IsPhotoTitle(r[k])
    ensures |r| < 5 ==> r == KeepPhotos(titles)
  {
    var kept := KeepPhotos(titles);
    var n := if |kept| <= 5 then |kept| else 5;
    SubsequencePrefix(kept, titles, n);
    assert n == |kept| ==> kept[..n] == kept;
    kept[..n]
  }

  /** Which passing titles are kept does not depend on anything after the fifth of them. */
  lemma {:induction false} CommonsImagesFirstFive(titles: seq<string>, more: seq<string>)
    requires |KeepPhotos(titles)| >= 5
    ensures CommonsImages(titles + more) == CommonsImages(titles)
  {
    KeepPhotosAppend(titles, more);
    assert (KeepPhotos(titles) + KeepPhotos(more))[..5] == KeepPhotos(titles)[..5];
  }

  /** Filtering distributes over concatenation. */
  lemma {:induction false} KeepPhotosAppend(xs: seq<string>, ys: seq<string>)
    ensures KeepPhotos(xs + ys) == KeepPhotos(xs) + KeepPhotos(ys)
  {
    if |xs| > 0 {
      assert (xs + ys)[0] == xs[0];
      assert (xs + ys)[1..] == xs[1..] + ys;
      KeepPhotosAppend(xs[1..], ys);
    } else {
      assert xs + ys == ys;
    }
  }
}
