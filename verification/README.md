# Wikipedia keyword matcher — Dafny model

This project models the match-resolution engine of `function.js`: the part of
the Glide column function that turns a free-form, possibly non-English keyword
into a ranked list of Wikipedia article titles. It covers

- `levenshteinDistance` and `calculateSimilarity` (edit distance and the
  normalised similarity score);
- the translation chain of `findBestMatch` (MyMemory, then LibreTranslate);
- the query plan (translation, raw term, quoted term, capitalized term);
- merging the plan's search results with the Wikidata bonus search;
- de-duplication by title (first hit wins), relevance scoring (similarity plus
  a 0.2 snippet bonus) and the stable descending sort;
- from `window.function`: the keyword check, the choice of page title and the
  up to three alternatives, and the Commons image-title filter.

Every network call is an input. A translation reply, a search reply or the
Wikidata label is an `Option`: `None` stands for a request that failed, threw,
answered with a non-success status or carried no usable payload, which the
source treats as "no contribution". Each search request has its own reply:
`outcomes[i]` answers query `i` of the plan and `bonus` answers the search for
the Wikidata label, so two requests with the same query text can fare
differently (`Entry.IndependentRequests`). Scores are exact `real`s.

Modules, one per component, leaf first: `Options`, `Text` (case mapping,
`trim`, `includes`), `EditDistance`, `SimilarityScorer`, `Translation`,
`QueryPlan`, `Aggregate`, `Ranking`, `Entry`.

Two consequences of the code are worth stating outright:

- A LibreTranslate translation can equal the term. That branch compares the
  untrimmed reply with the term and trims it afterwards, so `"Pies "` for the
  term `"Pies"` is kept as `"Pies"`, and an all-white-space reply is kept as
  `""` (which then drops out of the plan because it is falsy). Only the
  MyMemory branch, which trims before comparing, guarantees a translation
  different from the term (`Translation.LibreTranslateMayKeepTheTerm`).
- The Wikidata bonus hits are prepended to the merged list and the ranking is
  a stable sort by score, so the bonus search decides two things and no more:
  on a title both the bonus search and a plan search returned, the bonus
  search's hit is the one kept (`Entry.BonusWinsSharedTitles`); and among
  entries of equal score, a bonus hit is ranked ahead of every plan hit, so a
  tie for the top score goes to the bonus search
  (`Entry.PageIsEarliestTopScored`). A plan hit that scores higher than every
  bonus hit is still ranked first.

## Model

| member | source | states |
|---|---|---|
| EditDistance.LevenshteinDistance | function.js:4-30 | The full matrix computation returns exactly the edit distance `Dist(a, b)` defined by the cell recurrence |
| EditDistance.FillRow | function.js:15-27 | Each inner pass fills row `i` so that cell `j` holds the distance between `a[..j]` and `b[..i]` |
| EditDistance.DistCell | function.js:17-25 | One cell: equal characters copy the diagonal, otherwise one plus the least of diagonal, left and upper neighbours |
| EditDistance.DistSelf | function.js:4-30 | A string is at distance 0 from itself |
| EditDistance.DistSymmetric | function.js:4-30 | The distance does not depend on argument order |
| EditDistance.DistAtLeastLengthGap | function.js:4-30 | The distance is at least the difference of the two lengths |
| EditDistance.DistAtMostLonger | function.js:4-30 | The distance is at most the longer length |
| EditDistance.DistZeroIff | function.js:4-30 | Distance 0 holds exactly for equal strings |
| SimilarityScorer.Ratio | function.js:40 | `(n - d) / n` lies in [0, 1] and is 1 exactly when `d` is 0 |
| SimilarityScorer.Similarity | function.js:33-41 | Score in [0, 1]; 1.0 for two empty strings; 1.0 exactly when the strings are equal up to case |
| SimilarityScorer.SimilaritySymmetric | function.js:33-41 | Swapping the arguments leaves the score unchanged, including for equal lengths where the second argument is taken as the longer |
| Text.Trim | function.js:227 | The trimmed string has no white space at either end and is the infix of the input surrounded only by white space |
| Text.Lower | function.js:39 | Length-preserving and per character: every character is mapped by the ASCII lower-case map |
| Text.LowerIdempotent | function.js:39 | Lower-casing twice is lower-casing once, and no ASCII capital remains |
| Text.TrimIdempotent | function.js:227 | Trimming twice is trimming once |
| Text.TrimCharacterised | function.js:227 | Any trimmed infix with only white space around it is the trim, so the contract of `Text.Trim` determines its result |
| Text.TrimStartAt | function.js:227 | Leading white space up to the first other character is exactly what is dropped at the start |
| Text.TrimEndAt | function.js:227 | Trailing white space after the last other character is exactly what is dropped at the end |
| Text.ContainsIffOccurs | function.js:198 | The left-to-right `includes` scan succeeds exactly when the substring occurs at some index |
| Text.Capitalize | function.js:115 | Same length; first character upper-cased, every other character lower-cased |
| Text.CapitalizeIdempotent | function.js:115 | Capitalizing the capitalized variant changes nothing |
| Translation.FromMyMemory | function.js:55-69 | A translation is kept exactly when the status is 200, the text is non-empty, and its trimmed form is non-empty and differs from the term up to case; the kept value is that trimmed form |
| Translation.FromLibreTranslate | function.js:92-100 | Kept exactly when the untrimmed text is non-empty and differs from the term up to case; the kept value is the trimmed text |
| Translation.Resolve | function.js:46-104 | MyMemory's translation wins when present, LibreTranslate's otherwise, none when both give nothing; a MyMemory result always differs from the term |
| Translation.MyMemoryShortCircuits | function.js:76 | Once MyMemory succeeded, LibreTranslate's reply cannot change the outcome |
| Translation.LibreTranslateMayKeepTheTerm | function.js:94-97 | LibreTranslate's `"Pies "` for the term `"Pies"` is stored as the term itself |
| Translation.MyMemoryRejectsTheTerm | function.js:60-64 | The same reply through MyMemory is rejected because it is trimmed before the comparison |
| QueryPlan.Plan | function.js:107-116 | Four queries led by the translation when one is used, otherwise three led by the raw term; the last three are always term, quoted term, capitalized term |
| QueryPlan.Quoted | function.js:113 | The exact-phrase query is the term with one double quote added at each end |
| QueryPlan.PlanVariantsOfTerm | function.js:111-115 | The capitalized query equals the term up to case and the quoted query wraps exactly the term |
| QueryPlan.PlanWithoutTranslation | function.js:107-116 | When neither MyMemory nor LibreTranslate yields a translation (failed or rejected), the plan is exactly `[term, "term", Capitalize(term)]` |
| QueryPlan.PlanLedByMyMemory | function.js:107-111 | A MyMemory translation is the first of four queries, differs from the term, and is followed by the term |
| QueryPlan.EinsteinPlan | function.js:107-116 | For "Einstein" the plan is `["Einstein", "\"Einstein\"", "Einstein"]` |
| Aggregate.CollectAppend | function.js:120-140 | Collecting two runs of queries is collecting each and concatenating, so plan order is kept |
| Aggregate.FailedQueryContributesNothing | function.js:123-139 | A failed query adds no hits and removes none of the other queries' hits |
| Aggregate.CollectMembers | function.js:131-135 | A hit is collected exactly when some successful query returned it |
| Aggregate.Collect | function.js:120-140 | No outcomes collect nothing, and every collected hit was returned by some successful request |
| Aggregate.Merge | function.js:164-178 | The plan's collected hits form the tail of the merged list, the eligible bonus hits (or nothing) its head, and a hit is merged exactly when a successful plan request or the eligible bonus request returned it |
| Ranking.WalkKeepsFirstOfEachTitle | function.js:189-205 | The `seen`-set walk keeps titles pairwise distinct, keeps exactly the input titles not already seen, and every kept hit is the first input hit with its title |
| Ranking.Walk | function.js:192-195 | The walk keeps no more hits than it is given, each one an input hit whose title was not yet seen |
| Ranking.Dedup | function.js:189-205 | From an empty `seen` set: titles pairwise distinct, no longer than the input, exactly the input titles, and each kept hit is the first input hit with its title |
| Ranking.WalkStepAt | function.js:192-195 | At hit `k`, with the earlier titles as the seen set, the walk keeps the hit exactly when it is the first of its title |
| Ranking.WalkKeepsFirsts | function.js:189-205 | From any index on, the walk keeps exactly the hits that are first of their title, in input order |
| Ranking.DedupKeepsFirsts | function.js:189-205 | The de-duplicated list equals the reference list of hits that are first of their title, in input order |
| Ranking.Relevance | function.js:197-202 | The score is the similarity plus 0.2 when the snippet contains the term up to case and the similarity alone otherwise; it lies in [0, 1.2] |
| Ranking.ScoreAll | function.js:197-203 | Each kept hit, in order, paired with its relevance score |
| Ranking.Insert | function.js:208 | Inserting into a non-increasing list keeps it non-increasing and adds exactly the inserted entry |
| Ranking.InsertStable | function.js:208 | The inserted entry goes ahead of its equal-score ties and their order is kept |
| Ranking.SortByScore | function.js:208 | The output is a permutation of the input sorted by non-increasing score |
| Ranking.SortByScoreStable | function.js:208 | For every score, the entries with that score keep their input order |
| Ranking.PermutationKeepsDistinctTitles | function.js:189-208 | Reordering entries with distinct titles keeps them distinct |
| Ranking.Rank | function.js:188-208 | Sorted non-increasing, a permutation of the scored de-duplicated hits, distinct titles, titles equal to the merged hits' titles, scores in [0, 1.2] |
| Ranking.RankStable | function.js:188-208 | For every score, the ranked entries with that score are the scored first-of-title hits with that score, in merged order |
| Ranking.RankHeadIsEarliestTop | function.js:188-208 | The ranked head is the earliest scored first-of-title hit carrying the top score |
| Ranking.DedupExample | function.js:192-195 | Two hits titled "A" leave only the first, with its own snippet |
| Ranking.RankKeepsFirstHits | function.js:189-208 | Sorting keeps first-seen-wins: every ranked entry carries the first merged hit with its title |
| Ranking.RankScoresAreRelevance | function.js:197-208 | Sorting keeps each entry's score attached to its own hit: every ranked score is the relevance of that entry's hit |
| Entry.CheckKeyword | function.js:227-237 | The keyword is rejected exactly when its trimmed form is empty, "undefined", "null" or "[object Object]"; otherwise the trimmed form is the term |
| Entry.CheckKeywordIdempotent | function.js:227-230 | An accepted term passes the check again unchanged |
| Entry.FindBestMatch | function.js:44-216 | Reports the resolved translation and the plan searched; the results are a permutation of the scored first-of-title merged hits, with distinct titles, non-increasing scores in [0, 1.2], and exactly the merged hits' titles |
| Entry.ResultsAreFirstHitsScored | function.js:188-208 | Every result entry is the first merged hit with its title, carrying that hit's relevance score |
| Entry.PageIsEarliestTopScored | function.js:164-208 | The page result is the earliest entry, in merged order (bonus hits first), among the scored first-of-title hits with the top score |
| Entry.MergedTitles | function.js:118-186 | A title is among the merged hits exactly when a successful plan request returned it or the eligible Wikidata bonus request did |
| Entry.FirstWithTitlePrepend | function.js:178 | Prepending hits makes their first hit with a title the first overall |
| Entry.BonusWinsSharedTitles | function.js:164-194 | For a title the bonus search returned, the ranked entry is the bonus search's own first hit with that title |
| Entry.AllSearchesFail | function.js:120-186 | When every plan request and the bonus request fail the ranking is empty, whatever the translators and Wikidata said |
| Entry.IndependentRequests | function.js:120-140 | For "Einstein", whose raw and capitalized queries coincide, a failed first request and a successful third one still rank the third one's hit |
| Entry.Alternatives | function.js:448 | `slice(1, 4)`: the up to three entries after the first, in order |
| Entry.AlternativesBelowBest | function.js:446-451 | On a ranked list the alternatives never repeat the page title and never outscore it |
| Entry.RespondWith | function.js:244-259 | "No articles" exactly for an empty ranking; otherwise the page title and score are the head's and the alternatives are exactly `slice(1, 4)` of the ranking, below the head; the translation and plan are carried through |
| Entry.Respond | function.js:218-259 | "Keyword required" exactly for a sentinel keyword; otherwise the trimmed keyword is the term, "no articles" exactly when its ranking is empty, and the page title, score and alternatives are the ranking's head and `slice(1, 4)` |
| Entry.SubsequencePrefix | function.js:399 | A prefix of a subsequence is still a subsequence |
| Entry.KeepPhotos | function.js:389-398 | The kept titles are an in-order subsequence, each passes the photo test, and every passing input title is kept |
| Entry.KeepPhotosCounts | function.js:389-398 | Each passing title is kept exactly as often as it occurs in the input, any other title never |
| Entry.KeepPhotosAppend | function.js:389-398 | Filtering a concatenation concatenates the filtered parts |
| Entry.CommonsImages | function.js:389-399 | Exactly the first min(5, passing) passing titles of the filter, in order; when fewer than five pass, the whole filtered list |
| Entry.CommonsImagesFirstFive | function.js:389-399 | Once five titles pass, later titles cannot change the selection |

## Left out

- Every `fetch`, its URL construction, headers (User-Agent) and JSON parsing: MyMemory, LibreTranslate, Wikipedia search, Wikidata, pageimages, categories and Commons imageinfo. Their results are inputs.
- `async`/`await` and `try`/`catch`: a failure is modelled only as "no contribution" (`None`).
- The page-image, category and Commons imageinfo requests and the attribution/license fallback objects (function.js:262-435); only the Commons title filter is modelled.
- The JSON response bodies and `JSON.stringify`; `Entry.Response` keeps only what the matcher decides.
- `Math.round(x * 100) / 100` on the reported scores: floating-point display rounding.
- Coercion of object keywords (`keyword.value || keyword.keyword || ... || String(keyword)`); the keyword enters as the string `String(keyword)`.
- Full Unicode `toLowerCase`/`toUpperCase`: case mapping is ASCII and per character, so it never changes length; JavaScript's can (for example `"İ".toLowerCase()` has two code units), which could push the similarity outside [0, 1]. The bounds on `SimilarityScorer.Similarity` assume length-preserving lower-casing.
- JavaScript strings are UTF-16 code-unit sequences; the model uses Dafny `char`s.
- IEEE double arithmetic in the score: scores are exact reals.
- `console.log`/`console.error` logging.
- The MyMemory `responseData.match` confidence, which is only logged.
