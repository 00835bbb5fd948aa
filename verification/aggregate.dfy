/**
 Merging the search results of `findBestMatch`. Each query's search is an
 input outcome: `None` when the request failed, threw or came back without
 results, otherwise the hits in the order the search index returned them.
 */
module Aggregate {
  import opened Options
  import opened Text

  /** One search hit: its title (the identity) and its snippet, which may be absent. */
  datatype Hit = Hit(title: string, snippet: Option<string>)

  type SearchOutcome = Option<seq<Hit>>

  /** What an outcome contributes: its hits, or nothing on failure. */
  function HitsOf(o: SearchOutcome): seq<Hit> {
    match o
    case Some(hs) => hs
    case None => []
  }

  /** `bestResults = bestResults.concat(...)` over the plan's outcomes, in plan order. */
  function Collect(outcomes: seq<SearchOutcome>): (r: seq<Hit>)
    ensures |outcomes| == 0 ==> r == []
    ensures forall h :: h in r ==> exists i :: 0 <= i < |outcomes| && h in HitsOf(outcomes[i])
  {
    if |outcomes| == 0 then []
    else
      var init := outcomes[..|outcomes| - 1];
      assert forall i :: 0 <= i < |init| ==> init[i] == outcomes[i];
      Collect(init) + HitsOf(outcomes[|outcomes| - 1])
  }

  /** Collecting a concatenation concatenates the collections. */
  lemma {:induction false} CollectAppend(xs: seq<SearchOutcome>, ys: seq<SearchOutcome>)
    ensures Collect(xs + ys) == Collect(xs) + Collect(ys)
    decreases |ys|
  {
    if |ys| == 0 {
      assert xs + ys == xs;
    } else {
      var ys', last := ys[..|ys| - 1], ys[|ys| - 1];
      assert (xs + ys)[..|xs + ys| - 1] == xs + ys';
      assert (xs + ys)[|xs + ys| - 1] == last;
      assert Collect(xs + ys) == Collect(xs + ys') + HitsOf(last);
      CollectAppend(xs, ys');
      assert Collect(ys) == Collect(ys') + HitsOf(last);
    }
  }

  /** Collecting outcomes in front of one more adds its hits at the end. */
  lemma CollectSnoc(xs: seq<SearchOutcome>, o: SearchOutcome)
    ensures Collect(xs + [o]) == Collect(xs) + HitsOf(o)
  {
    assert (xs + [o])[..|xs|] == xs;
  }

  /** A query that failed contributes nothing, and removes nothing the other queries found. */
  lemma FailedQueryContributesNothing(xs: seq<SearchOutcome>, ys: seq<SearchOutcome>)
    ensures Collect(xs + [None] + ys) == Collect(xs) + Collect(ys)
  {
    CollectAppend(xs + [None], ys);
    CollectSnoc(xs, None);
  }

  /** The collected hits are exactly the hits of the successful outcomes. */
  lemma {:induction false} CollectMembers(outcomes: seq<SearchOutcome>, h: Hit)
    ensures h in Collect(outcomes) <==> exists i :: 0 <= i < |outcomes| && h in HitsOf(outcomes[i])
  {
    if |outcomes| > 0 {
      var init := outcomes[..|outcomes| - 1];
      CollectMembers(init, h);
      if h in Collect(outcomes) && h !in HitsOf(outcomes[|outcomes| - 1]) {
        var i :| 0 <= i < |init| && h in HitsOf(init[i]);
        assert outcomes[i] == init[i];
      }
      if exists i :: 0 <= i < |outcomes| && h in HitsOf(outcomes[i]) {
        var i :| 0 <= i < |outcomes| && h in HitsOf(outcomes[i]);
        if i < |init| {
          assert init[i] == outcomes[i];
        }
      }
    }
  }

  /** The Wikidata entityLabel triggers the bonus search only when non-empty and different from the term up to case. */
  predicate BonusEligible(term: string, entityLabel: Option<string>) {
    entityLabel.Some? && entityLabel.value != "" && DiffersIgnoringCase(entityLabel.value, term)
  }

  /**
   The merged list: the bonus search's hits, when it was eligible and succeeded,
   prepended to the plan's hits in plan order.
   */
  function Merge(term: string, outcomes: seq<SearchOutcome>, entityLabel: Option<string>, bonus: SearchOutcome): (r: seq<Hit>)
    ensures |Collect(outcomes)| <= |r| && r[|r| - |Collect(outcomes)|..] == Collect(outcomes)
    ensures r[..|r| - |Collect(outcomes)|] == if BonusEligible(term, entityLabel) then HitsOf(bonus) else []
    ensures forall h :: h in r <==>
      || (exists i :: 0 <= i < |outcomes| && h in HitsOf(outcomes[i]))
      || (BonusEligible(term, entityLabel) && h in HitsOf(bonus))
  {
    var plan := Collect(outcomes);
    var front := if BonusEligible(term, entityLabel) then HitsOf(bonus) else [];
    assert forall h :: h in plan <==> exists i :: 0 <= i < |outcomes| && h in HitsOf(outcomes[i]) by {
      forall h ensures h in plan <==> exists i :: 0 <= i < |outcomes| && h in HitsOf(outcomes[i]) {
        CollectMembers(outcomes, h);
      }
    }
    assert (front + plan)[|front|..] == plan && (front + plan)[..|front|] == front;
    front + plan
  }
}
