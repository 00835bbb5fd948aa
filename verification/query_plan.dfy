/**
 The search strategies of `findBestMatch`: the kept translation first (when it
 is non-empty), then the raw term, the term in double quotes, and the term with
 its first character upper-cased and the rest lower-cased.
 */
module QueryPlan {
  import opened Options
  import opened Text
  import opened Translation

  /** The exact-phrase variant `"term"`. */
  function Quoted(term: string): (r: string)
    ensures |r| == |term| + 2 && r[0] == '"' && r[|r| - 1] == '"' && r[1..|r| - 1] == term
  {
    "\"" + term + "\""
  }

  /** A translation enters the plan only when its text is truthy, i.e. non-empty. */
  predicate UsesTranslation(t: Option<Outcome>) {
    t.Some? && t.value.text != ""
  }

  function Plan(term: string, t: Option<Outcome>): (r: seq<string>)
    ensures UsesTranslation(t) ==> |r| == 4 && r[0] == t.value.text
    ensures !UsesTranslation(t) ==> |r| == 3 && r[0] == term
    ensures r[|r| - 3] == term
    ensures r[|r| - 2] == Quoted(term)
    ensures r[|r| - 1] == Capitalize(term)
  {
    (if UsesTranslation(t) then [t.value.text] else []) + [term, Quoted(term), Capitalize(term)]
  }

  /** Every query but the translated one is built from the term itself, and differs from it at most in case or quoting. */
  lemma PlanVariantsOfTerm(term: string, t: Option<Outcome>)
    ensures var p := Plan(term, t);
      Lower(p[|p| - 1]) == Lower(term) && p[|p| - 2][1..|p[|p| - 2]| - 1] == term
  {
    CapitalizeSameUpToCase(term);
  }

  /** With neither provider yielding a translation, the plan is exactly the three term variants. */
  lemma PlanWithoutTranslation(term: string, reply: Option<MyMemoryReply>, libre: Option<string>)
    requires FromMyMemory(term, reply).None? && FromLibreTranslate(term, libre).None?
    ensures Plan(term, Resolve(term, reply, libre)) == [term, Quoted(term), Capitalize(term)]
  {
  }

  /** A MyMemory translation always leads the plan, ahead of the raw term. */
  lemma PlanLedByMyMemory(term: string, reply: Option<MyMemoryReply>, libre: Option<string>)
    requires FromMyMemory(term, reply).Some?
    ensures var p := Plan(term, Resolve(term, reply, libre));
      |p| == 4 && p[0] == FromMyMemory(term, reply).value && p[0] != term && p[1] == term
  {
  }

  /**
   A term already capitalized gives a plan whose last entry repeats the first:
   for "Einstein" the plan is ["Einstein", "\"Einstein\"", "Einstein"].
   */
  lemma EinsteinPlan()
    ensures Plan("Einstein", None) == ["Einstein", "\"Einstein\"", "Einstein"]
  {
    assert Capitalize("Einstein") == "Einstein";
    assert Quoted("Einstein") == "\"Einstein\"";
  }
}
