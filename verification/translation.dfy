/**
 The translation chain of `findBestMatch`: MyMemory first, LibreTranslate only
 when MyMemory produced nothing. Each provider's reply is an input: `None`
 stands for a request that failed, threw or returned a non-success status, and a
 missing or empty `translatedText` is the empty string.
 */
module Translation {
  import opened Options
  import opened Text

  datatype Provider = MyMemory | LibreTranslate

  /** The translated text kept, and the provider that produced it. */
  datatype Outcome = Outcome(text: string, provider: Provider)

  /** The parsed MyMemory body: its `responseStatus` and `responseData.translatedText`. */
  datatype MyMemoryReply = MyMemoryReply(responseStatus: int, translatedText: string)

  /**
   MyMemory branch: the text is trimmed BEFORE it is compared, so a kept
   translation is non-empty, trimmed, and differs from the term up to case.
   */
  function FromMyMemory(term: string, reply: Option<MyMemoryReply>): (r: Option<string>)
    ensures r.Some? <==>
      && reply.Some? && reply.value.responseStatus == 200 && reply.value.translatedText != ""
      && Trim(reply.value.translatedText) != ""
      && DiffersIgnoringCase(Trim(reply.value.translatedText), term)
    ensures r.Some? ==> reply.Some? && r.value == Trim(reply.value.translatedText)
    ensures r.Some? ==> r.value != "" && IsTrimmed(r.value) && DiffersIgnoringCase(r.value, term)
  {
    match reply
    case None => None
    case Some(body) =>
      if body.responseStatus == 200 && body.translatedText != "" then
        var translated := Trim(body.translatedText);
        if translated != "" && DiffersIgnoringCase(translated, term) then Some(translated) else None
      else None
  }

  /**
   LibreTranslate branch: the UNTRIMMED text is compared and only then trimmed,
   so the kept value is trimmed but may be empty or equal to the term up to case.
   */
  function FromLibreTranslate(term: string, reply: Option<string>): (r: Option<string>)
    ensures r.Some? <==> reply.Some? && reply.value != "" && DiffersIgnoringCase(reply.value, term)
    ensures r.Some? ==> reply.Some? && r.value == Trim(reply.value) && IsTrimmed(r.value)
  {
    match reply
    case None => None
    case Some(text) =>
      if text != "" && DiffersIgnoringCase(text, term) then Some(Trim(text)) else None
  }

  /**
   The chain: the MyMemory translation when there is one, otherwise the
   LibreTranslate one, otherwise none. A failing provider only means "no opinion".
   */
  function Resolve(term: string, myMemory: Option<MyMemoryReply>, libre: Option<string>): (r: Option<Outcome>)
    ensures FromMyMemory(term, myMemory).Some? ==>
      r == Some(Outcome(FromMyMemory(term, myMemory).value, MyMemory))
    ensures FromMyMemory(term, myMemory).None? && FromLibreTranslate(term, libre).Some? ==>
      r == Some(Outcome(FromLibreTranslate(term, libre).value, LibreTranslate))
    ensures r.None? <==> FromMyMemory(term, myMemory).None? && FromLibreTranslate(term, libre).None?
    ensures r.Some? && r.value.provider == MyMemory ==> r.value.text != "" && DiffersIgnoringCase(r.value.text, term)
  {
    match FromMyMemory(term, myMemory)
    case Some(t) => Some(Outcome(t, MyMemory))
    case None =>
      match FromLibreTranslate(term, libre)
      case Some(t) => Some(Outcome(t, LibreTranslate))
      case None => None
  }

  /** When MyMemory succeeds, LibreTranslate's reply has no influence. */
  lemma MyMemoryShortCircuits(term: string, myMemory: Option<MyMemoryReply>, libre1: Option<string>, libre2: Option<string>)
    requires FromMyMemory(term, myMemory).Some?
    ensures Resolve(term, myMemory, libre1) == Resolve(term, myMemory, libre2)
  {
  }

  lemma TrimOneTrailingSpace()
    ensures Trim("Pies ") == "Pies"
  {
    assert !IsSpace('P') && !IsSpace('s') && IsSpace(' ');
    TrimDropsTrailingSpace("Pies", ' ');
    assert "Pies" + [' '] == "Pies ";
  }

  /**
   Only the MyMemory branch guarantees a translation different from the term:
   LibreTranslate's "Pies " for the term "Pies" passes its untrimmed comparison
   and is stored, once trimmed, as "Pies" itself.
   */
  lemma LibreTranslateMayKeepTheTerm()
    ensures Resolve("Pies", None, Some("Pies ")) == Some(Outcome("Pies", LibreTranslate))
  {
    assert |Lower("Pies ")| != |Lower("Pies")|;
    TrimOneTrailingSpace();
  }

  /** The same reply through MyMemory is rejected, because it is trimmed first. */
  lemma MyMemoryRejectsTheTerm()
    ensures FromMyMemory("Pies", Some(MyMemoryReply(200, "Pies "))) == None
  {
    TrimOneTrailingSpace();
  }
}
