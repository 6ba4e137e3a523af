/**
  `extractDefinition` of background.js: picks the first usable definition out of
  the dictionary service's reply, with JavaScript's property-access semantics
  (reading a property of `null` throws a `TypeError`).
 */
module Extraction {
  import opened Base
  import opened Json

  /** A `TypeError` raised by reading `property` of `null`. */
  datatype TypeError = ReadOfNull(property: string)

  /** What a call of `extractDefinition` does: return a value (`None` is
      `undefined`) or throw. */
  datatype Extracted = Returned(value: Option<Json>) | Threw(error: TypeError)

  /** The JavaScript `null` that `extractDefinition` returns when it finds nothing. */
  const NotFound: Extracted := Returned(Some(Null))

  /** The message V8 gives a `TypeError` from reading a property of `null`. */
  function Message(e: TypeError): string {
    "Cannot read properties of null (reading '" + e.property + "')"
  }

  /** The `definitions` list of a meaning, when it is a non-empty array. */
  predicate HasDefinitions(meaning: Json) {
    match Property(meaning, "definitions")
    case Some(Arr(defs)) => |defs| > 0
    case _ => false
  }

  /** A meaning at which the scan over `meanings` ends: it is `null` (so reading
      `meaning.definitions` throws) or it has a non-empty definitions list. */
  predicate EndsScan(meaning: Json) {
    meaning.Null? || HasDefinitions(meaning)
  }

  /** What the scan yields at the meaning that ends it: the `definition`
      property of that meaning's first definition. */
  function AtMeaning(meaning: Json): Extracted
    requires EndsScan(meaning)
  {
    if meaning.Null? then Threw(ReadOfNull("definitions"))
    else
      var first := Property(meaning, "definitions").value.elems[0];
      if first.Null? then Threw(ReadOfNull("definition"))
      else Returned(Property(first, "definition"))
  }

  /** The `for (const meaning of firstResult.meanings)` loop followed by
      `return null`: the outcome is decided by the first meaning that ends the scan,
      and is `null` when no meaning does. */
  function ScanMeanings(meanings: seq<Json>): (r: Extracted)
    ensures (forall i :: 0 <= i < |meanings| ==> !EndsScan(meanings[i])) ==> r == NotFound
    ensures forall k :: 0 <= k < |meanings| && EndsScan(meanings[k])
                        && (forall i :: 0 <= i < k ==> !EndsScan(meanings[i]))
                        ==> r == AtMeaning(meanings[k])
  {
    if meanings == [] then NotFound
    else if EndsScan(meanings[0]) then AtMeaning(meanings[0])
    else
      ScanMeanings(meanings[1..])
  }

  /** The `meanings` array of the first entry, when `data` is a non-empty array,
      its first element is truthy and that element's `meanings` is an array. */
  function FirstMeanings(data: Json): Option<seq<Json>> {
    if data.Arr? && |data.elems| > 0 && Truthy(data.elems[0]) then
      match Property(data.elems[0], "meanings")
      case Some(Arr(meanings)) => Some(meanings)
      case _ => None
    else None
  }

  /** `extractDefinition(data)`. */
  function ExtractDefinition(data: Json): (r: Extracted)
    ensures FirstMeanings(data).None? ==> r == NotFound
    ensures FirstMeanings(data).Some? ==> r == ScanMeanings(FirstMeanings(data).value)
  {
    match data
    case Arr(entries) =>
      if |entries| == 0 then NotFound
      else
        var first := entries[0];
        if Truthy(first) then
          match Property(first, "meanings")
          case Some(Arr(meanings)) => ScanMeanings(meanings)
          case _ => NotFound
        else NotFound
    case _ => NotFound
  }

  /** Only the first entry is consulted: entries after it never change the result. */
  lemma OnlyFirstEntryConsulted(first: Json, rest: seq<Json>, rest': seq<Json>)
    ensures ExtractDefinition(Arr([first] + rest)) == ExtractDefinition(Arr([first] + rest'))
  {
  }

  /** The definition returned is the first definition of the first meaning whose
      definitions list is non-empty; meanings with empty (or missing, or non-array)
      definitions lists before it are skipped. */
  lemma {:induction false} FirstNonEmptyMeaningWins(data: Json, k: nat)
    requires FirstMeanings(data).Some?
    requires var ms := FirstMeanings(data).value;
             && k < |ms|
             && (forall i :: 0 <= i < k ==> ms[i] != Null && !HasDefinitions(ms[i]))
             && HasDefinitions(ms[k])
    ensures var first := Property(FirstMeanings(data).value[k], "definitions").value.elems[0];
            ExtractDefinition(data)
              == if first.Null? then Threw(ReadOfNull("definition"))
                 else Returned(Property(first, "definition"))
  {
    assert EndsScan(FirstMeanings(data).value[k]);
  }

  /** When no meaning of the first entry has a non-empty definitions list and none
      is `null`, the result is `null`. */
  lemma {:induction false} NoUsableMeaningIsNull(data: Json)
    requires FirstMeanings(data).Some?
    requires var ms := FirstMeanings(data).value;
             forall i :: 0 <= i < |ms| ==> ms[i] != Null && !HasDefinitions(ms[i])
    ensures ExtractDefinition(data) == NotFound
  {
  }

}
