/**
  The decision logic of the `getDefinition` message handler in background.js.
  The handler runs in two steps: when the request arrives it normalises the word
  and consults the cache (`BeginRequest`); when the fetch settles it stores a
  truthy definition and builds the reply (`FinishRequest`). The clock reading is
  an input of each step, and the network result is the input `FetchOutcome`.
 */
module LookupService {
  import opened Base
  import opened Json
  import Text
  import Extraction
  import opened DefinitionCache

  /** The reply sent back to the content script. */
  datatype Response =
    | Definition(value: Json)   // `{definition}`
    | NoDefinition              // `{definition: null}`
    | Failure(message: string)  // `{error: message}`

  /** What `fetchDefinition`'s network part produced: the parsed body of a
      successful reply, or the message of the error it threw (a non-OK status,
      a transport failure or a body that is not JSON). */
  datatype FetchOutcome = Fetched(payload: Json) | FetchFailed(message: string)

  /** The handler's state when the request has been looked at: either it has
      already replied, or it must fetch `word` with the cache as it now is. */
  datatype Begin =
    | Answered(cache: Cache, response: Response)
    | MustFetch(cache: Cache, word: string)

  const NoWordMessage: string := "No word provided"

  /** `request.word.toLowerCase().trim()`: the cache key. */
  function Normalize(raw: string): string {
    Text.Trim(Text.ToLower(raw))
  }

  /** Normalising a normalised word changes nothing, so the raw words `"Cat "` and
      `"cat"` share one cache key. */
  lemma {:induction false} NormalizeIdempotent(raw: string)
    ensures Normalize(Normalize(raw)) == Normalize(raw)
  {
    var lower := Text.ToLower(raw);
    Text.ToLowerFixesLower(raw);
    Text.TrimOfLowerIsLower(lower);
    Text.ToLowerFixesLower(Text.Trim(lower));
    Text.TrimIdempotent(lower);
  }

  /** A lower-case word with no whitespace at either end is its own key. */
  lemma NormalizeUnchanged(s: string)
    requires Text.IsLower(s)
    requires s == [] || (!Text.IsWhitespace(s[0]) && !Text.IsWhitespace(s[|s| - 1]))
    ensures Normalize(s) == s
  {
    Text.ToLowerFixesLower(s);
    Text.TrimUnchanged(s);
  }

  /** The synchronous part of the handler, up to the call of `fetchDefinition`. */
  function BeginRequest(c: Cache, now: int, raw: string): (b: Begin)
    ensures Normalize(raw) == [] ==> b == Answered(c, Failure(NoWordMessage))
    ensures var w := Normalize(raw);
            w != [] && w in c && IsValid(c[w], now) ==> b == Answered(c, Definition(c[w].definition))
    ensures var w := Normalize(raw);
            w != [] && !(w in c && IsValid(c[w], now)) ==> b == MustFetch(c - {w}, w)
  {
    var word := Normalize(raw);
    if word == [] then Answered(c, Failure(NoWordMessage))
    else
      var read := Read(c, word, now);
      match read.hit
      case Some(d) => Answered(read.cache, Definition(d))
      case None => MustFetch(read.cache, word)
  }

  /** The `then`/`catch` continuations of `fetchDefinition(word)`, run against the
      cache as it is when the fetch settles, at time `now`. */
  function FinishRequest(c: Cache, now: int, word: string, outcome: FetchOutcome): (r: (Cache, Response))
    ensures r.1.Definition? ==> Truthy(r.1.value) && r.0 == Put(c, word, r.1.value, now)
    ensures !r.1.Definition? ==> r.0 == c
    ensures outcome.FetchFailed? ==> r.1 == Failure(outcome.message)
    ensures outcome.Fetched? ==>
              match Extraction.ExtractDefinition(outcome.payload)
              case Threw(e) => r.1 == Failure(Extraction.Message(e))
              case Returned(v) => if TruthyValue(v) then r.1 == Definition(v.value) else r.1 == NoDefinition
  {
    match outcome
    case FetchFailed(message) => (c, Failure(message))
    case Fetched(payload) =>
      match Extraction.ExtractDefinition(payload)
      case Threw(e) => (c, Failure(Extraction.Message(e)))
      case Returned(v) =>
        if TruthyValue(v) then (Put(c, word, v.value, now), Definition(v.value))
        else (c, NoDefinition)
  }

  /** The whole handler when the fetch settles at the same instant the request
      arrives; `outcome` is consulted only when the cache cannot answer. */
  function Lookup(c: Cache, now: int, raw: string, outcome: FetchOutcome): (Cache, Response) {
    match BeginRequest(c, now, raw)
    case Answered(c', response) => (c', response)
    case MustFetch(c', word) => FinishRequest(c', now, word, outcome)
  }

  /** Raw words with the same normal form are answered identically. */
  lemma {:induction false} SameKeySameAnswer(c: Cache, now: int, raw: string, outcome: FetchOutcome)
    ensures Lookup(c, now, Normalize(raw), outcome) == Lookup(c, now, raw, outcome)
  {
    NormalizeIdempotent(raw);
  }

  /** An empty word and a fresh cache entry are answered without fetching: the
      network result does not matter and the cache is unchanged. */
  lemma NoFetchWhenAnswered(c: Cache, now: int, raw: string, o1: FetchOutcome, o2: FetchOutcome)
    requires var w := Normalize(raw); w == [] || (w in c && IsValid(c[w], now))
    ensures Lookup(c, now, raw, o1) == Lookup(c, now, raw, o2)
    ensures Lookup(c, now, raw, o1).0 == c
  {
  }

  /** Every reply leaves the cache with only truthy definitions if it started so. */
  lemma LookupKeepsTruthy(c: Cache, now: int, raw: string, outcome: FetchOutcome)
    requires AllTruthy(c)
    ensures AllTruthy(Lookup(c, now, raw, outcome).0)
  {
  }

  /** A failed fetch leaves the cache as it was, apart from the deletion of the
      expired entry that caused the fetch. */
  lemma FailedFetchOnlyDropsStale(c: Cache, now: int, raw: string, message: string)
    requires Normalize(raw) != []
    ensures var (c', r) := Lookup(c, now, raw, FetchFailed(message));
            var w := Normalize(raw);
            (w in c && IsValid(c[w], now) ==> c' == c && r == Definition(c[w].definition))
            && (!(w in c && IsValid(c[w], now)) ==> c' == c - {w} && r == Failure(message))
  {
  }

}
