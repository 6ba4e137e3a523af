/**
  End-to-end runs of the extension: a selection in the page, the lookup in the
  background script, and the reply arriving back at the tooltip.
 */
module Scenarios {
  import opened Base
  import opened Json
  import Text
  import Selection
  import Extraction
  import opened DefinitionCache
  import opened LookupService
  import opened Tooltip

  /** A dictionary reply whose only entry has a first meaning without definitions
      and a second meaning whose first definition is `d`. */
  function TwoMeanings(d: string): Json {
    Arr([Obj(map["meanings" := Arr([
      Obj(map["definitions" := Arr([])]),
      Obj(map["definitions" := Arr([Obj(map["definition" := Str(d)])])])
    ])])])
  }

  /** The empty first meaning is skipped and the second meaning's first definition
      is taken. */
  lemma {:induction false} TwoMeaningsExtraction(d: string)
    ensures Extraction.ExtractDefinition(TwoMeanings(d)) == Extraction.Returned(Some(Str(d)))
  {
    Extraction.FirstNonEmptyMeaningWins(TwoMeanings(d), 1);
  }

  /** A selection the content script passes on unchanged: at least two characters,
      no space, nothing that trimming or sanitising would remove. */
  ghost predicate PlainWord(w: string) {
    && |w| >= 2 && ' ' !in w
    && !Text.IsWhitespace(w[0]) && w[0] != '\'' && w[0] != '"'
    && !Text.IsWhitespace(w[|w| - 1]) && !Selection.IsTrailingPunct(w[|w| - 1])
  }

  /** Selecting a plain word with a visible extent shows the loading text and
      requests that word. */
  lemma SelectPlainWord(t: State, w: string)
    requires PlainWord(w)
    ensures Step(t, MouseUp(w, false, true)) == Outcome(Show(t), Some(w))
  {
    Selection.SanitizeUnchanged(w);
    Selection.AcceptsExactly(w);
  }

  /** A miss on a plain lower-case word fetches, caches the definition at the
      current time and returns it. */
  lemma {:induction false} MissFetchesAndCaches(c: Cache, w: string, d: string, now: int)
    requires PlainWord(w) && Text.IsLower(w) && d != [] && w !in c
    ensures Lookup(c, now, w, Fetched(TwoMeanings(d))) == (c[w := Entry(Str(d), now)], Definition(Str(d)))
  {
    NormalizeUnchanged(w);
    assert BeginRequest(c, now, w) == MustFetch(c, w) by {
      assert c - {w} == c;
    }
    TwoMeaningsExtraction(d);
  }

  /** A plain lower-case word cached at `now` is served from the cache until 24
      hours later, whatever the network would say. */
  lemma {:induction false} HitServedFromCache(w: string, d: string, now: int, later: int, outcome: FetchOutcome)
    requires PlainWord(w) && Text.IsLower(w)
    requires now <= later < now + CacheExpiry
    ensures var c := map[w := Entry(Str(d), now)];
            Lookup(c, later, w, outcome) == (c, Definition(Str(d)))
  {
    NormalizeUnchanged(w);
    var c := map[w := Entry(Str(d), now)];
    assert IsValid(c[w], later);
  }

  /** The reply for the selected word replaces the loading text and arms the
      auto-hide. */
  lemma ReplyShowsDefinition(w: string, d: string)
    requires d != []
    ensures Step(Show(Initial), Reply(w, Definition(Str(d)))).tooltip == State(true, d, true)
  {
  }

  /** The dictionary answers a word with an error status: the reply is an error, the cache is unchanged, and the tooltip shows the
      not-found message rather than the error. */
  lemma {:induction false} NotFoundWordEndToEnd(c: Cache, now: int, w: string, message: string)
    requires PlainWord(w) && Text.IsLower(w) && w !in c
    ensures Lookup(c, now, w, FetchFailed(message)) == (c, Failure(message))
    ensures OnReply(State(true, LoadingText, false), w, Failure(message)).text == NotFoundText(w)
  {
    NormalizeUnchanged(w);
    assert c - {w} == c;
  }

  /** A `null` meaning before any usable one makes `extractDefinition` throw, so
      the reply is an error and nothing is cached. */
  lemma {:induction false} NullMeaningIsAnError(c: Cache, now: int, w: string, rest: seq<Json>)
    requires PlainWord(w) && Text.IsLower(w) && w !in c
    ensures var payload := Arr([Obj(map["meanings" := Arr([Null] + rest)])]);
            Lookup(c, now, w, Fetched(payload))
              == (c, Failure(Extraction.Message(Extraction.ReadOfNull("definitions"))))
  {
    NormalizeUnchanged(w);
    assert c - {w} == c;
    var payload := Arr([Obj(map["meanings" := Arr([Null] + rest)])]);
    assert Extraction.FirstMeanings(payload) == Some([Null] + rest);
    assert Extraction.ExtractDefinition(payload) == Extraction.Threw(Extraction.ReadOfNull("definitions"));
  }

  /** Replies are matched to the tooltip by visibility only: a slow reply for an
      earlier selection `a` overwrites the tooltip of a newer selection `b`. */
  lemma {:induction false} LateReplyOverwritesNewerSelection(a: string, b: string, d: string)
    requires PlainWord(a) && PlainWord(b) && d != []
    ensures var first := Step(Initial, MouseUp(a, false, true));
            var second := Step(first.tooltip, MouseUp(b, false, true));
            var late := Step(second.tooltip, Reply(a, Definition(Str(d))));
            && first.request == Some(a) && second.request == Some(b)
            && late.tooltip == State(true, d, true)
  {
    SelectPlainWord(Initial, a);
    SelectPlainWord(Show(Initial), b);
  }

  /** A reply that arrives after a scroll hid the tooltip is ignored. */
  lemma ReplyAfterScrollIgnored(word: string, response: Response)
    ensures var shown := Show(Initial);
            var hidden := Step(shown, Scroll).tooltip;
            Step(hidden, Reply(word, response)).tooltip == hidden
  {
  }

  /** The leading quote is removed after trimming, so a space behind it stays
      (`"\" word"` sanitises to `" word"`) and the selection is rejected. */
  lemma {:induction false} QuoteThenSpaceIsRejected(w: string)
    requires PlainWord(w)
    ensures Selection.Sanitize(['"', ' '] + w) == [' '] + w
    ensures Step(Initial, MouseUp(['"', ' '] + w, false, true)) == Outcome(Initial, None)
  {
    var s := ['"', ' '] + w;
    Text.TrimUnchanged(s);
    assert Selection.StripTrailingPunct(s) == s;
    assert s[1..] == [' '] + w;
    assert !Selection.Accepts([' '] + w) by {
      assert ([' '] + w)[0] == ' ';
    }
  }

  /** Tabs between a leading quote and a trailing full stop survive sanitising. */
  lemma {:induction false} SanitizeKeepsInnerTabs(tabs: string)
    requires |tabs| >= 2 && forall i :: 0 <= i < |tabs| ==> tabs[i] == '\t'
    ensures Selection.Sanitize(['"'] + tabs + ['.']) == tabs
  {
    var s := ['"'] + tabs + ['.'];
    Text.TrimUnchanged(s);
    assert s[..|s| - 1] == ['"'] + tabs;
    assert Selection.StripTrailingPunct(s) == ['"'] + tabs;
    assert (['"'] + tabs)[1..] == tabs;
  }

  /** A selection of a quote, tabs and a full stop sanitises to the tabs, which
      the acceptance test lets through when there are at least two; the background
      script trims them away and answers "No word provided", which the tooltip
      shows as not found. */
  lemma {:induction false} TabsPassSelectionButNotLookup(tabs: string, c: Cache, now: int, outcome: FetchOutcome)
    requires |tabs| >= 2 && forall i :: 0 <= i < |tabs| ==> tabs[i] == '\t'
    ensures Step(Initial, MouseUp(['"'] + tabs + ['.'], false, true)).request == Some(tabs)
    ensures Lookup(c, now, tabs, outcome) == (c, Failure(NoWordMessage))
    ensures OnReply(Show(Initial), tabs, Failure(NoWordMessage)).text == NotFoundText(tabs)
  {
    SanitizeKeepsInnerTabs(tabs);
    Selection.AcceptsExactly(tabs);
    Text.ToLowerFixesLower(tabs);
    Text.TrimAllWhitespace(tabs);
  }

}
