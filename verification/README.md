# Word Definition Tooltip — a verified model of its core

The extension shows a floating tooltip with a dictionary definition when the
user selects a single word on a page. Its logic sits in two scripts:

- **background.js** answers `getDefinition` messages. It normalises the word,
  serves a fresh entry from an in-memory cache with a 24-hour expiry, and
  otherwise fetches the word from a dictionary service. It extracts the first
  usable definition and caches it when it is truthy. An hourly sweep deletes
  stale entries.
- **content.js** sanitises the selected text and decides whether it is a single
  word. It then drives one tooltip element through show, reply, hide and
  auto-hide transitions.

This Dafny project models both scripts as pure functions over immutable data.
The clock `Date.now()` becomes an integer parameter `now` (milliseconds). The
network result becomes an input value (`FetchOutcome`). DOM events, the
background reply, a broken message channel and the firing of the 5-second timer
become `Tooltip.Event`s.

| file | module | models |
|---|---|---|
| base.dfy | `Base` | `Option` (`None` is JavaScript `undefined`) |
| text.dfy | `Text` | `trim` over the exact ECMAScript whitespace set, ASCII `toLowerCase`, UTF-16 `.length` |
| json.dfy | `Json` | parsed JSON values, truthiness, property reads, `String(v)` as `textContent` shows it |
| extraction.dfy | `Extraction` | `extractDefinition`, including the `TypeError` thrown when a meaning or a first definition is `null` |
| cache.dfy | `DefinitionCache` | `CACHE_EXPIRY`, `isCacheValid`, the lazy read, the write and the sweep |
| lookup.dfy | `LookupService` | the `getDefinition` handler, split into the request step and the fetch-settled step |
| selection.dfy | `Selection` | `sanitizeText` and the single-word acceptance test |
| tooltip.dfy | `Tooltip` | the tooltip state `{visible, text, timerArmed}` and its transitions |
| scenarios.dfy | `Scenarios` | end-to-end runs across both scripts |

Two behaviours of the content script are worth knowing when reading the model:

- **Replies are matched by visibility only.** content.js:49 checks only that the
  tooltip is visible, so a late reply for an earlier word overwrites a newer
  selection's tooltip (`Scenarios.LateReplyOverwritesNewerSelection`).
- **`{error}` replies show as not found.** content.js:50-54 shows
  `No definition found for "<word>"` for every reply without a truthy
  `definition`, including `{error}` replies (`Tooltip.ErrorShownAsNotFound`,
  `Scenarios.NotFoundWordEndToEnd`).

## Model

| member | source | states |
|---|---|---|
| `Text.TrimStartSpec` | content.js:74 | removing leading whitespace keeps the suffix that starts at the first non-whitespace character, and everything dropped is whitespace |
| `Text.TrimEndSpec` | content.js:74 | removing trailing whitespace keeps the prefix that ends at the last non-whitespace character, and everything dropped is whitespace |
| `Text.TrimIsInnerSlice` | content.js:74 | `trim` keeps one contiguous slice of its input. Everything dropped before and after it is ECMAScript whitespace, and the slice neither starts nor ends with whitespace |
| `Text.TrimIdempotent` | background.js:77 | trimming an already trimmed string changes nothing |
| `Text.TrimAllWhitespace` | background.js:77 | a string made only of whitespace trims to the empty string |
| `Text.ToLowerFixesLower` | background.js:77 | lower-casing yields a lower-case string and leaves lower-case strings unchanged |
| `Text.Utf16Length` | content.js:88 | `.length` counts UTF-16 code units: between `|s|` and `2*|s|`, and equal to `|s|` exactly when every character is in the Basic Multilingual Plane |
| `Extraction.ScanMeanings` | background.js:30-38 | the loop's outcome is decided by the first meaning that is `null` or has a non-empty `definitions` array. A `null` meaning throws; otherwise the result is that meaning's first definition's `definition` property. When no meaning ends the scan, the result is `null` |
| `Extraction.ExtractDefinition` | background.js:23-39 | a payload that is not an array, or is an empty array, gives `null`. So does a falsy first entry or one whose `meanings` is not an array. Otherwise the result is the scan of that `meanings` array, so it throws only when that array exists |
| `Extraction.OnlyFirstEntryConsulted` | background.js:28 | entries after `data[0]` never change the result |
| `Extraction.FirstNonEmptyMeaningWins` | background.js:28-35 | when the earlier meanings are non-null and have empty, missing or non-array definitions lists, they are skipped. The result is the `definition` of the first definition of the first meaning with a non-empty list |
| `Extraction.NoUsableMeaningIsNull` | background.js:30-38 | when no meaning is `null` or usable, the result is `null` |
| `DefinitionCache.ExpiryBoundary` | background.js:11-16 | an entry is fresh exactly while `now - timestamp < 86_400_000`. At an age of exactly 24 hours it is stale, and once stale it stays stale as time advances |
| `DefinitionCache.Read` | background.js:85-95 | a read returns the definition exactly when the entry is present and fresh, and then leaves the cache unchanged. Otherwise it returns nothing and the cache loses at most that key |
| `DefinitionCache.Put` | background.js:102-105 | a write sets the key to the definition with `timestamp = now` and leaves every other entry unchanged |
| `DefinitionCache.PutThenRead` | background.js:85-105 | a definition written at `t` reads back unchanged at any time in `[t, t + 24h)`, with no change to the cache |
| `DefinitionCache.ReadAfterExpiry` | background.js:85-95 | from `t + 24h` on, a read of that entry finds nothing and deletes it |
| `DefinitionCache.SweepEntries` | background.js:122-129 | after visiting the entries in any order, the cache keeps exactly the fresh entries, each with its definition and timestamp untouched |
| `DefinitionCache.SweepPreservesReads` | background.js:122-129 | a sweep never changes what a read at the same time answers. The sweep only reclaims memory |
| `DefinitionCache.SweepIdempotent` | background.js:122-129 | a second sweep at the same time removes nothing |
| `DefinitionCache.TruthyPreserved` | background.js:99-106 | reads, sweeps and writes of truthy definitions keep every cached definition truthy |
| `LookupService.NormalizeIdempotent` | background.js:77 | normalising a normalised word changes nothing |
| `LookupService.BeginRequest` | background.js:77-95 | an empty normalised word gets `{error: 'No word provided'}` with the cache unchanged. A fresh entry is served with the cache unchanged. Otherwise the handler must fetch the normalised word, and an expired entry is deleted first |
| `LookupService.FinishRequest` | background.js:98-115 | the cache changes only when the reply is `{definition}`. Its definition is then truthy and is written with `timestamp = now`. A fetch error gives `{error: message}`. A `TypeError` from extraction gives `{error}` with its message. A falsy or `undefined` result gives `{definition: null}` |
| `LookupService.SameKeySameAnswer` | background.js:77 | a raw word and its normal form get the same reply and the same cache (`"Cat "` and `"cat"`) |
| `LookupService.NoFetchWhenAnswered` | background.js:79-90 | for an empty word or a fresh hit, the reply and cache do not depend on the network result, and the cache is unchanged |
| `LookupService.LookupKeepsTruthy` | background.js:99-110 | a whole lookup keeps every cached definition truthy |
| `LookupService.FailedFetchOnlyDropsStale` | background.js:92-115 | with a failed fetch, a fresh hit is still served. Otherwise the reply is `{error: message}` and the only cache change is deleting the expired entry |
| `Selection.StripTrailingPunct` | content.js:74 | the result is a prefix of the input. Everything removed is in `. , ; : " “ ” ' ‘ ’ ! ?`, and the result is empty or does not end in one of them |
| `Selection.StripTrailingIsLeftmostMatch` | content.js:74 | the replacement removes exactly the suffix starting at the leftmost position where `/[.,;:"“”'‘’!?]+$/` matches, and nothing when it does not match |
| `Selection.Sanitize` | content.js:73-75 | the result is the slice of the trimmed text that ends where the trailing punctuation run begins. It starts one character later exactly when the remaining text begins with `'` or `"`. It is not re-trimmed and does not end in trailing punctuation |
| `Selection.AcceptsExactly` | content.js:88 | a selection is accepted exactly when it has at least two characters, or one character outside the Basic Multilingual Plane, and contains no ASCII space. Tabs and newlines are allowed |
| `Json.NatToDecimal` | content.js:51 | a number assigned to `textContent` is shown as its decimal digits: at least one digit, no leading zero, and the digits denote the number |
| `Tooltip.Show` | content.js:27-39 | showing makes the tooltip visible with the text `Loading...` and disarms any pending auto-hide |
| `Tooltip.Hide` | content.js:62-70 | hiding makes the tooltip invisible and disarms the timer, and the text stays |
| `Tooltip.HideIdempotent` | content.js:62-70 | hiding twice is hiding once |
| `Tooltip.ReplyText` | content.js:50-54 | a truthy `definition` is shown as `String(definition)`. Any other reply shows `No definition found for "<word>"` |
| `Tooltip.OnReply` | content.js:49-57 | a reply leaves a hidden tooltip exactly as it is. A visible tooltip stays visible, shows the reply text and re-arms the auto-hide |
| `Tooltip.OnChannelError` | content.js:43-47 | a broken channel sets the text to the reload message, visible or not, and changes nothing else |
| `Tooltip.OnMouseUp` | content.js:79-103 | a click on the tooltip is ignored. A selection whose sanitised form is accepted and has a visible extent shows the tooltip and requests exactly that sanitised word. An accepted selection with no extent changes nothing. A rejected selection hides the tooltip. No other case sends a request |
| `Tooltip.Step` | content.js:42-112 | scroll, key press and mouse-down outside the tooltip hide it. Mouse-down on it changes nothing. The timer hides the tooltip only when armed. Only a mouse-up sends a request. A mouse-up is `OnMouseUp`, a reply is `OnReply` and a broken channel is `OnChannelError` |
| `Tooltip.StepKeepsConsistent` | content.js:32-69 | every transition keeps the invariant that the auto-hide timer is armed only while the tooltip is visible |
| `Tooltip.Run` | content.js:27-112 | any sequence of events from a consistent tooltip ends in a consistent tooltip |
| `Tooltip.ErrorShownAsNotFound` | content.js:50-54 | an `{error}` reply is displayed as `No definition found for "<word>"` |
| `Scenarios.TwoMeaningsExtraction` | background.js:30-35 | a first meaning with an empty definitions list is skipped, and the second meaning's first definition is returned |
| `Scenarios.SelectPlainWord` | content.js:79-98 | selecting a word that sanitising leaves unchanged shows the loading text and requests that word |
| `Scenarios.MissFetchesAndCaches` | background.js:97-106 | on a miss, a fetched definition is cached at `now` and returned |
| `Scenarios.HitServedFromCache` | background.js:85-90 | a definition cached at `now` is served from the cache at any time up to 24 hours later, whatever the network would answer |
| `Scenarios.ReplyShowsDefinition` | content.js:49-56 | the definition replaces the loading text and the auto-hide is armed |
| `Scenarios.NotFoundWordEndToEnd` | background.js:112-115 | a failed fetch (the dictionary's 404) gives `{error}` with the cache unchanged, and the tooltip shows the not-found message |
| `Scenarios.NullMeaningIsAnError` | background.js:30-33 | a `null` meaning ahead of every usable one makes the handler reply with the `TypeError`'s message, and nothing is cached |
| `Scenarios.LateReplyOverwritesNewerSelection` | content.js:49-57 | a late reply for an earlier selection replaces the text of a newer selection's visible tooltip |
| `Scenarios.ReplyAfterScrollIgnored` | content.js:49 | a reply arriving after a scroll hid the tooltip changes nothing |
| `Scenarios.QuoteThenSpaceIsRejected` | content.js:74-101 | `"\" word"` sanitises to `" word"` and is then rejected for its space |
| `Scenarios.SanitizeKeepsInnerTabs` | content.js:74 | tabs between a leading quote and a trailing full stop survive sanitising |
| `Scenarios.TabsPassSelectionButNotLookup` | background.js:77-82 | a selection of two or more tabs is accepted and requested. The background trims it to nothing and answers `No word provided`, which the tooltip shows as not found |

## Left out

- Network I/O: the URL built with `encodeURIComponent`, `fetch`, HTTP status checks and `response.json()` (background.js:46-71). They are one input, `FetchOutcome`: the parsed body or the message of the error thrown.
- The `chrome.runtime` messaging API and keeping the channel open (`return true`). A request is a direct call and a reply is a `Tooltip.Event`.
- The `setInterval`/`setTimeout` scheduling and `Date.now()`. These are the `now` parameter and the `TimerFired` event.
- Logging with `console.log`/`console.error`. It is diagnostic only.
- DOM element creation, styles, opacity, and the positioning arithmetic of the selection rectangle. These are UI and floating point. Only "the rectangle has a non-zero width or height" is kept, as the `hasExtent` flag of a mouse-up.
- Concurrency of overlapping lookups, such as duplicate in-flight fetches for one word. `BeginRequest` and `FinishRequest` take the cache as it is at each step, so any interleaving can be composed from them. No ordering between them is modelled.
- `Text.ToLower`: models `toLowerCase` for ASCII letters only. Full Unicode case mapping, where the length can change, is not modelled.
- `DefinitionCache.SweepEntries`: uses one clock reading for the whole pass. The source reads `Date.now()` again for every entry, so an entry reaching its expiry during the pass may also be removed.
- `Json.Json`: numbers are integers. Fractions and exponents of JSON numbers are not modelled, and they only affect how a numeric `definition` would be displayed. `Json.ToText` writes every digit of an integer, whereas JavaScript `String` switches to exponent form from 1e21 and rounds integers beyond 2^53.
- `Extraction.Message`: is the V8 wording of a `TypeError` from reading a property of `null`. Other engines word it differently.
- A `request.word` that is not a string, which would throw in `toLowerCase`. The content script always sends a string.
