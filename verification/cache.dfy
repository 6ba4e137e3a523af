/**
  The definition cache of background.js: a map from a normalised word to the
  definition found for it and the time it was stored, with a fixed 24-hour expiry
  checked lazily on every read and by an hourly sweep. The clock `Date.now()` is
  the parameter `now`, in milliseconds.
 */
module DefinitionCache {
  import opened Base
  import opened Json

  /** 24 hours in milliseconds. */
  const CacheExpiry: int := 24 * 60 * 60 * 1000

  /** A cached definition and the `Date.now()` at which it was stored. */
  datatype Entry = Entry(definition: Json, timestamp: int)

  type Cache = map<string, Entry>

  /** `isCacheValid`: an entry is fresh while its age is strictly below the expiry. */
  predicate IsValid(e: Entry, now: int) {
    now - e.timestamp < CacheExpiry
  }

  /** The boundary is exclusive: an entry exactly 24 hours old is stale, one a
      millisecond younger is fresh; and once stale, an entry stays stale. */
  lemma ExpiryBoundary(d: Json, t: int, now: int, later: int)
    requires now <= later
    ensures IsValid(Entry(d, t), t + 86_400_000 - 1)
    ensures !IsValid(Entry(d, t), t + 86_400_000)
    ensures !IsValid(Entry(d, t), now) ==> !IsValid(Entry(d, t), later)
    ensures IsValid(Entry(d, t), now) <==> t <= now < t + 86_400_000 || now < t
  {
  }

  /** The outcome of a read: the definition, when there is a fresh one, and the
      cache afterwards. */
  datatype ReadResult = ReadResult(hit: Option<Json>, cache: Cache)

  /** The cache lookup of the message handler (`has`, `get`, `isCacheValid`, and
      `delete` of a stale entry). */
  function Read(c: Cache, word: string, now: int): (r: ReadResult)
    ensures r.hit.Some? <==> word in c && IsValid(c[word], now)
    ensures r.hit.Some? ==> r.hit.value == c[word].definition && r.cache == c
    ensures r.hit.None? ==> r.cache == c - {word}
  {
    if word in c then
      if IsValid(c[word], now) then ReadResult(Some(c[word].definition), c)
      else ReadResult(None, c - {word})
    else
      assert c - {word} == c;
      ReadResult(None, c)
  }

  /** `definitionCache.set(word, {definition, timestamp: Date.now()})`. */
  function Put(c: Cache, word: string, definition: Json, now: int): (c': Cache)
    ensures c'.Keys == c.Keys + {word}
    ensures c'[word] == Entry(definition, now)
    ensures forall w :: w in c && w != word ==> c'[w] == c[w]
  {
    c[word := Entry(definition, now)]
  }

  /** A stored definition is read back unchanged while it is fresh, from the moment
      it is written until 24 hours later. */
  lemma {:induction false} PutThenRead(c: Cache, word: string, d: Json, t: int, now: int)
    requires t <= now < t + CacheExpiry
    ensures Read(Put(c, word, d, t), word, now) == ReadResult(Some(d), Put(c, word, d, t))
  {
    assert IsValid(Put(c, word, d, t)[word], now);
  }

  /** From 24 hours after it was written, a read finds nothing and removes the entry. */
  lemma {:induction false} ReadAfterExpiry(c: Cache, word: string, d: Json, t: int, now: int)
    requires now >= t + CacheExpiry
    ensures Read(Put(c, word, d, t), word, now).hit == None
    ensures word !in Read(Put(c, word, d, t), word, now).cache
  {
    assert !IsValid(Put(c, word, d, t)[word], now);
  }

  /** The fresh entries of `c`. */
  function Sweep(c: Cache, now: int): (r: Cache)
    ensures forall w :: w in r <==> w in c && IsValid(c[w], now)
    ensures forall w :: w in r ==> r[w] == c[w]
  {
    map w | w in c && IsValid(c[w], now) :: c[w]
  }

  /** The body of the hourly `setInterval`: visit every entry and delete the stale
      ones. The entries are visited in an arbitrary order. */
  method SweepEntries(c: Cache, now: int) returns (r: Cache)
    ensures forall w :: w in r <==> w in c && IsValid(c[w], now)
    ensures forall w :: w in r ==> r[w] == c[w]
    ensures r == Sweep(c, now)
  {
    r := c;
    var pending := c.Keys;
    while pending != {}
      invariant pending <= r.Keys <= c.Keys
      invariant forall w :: w in r ==> r[w] == c[w]
      invariant forall w :: w in c && w !in pending ==> (w in r <==> IsValid(c[w], now))
      decreases pending
    {
      var w :| w in pending;
      if !IsValid(r[w], now) {
        r := r - {w};
      }
      pending := pending - {w};
    }
  }

  /** The sweep only reclaims memory: every read answers the same before and after it. */
  lemma SweepPreservesReads(c: Cache, word: string, now: int)
    ensures Read(Sweep(c, now), word, now).hit == Read(c, word, now).hit
  {
  }

  /** Sweeping twice at the same time removes nothing more. */
  lemma SweepIdempotent(c: Cache, now: int)
    ensures Sweep(Sweep(c, now), now) == Sweep(c, now)
  {
  }

  /** Every cached definition is truthy: only truthy definitions are ever stored. */
  ghost predicate AllTruthy(c: Cache) {
    forall w :: w in c ==> Truthy(c[w].definition)
  }

  /** Reads, writes of truthy definitions and sweeps keep every definition truthy. */
  lemma TruthyPreserved(c: Cache, word: string, d: Json, now: int)
    requires AllTruthy(c)
    ensures AllTruthy(Read(c, word, now).cache)
    ensures AllTruthy(Sweep(c, now))
    ensures Truthy(d) ==> AllTruthy(Put(c, word, d, now))
  {
  }

}
