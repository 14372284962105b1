# Marvel catalogue viewer — a Dafny model of its state and API layer

The viewer is a small React application over the Marvel comics API. Its logic that is not
presentation is a thin layer of list manipulation: a favourites list persisted in browser
storage, a feed of recent comics grown one fetch round at a time behind a `loading` guard,
an API helper that signs requests and shapes the `data.results` field, and two read-time
projections (a year filter on the feed, a title-sorted copy of the favourites).

This project models that layer as pure functions over immutable records:

- `options.dfy` — `Option`, standing in for `null`/`undefined`.
- `seqs.dfy` — `Filter` (JavaScript's `Array.prototype.filter`), the subsequence relation,
  and transpositions (`Swap`, `ApplySwaps`) for the in-place random sort.
- `decimal.dfy` — the text of an integral Number (`String(n)`, template literals, `+` with a
  string) and a parser that inverts it.
- `comics.dfy` — `Comic`, `Character`, `Thumbnail`, `DateEntry`; `HasId` (`some(x => x.id === id)`),
  `DistinctIds`, and the thumbnail test `Displayable`.
- `favorites.dfy` — loading favourites from storage and the id-keyed toggle.
- `feed.dfy` — one accumulation round at list level: survivors of a batch and the extended feed.
- `app.dfy` — the root component's state record (`favorites`, `stored`, `feed`, `loading`)
  and the handlers as step functions; `stored` is the storage key's content and must read
  back as `favorites`.
- `marvel_api.dfy` — `getAuthParams`, the object spread of query parameters, URL assembly,
  `makeApiRequest`'s unwrapping, and the three fetchers.
- `views.dfy` — the year filter of the recent-comics feed and the favourites panel (sorted
  cards, clear button).

The clock, `Math.random`, the MD5 digest, `URLSearchParams` serialisation, `new Date(..).getFullYear()`,
`localeCompare` and the server are parameters of the functions that use them.

Behaviour of the code that a reader might not expect:

- Missing API keys are not a configuration error. An absent public key is sent as the text
  `undefined` in the `apikey` parameter (`MarvelApi.EnvText`). An absent private key turns the
  digest input `ts + PRIVATE_KEY + PUBLIC_KEY` into NaN at the first `+`, so the digest input
  is `"NaN"` followed by the public key (or the number NaN when both keys are absent) and no
  longer depends on the timestamp (`MarvelApi.HashInput`, `MarvelApi.HashInputFreshness`).
- Corrupt stored favourites do not load as an empty list: `JSON.parse` throws. The model only
  has an absent key or a stored list.
- The feed is not duplicate-free for arbitrary batches: the round compares each incoming comic
  with the feed as it stood before the round, never with earlier comics of the same batch.
  `Feed.ExtendKeepsDistinct` therefore requires a batch with distinct ids, and
  `Feed.DuplicateBatchDuplicatesFeed` exhibits the duplicate otherwise.
- Caller parameters override `ts`, `apikey` and `hash` because they are spread last.

## Model

| member | source | states |
|---|---|---|
| Favorites.Load | src/App.js:16-17 | an absent storage key loads as the empty list; a stored list loads as itself |
| Favorites.RemoveId | src/App.js:24 | no entry with the id survives, and every other id is present afterwards iff it was before |
| Favorites.Toggle | src/App.js:21-25 | the comic's id is present afterwards iff it was absent before, and an absent comic is appended at the end of the old list |
| Favorites.ToggleFlips | src/App.js:21-25 | for every id, one toggle flips its membership iff it is the toggled comic's id |
| Favorites.ToggleKeepsOtherIds | src/App.js:22-25 | a toggle leaves the membership of every other id unchanged |
| Favorites.ToggleRemovesEveryCopy | src/App.js:22-24 | toggling a present id removes all entries carrying it and keeps the rest, with multiplicity, as an order-preserving subsequence |
| Favorites.ToggleTwiceRestores | src/App.js:21-25 | toggling a comic whose id is absent twice gives back the original list exactly |
| Favorites.ToggleAllParity | src/App.js:21-25 | after any run of toggles an id is a favourite iff it started as one xor it was toggled an odd number of times |
| App.Start | src/App.js:10-18 | the initial state has an empty feed, no round in flight, and favourites equal to what storage reads back (empty for an absent key) |
| App.ToggleFavorite | src/App.js:21-29 | memory and storage both hold the list-level toggle of the old favourites (the survivors of the id filter, or the old list with the comic appended), and storage reads back as memory; the id's membership flips, other ids and the feed are untouched |
| App.ClearFavorites | src/App.js:58-63 | confirmed: memory and storage both become empty; refused: nothing changes; storage keeps mirroring memory |
| App.BeginRound | src/App.js:33-34 | a round starts iff none is in flight, and afterwards `loading` is set either way |
| App.SecondRoundRefused | src/App.js:33 | a second call while a round is in flight starts nothing and changes nothing |
| App.FinishRound | src/App.js:36-54 | `loading` ends false, favourites are untouched, the new feed is the old feed followed by exactly the round's arrivals, in batch order and with batch multiplicity: the batch comics with a new id and a thumbnail |
| App.LoadComics | src/App.js:32-55 | while loading the state is unchanged; otherwise the round ends with `loading` false, favourites untouched, and the old feed followed by exactly the round's arrivals |
| App.HandlersKeepValid | src/App.js:21-63 | toggle, clear and a round whose batch has distinct ids keep storage equal to memory and the feed free of duplicate ids |
| Feed.Arrivals | src/App.js:38-42 | the appended comics are an order-preserving subsequence of the batch holding exactly the batch comics whose id is not in the prior feed and whose thumbnail path and extension are non-empty, each with its multiplicity in the batch |
| Feed.Extend | src/App.js:44-49 | the prior feed is a prefix, and the appended part is an order-preserving subsequence of the batch holding exactly its comics with a new id and a thumbnail; nothing survives means the feed is unchanged |
| Feed.ExtendAppendsArrivals | src/App.js:38-49 | the extended feed is the prior feed followed by exactly the round's arrivals, so `Arrivals` describes what is appended |
| Feed.ArrivalCount | src/App.js:38-49 | the number appended is the batch size minus the number of batch comics turned away |
| Feed.ExtendKeepsDistinct | src/App.js:38-49 | distinct ids in the prior feed and in the batch give distinct ids in the new feed |
| Feed.DuplicateBatchDuplicatesFeed | src/App.js:39 | a batch holding one displayable comic twice puts a duplicate id into a feed that had none |
| MarvelApi.GetAuthParams | src/marvelApi.js:11-15 | `ts` is the clock reading, `apikey` the public key's text (`undefined` when absent), `hash` the digest of the value of `ts + PRIVATE_KEY + PUBLIC_KEY` |
| MarvelApi.HashInputFreshness | src/marvelApi.js:12-13 | two digest inputs are equal iff their timestamps are or the private key is absent; with a private key the input is text starting with the timestamp's text and ending with the public key's; without one it is `"NaN"` plus the public key, or NaN itself when both keys are absent |
| MarvelApi.Put | src/marvelApi.js:25 | assigning a property sets its value, leaves every other key's value alone and keeps existing keys in place |
| MarvelApi.Spread | src/marvelApi.js:25 | the spread keeps the base keys first and in order, and keeps keys distinct |
| MarvelApi.SpreadAppends | src/marvelApi.js:25 | for caller parameters with distinct keys, what follows the base is exactly the caller's parameters whose key the base lacks, in the caller's order |
| MarvelApi.SpreadKeepsUntouched | src/marvelApi.js:25 | a base parameter whose key the caller does not supply keeps its slot and value |
| MarvelApi.SpreadLookup | src/marvelApi.js:25 | after the spread a key's value is the caller's when the caller supplies it, else the base's |
| MarvelApi.MakeRequest | src/marvelApi.js:23-26 | parameters begin with `ts`, `apikey`, `hash` and continue with exactly the caller's other parameters in the caller's order; keys are distinct, caller values win, auth values fill the rest, and the URL is base, endpoint, `?`, serialised query |
| MarvelApi.Unwrap | src/marvelApi.js:27-34 | a parsed body with a `data` object yields its `results` field; any transport, parse or missing-`data` failure yields `null` |
| MarvelApi.EndpointsDistinct | src/marvelApi.js:63-71 | distinct ids give distinct comic paths and distinct characters paths, and no comic path is a characters path |
| MarvelApi.FetchRecentComics | src/marvelApi.js:42-58 | the request goes to `/comics` with `orderBy=-modified`, the given limit and an offset in [0, 1000); a non-array result gives `[]`, an array gives a permutation of it |
| MarvelApi.FetchComicById | src/marvelApi.js:62-65 | a `null` or missing results field rejects; an empty or non-array result resolves to `null`; otherwise the first result |
| MarvelApi.FetchComicCharacters | src/marvelApi.js:69-80 | the results array unchanged when it is an array, `[]` for anything else, requested at the comic's characters path |
| MarvelApi.FailedRequestsDiverge | src/marvelApi.js:42-80 | when every request fails in transport, parsing or the `data` access, the comic lookup rejects while the recent-comics and characters fetchers resolve to `[]` |
| MarvelApi.EmptyResultsAgree | src/marvelApi.js:42-80 | an empty results array is no failure: the comic lookup resolves to no comic and both list fetchers to `[]` |
| Seqs.ApplySwaps | src/marvelApi.js:54 | any sequence of transpositions, which is what the randomly-compared sort performs, leaves the same multiset |
| Decimal.IntTextRoundTrip | src/components/RecentComicsFeed.js:11 | parsing the decimal text of an integer gives back the integer |
| Decimal.IntTextInjective | src/marvelApi.js:13 | two integers have the same decimal text iff they are equal |
| Views.OnsaleDate | src/components/RecentComicsFeed.js:10 | absent iff no entry is an on-sale date; otherwise the date of the first on-sale entry |
| Views.FilterByYear | src/components/RecentComicsFeed.js:8-12 | the shown comics are an order-preserving subsequence holding exactly the comics the year predicate keeps, each as many times as in the list |
| Views.EmptyFilterKeepsAll | src/components/RecentComicsFeed.js:9 | an empty filter shows the whole list in order |
| Views.NoOnsaleDateExcluded | src/components/RecentComicsFeed.js:10-11 | with a non-empty filter a comic without an on-sale entry is never shown |
| Views.FirstOnsaleDecides | src/components/RecentComicsFeed.js:10 | the first on-sale entry decides the date whatever entries follow it |
| Views.KeptIffYearMatches | src/components/RecentComicsFeed.js:11 | for a filter that is a year's text, a comic is kept iff its first on-sale date is non-empty and falls in exactly that year |
| Views.SpacedFilterMatchesNothing | src/components/RecentComicsFeed.js:11 | a filter containing a space, such as " 2023", shows nothing |
| Views.SortByTitle | src/components/Favorites.js:6-8 | the sorted copy holds the same comics with the same multiplicities |
| Views.SortByTitleSorted | src/components/Favorites.js:6-8 | with a total, transitive comparator the copy is ordered by title |
| Views.RenderFavorites | src/components/Favorites.js:15-34 | the clear button is offered iff there are favourites; one card per favourite, each marked favourite, holding the same comics |
| Views.RenderedFavoritesSorted | src/components/Favorites.js:6-33 | with a consistent comparator the cards appear in title order |

## Left out

- Network, `response.json()`, `localStorage` and `console`: the server is a function from
  request to reply, storage is a state field, logging is dropped.
- MD5 (RFC 1321) is an uninterpreted parameter applied to the digest input's value, a string
  or NaN; how the digest library treats the number NaN is not modelled; `URLSearchParams` percent-encoding is an
  abstract serialiser of the ordered parameter list.
- `Math.random`: the offset draw is a real in [0, 1); the random comparator of the shuffle is
  an arbitrary sequence of transpositions. Uniformity is not modelled.
- `new Date(..).getFullYear()` (time-zone dependent) is an abstract function to a year or an
  invalid date; `localeCompare` is an abstract comparator.
- JSON serialisation of stored favourites is taken to be an exact round trip; a corrupt stored
  value, on which `JSON.parse` throws, is not modelled.
- React hooks and effect scheduling: handlers run one at a time, so the feed the round filters
  against is the feed it appends to.
- The `catch` branch of `loadComics`: `fetchRecentComics` never rejects, and batch entries are
  records, so the filter cannot throw in the model.
- JavaScript orders integer-like object keys first; the parameter keys here are not
  integer-like, so parameter order is insertion order.
- A string-valued `results` field, whose `length` and `[0]` `fetchComicById` would read, is not
  modelled; `NonArray` stands for values without a numeric `length`.
- Comic ids and timestamps are unbounded integers, not IEEE doubles.
- `src/components/ComicDetail.js` (two independent async loads and a one-second display delay)
  and `src/components/ComicCard.js` (presentation) are not part of this model.
- Views.SortByTitle: stability of the engine's sort is not stated, and sortedness is proved
  only for comparators that are total and transitive.
- MarvelApi.FetchRecentComics: the shuffle is stated as a permutation, not as a uniform one.
- Favorites.Load: stated over the stored list, not over its JSON text.
