# Issue enrichment: URL extraction and newer-wins cache

`fetchIssuesFull` (in `src/home/fetch-github/fetch-issues-full.ts`) takes a
list of preview issues and resolves each one to its full GitHub issue. For
each preview it does three things:

- it finds the issue URL in the preview's body with the pattern
  `https://github.com/(?<org>[^/]+)/(?<repo>[^/]+)/issues/(?<issue_number>\d+)`;
- it fetches that issue;
- it merges the fetched record into a cache of full issues. The cache is a
  list that is read into a `Map` keyed by issue id. The fetched record goes
  in when its id is new or when it was updated strictly later than the
  cached record. The map's values are then written back in insertion order.

It also records the preview → full pairing, and fetches the avatar of the
organisation named in the record's `html_url`.

This project models the deterministic parts of that function:

- `IssueUrl` treats the pattern as a parser. `MatchAt` parses at one start
  position and `Extract` searches left to right, like a non-global
  `String.prototype.match`. Both are proved equal to a declarative
  reference, `IsMatchAt` / `IsLeftmostMatch`. At a fixed start position the
  pattern can match in only one way. Each `[^/]+` group is followed by a
  literal `/`, so it can only take the longest slash-free run. The final
  `\d+` is greedy and nothing follows it.
- `OrderedMap` models JavaScript's `Map` with integer keys: a sequence of
  entries with distinct keys. It covers `get`, `set` (replace in place or
  append), `new Map(pairs)` (a repeated key keeps its first position and its last value) and `values()`.
- `IssueCache` holds the issue record and the newer-wins `Upsert`.
  Timestamps are abstract integers.
- `Enrich` models one preview's step. The remote API is a function from the
  extracted groups to the returned record; in a batch every turn has its own
  such function, since every preview makes its own request. The cache and the preview→full
  mapping are values passed in and returned. `Resolve` is the part of the
  step after matching, and `EnrichAll` runs a batch with the previews taking
  turns one after another.
- `Storage` models the two local-storage writes of a resolved preview. It
  covers both the source as written and a corrected version (see Findings).

## Model

| member | source | states |
|---|---|---|
| OrderedMap.IndexOf | src/home/fetch-github/fetch-issues-full.ts:36 | the position found for a key is the first entry holding it, and no position is found exactly when the key is absent |
| OrderedMap.Get | src/home/fetch-github/fetch-issues-full.ts:36 | `get` answers nothing exactly when the key is absent, and otherwise answers a value stored with that key |
| OrderedMap.Put | src/home/fetch-github/fetch-issues-full.ts:38 | after `set(k, v)`, `get(k)` answers `v` and every other key answers what it did before; an existing key keeps its position and every other entry stays put; a new key is appended after all entries; distinct keys stay distinct |
| OrderedMap.FromPairs | src/home/fetch-github/fetch-issues-full.ts:35 | `new Map(pairs)` has distinct keys, and every key answers the value of the last pair with that key (a key no pair has answers nothing) |
| OrderedMap.FromPairsFirstOrder | src/home/fetch-github/fetch-issues-full.ts:35 | `new Map(pairs)` lists its keys in the order of their first occurrence among the pairs |
| OrderedMap.FromPairsContents | src/home/fetch-github/fetch-issues-full.ts:35 | `new Map(pairs)` holds exactly the keys of the pairs, and each of its entries is one of the pairs |
| OrderedMap.FromDistinctPairs | src/home/fetch-github/fetch-issues-full.ts:35 | building a map from pairs with distinct keys gives back the same list in the same order |
| OrderedMap.GetIffEntry | src/home/fetch-github/fetch-issues-full.ts:36 | in a map, `get(k)` answers `v` if and only if the entry `(k, v)` is present |
| IssueUrl.NonSlashRunSpec | src/home/fetch-github/fetch-issues-full.ts:15 | the run that a `[^/]+` group followed by `/` can take: a slash-free stretch that ends at a `/` or at the end of the text |
| IssueUrl.SlashFreeRunAt | src/home/fetch-github/fetch-issues-full.ts:15 | conversely, a slash-free word standing right before a `/` is exactly the run `[^/]+` takes there |
| IssueUrl.DigitRunSpec | src/home/fetch-github/fetch-issues-full.ts:15 | the greedy `\d+` run: all digits, and not followed by a digit |
| IssueUrl.DigitRunAt | src/home/fetch-github/fetch-issues-full.ts:15 | conversely, a string of digits not followed by a digit is exactly the run `\d+` takes there |
| IssueUrl.MatchAtIff | src/home/fetch-github/fetch-issues-full.ts:15 | at every position, the parser returns groups `t` if and only if the URL of `t` stands there with valid groups and is not followed by a digit (both directions) |
| IssueUrl.Search | src/home/fetch-github/fetch-issues-full.ts:22 | the position found is the first at or after the start where the pattern matches; when nothing is found, the pattern matches at no position |
| IssueUrl.Extract | src/home/fetch-github/fetch-issues-full.ts:22-29 | on success, `org` and `repo` are non-empty and slash-free, `issue_number` is a non-empty string of digits, and their URL occurs in the body |
| IssueUrl.ExtractNoneIff | src/home/fetch-github/fetch-issues-full.ts:22-27 | extraction yields nothing if and only if no position of the body holds a match |
| IssueUrl.ExtractSomeIff | src/home/fetch-github/fetch-issues-full.ts:22 | extraction yields `t` if and only if `t` matches at some position and nothing matches at any earlier position (the leftmost match wins) |
| IssueUrl.LeftmostUnique | src/home/fetch-github/fetch-issues-full.ts:22 | there is at most one leftmost match: two of them have the same position and the same groups |
| IssueUrl.ShortTextHasNoMatch | src/home/fetch-github/fetch-issues-full.ts:22-27 | a body shorter than `https://github.com/` never matches, so its preview resolves to `null` |
| IssueUrl.ExtractRender | src/home/fetch-github/fetch-issues-full.ts:15 | round trip: for valid groups, extracting from `https://github.com/org/repo/issues/n` gives back exactly `(org, repo, n)` |
| IssueUrl.ExtractInContext | src/home/fetch-github/fetch-issues-full.ts:22 | text around an issue URL does not change the result, if the text before holds no match and the text after does not start with a digit; with more URLs after it, the first URL wins |
| IssueUrl.OnlySchemeHasDoubleSlash | src/home/fetch-github/fetch-issues-full.ts:15 | in any URL the pattern matches, two slashes in a row occur only in `https://`, so a match cannot begin before another URL and run into it |
| IssueCache.Index | src/home/fetch-github/fetch-issues-full.ts:35 | the map built from the cached list has distinct ids, each record is filed under its own id, and every cached record's id is a key |
| IssueCache.LookupLatest | src/home/fetch-github/fetch-issues-full.ts:35-36 | looking up an id in the map built from the cached list gives the last cached record carrying that id, and nothing when no record carries it |
| IssueCache.Upsert | src/home/fetch-github/fetch-issues-full.ts:34-41 | when the fetched record supersedes the cached one, the stored list has unique ids and holds the record; otherwise the list is left exactly as it was; nothing but cached records and the fetched record is stored |
| IssueCache.LookupFindsRecord | src/home/fetch-github/fetch-issues-full.ts:36 | in a cache with unique ids, looking up an id gives `x` if and only if `x` is cached with that id |
| IssueCache.UpsertLookup | src/home/fetch-github/fetch-issues-full.ts:36-38 | after the upsert, the fetched id answers the fetched record exactly when it superseded, and otherwise the old record; every other id answers exactly what it did before |
| IssueCache.UpsertNeverRegresses | src/home/fetch-github/fetch-issues-full.ts:37-38 | the stored record for the fetched id is never older than the fetched record or the previously cached one, and it is one of the two |
| IssueCache.UpsertAppends | src/home/fetch-github/fetch-issues-full.ts:35-39 | a fetched id that is absent from a unique-id cache is appended after all existing records |
| IssueCache.UpsertReplacesInPlace | src/home/fetch-github/fetch-issues-full.ts:36-41 | a cached id keeps its position; its record is replaced if and only if the fetched one was updated strictly later, and otherwise the cache is unchanged |
| IssueCache.UpsertIdempotent | src/home/fetch-github/fetch-issues-full.ts:36-41 | upserting the same record a second time changes nothing |
| IssueCache.UpsertBounds | src/home/fetch-github/fetch-issues-full.ts:35-39 | a unique-id cache stays unique-id and grows by at most one record |
| Enrich.AvatarOrg | src/home/fetch-github/fetch-issues-full.ts:46-48 | an organisation is chosen exactly when `html_url` matches the pattern, and it is that match's `org` group (the truthiness test never fails once the pattern matched) |
| Enrich.Resolve | src/home/fetch-github/fetch-issues-full.ts:24-49 | without groups the preview resolves to `null` and the session is unchanged; with groups, the request is exactly those groups, the result is what the API returns for them, and the avatar is fetched for the organisation that record's `html_url` yields |
| Enrich.EnrichPreview | src/home/fetch-github/fetch-issues-full.ts:21-52 | a preview resolves to `null` if and only if its body has no match; a `null` preview changes neither the cache nor the mapping; a resolved preview requests valid groups |
| Enrich.UnmatchedPreviewIsNull | src/home/fetch-github/fetch-issues-full.ts:22-27 | a body containing no match gives `null`, makes no request (the step is the same whatever the API would answer), and writes nothing |
| Enrich.MatchedPreviewResolves | src/home/fetch-github/fetch-issues-full.ts:29-42 | a body whose leftmost match is `t` requests `t` and returns the fetched record; the mapping files the record under the preview id and changes no other entry; the cache is rewritten exactly when the record supersedes, after which the fetched id looks up the fetched record, and otherwise what it looked up before; the cache is the upsert of the fetched record; no other issue's cached record changes |
| Enrich.AvatarFollowsHtmlUrl | src/home/fetch-github/fetch-issues-full.ts:46-49 | for a resolved preview, the avatar is fetched if and only if the fetched record's `html_url` matches the pattern, and for that match's `org` group |
| Enrich.EnrichAll | src/home/fetch-github/fetch-issues-full.ts:16 | `map` yields one outcome per preview; what each outcome is and what the batch leaves in the cache are stated by the batch lemmas below |
| Enrich.ResolveAllAt | src/home/fetch-github/fetch-issues-full.ts:16-31 | turn `j`, the `i`-th of a batch, is `null` exactly when its request is absent, and otherwise carries that request and the record turn `j`'s answer gave for it, whatever the earlier turns left in the cache and mapping |
| Enrich.BatchOutcomes | src/home/fetch-github/fetch-issues-full.ts:16-31 | over a batch, outcome `i` is `null` exactly when preview `i`'s body has no match; each resolved outcome requests that body's groups and carries what that preview's own request was answered with, whatever the earlier previews did |
| Enrich.BatchNeverRegresses | src/home/fetch-github/fetch-issues-full.ts:37-38 | over a batch, an issue that was cached stays cached, with a record updated no earlier |
| Enrich.BatchKeepsNewest | src/home/fetch-github/fetch-issues-full.ts:34-41 | after a batch, every fetched record's id is cached with a record updated no earlier than the fetched one |
| Enrich.LaterUpdateArrivingLastWins | src/home/fetch-github/fetch-issues-full.ts:16-38 | in a batch of two previews (possibly with the same URL) whose fetches return an older and then a newer record of one issue, the cache ends up holding the newer record, unless it already held one updated no earlier |
| Enrich.NewerUpsertWins | src/home/fetch-github/fetch-issues-full.ts:37-38 | two upserts of one issue with the later-updated record second leave the later-updated record cached |
| Enrich.AcmeWidgetsExample | src/home/fetch-github/fetch-issues-full.ts:22-49 | the body "see https://github.com/acme/widgets/issues/42" requests `acme/widgets#42`, returns issue 99, files it under preview 1, and fetches the avatar of `acme` |
| Storage.LoadCache | src/home/fetch-github/fetch-issues-full.ts:34 | an absent key reads as the empty cache; a stored list of issues reads back as itself; the read fails exactly when the key holds mapping entries |
| Storage.PersistAsWritten | src/home/fetch-github/fetch-issues-full.ts:40-45 | as written, an unresolved preview writes nothing, a resolved one leaves the mapping's entries under the cache key, and every other key keeps its value |
| Storage.Persist | src/home/fetch-github/fetch-issues-full.ts:40-45 | an unresolved preview writes nothing; a resolved one stores the rewritten cache under the cache key exactly when it rewrote it, stores the mapping under its own key, and leaves every other key with its value |
| Storage.AsWrittenLosesCache | src/home/fetch-github/fetch-issues-full.ts:40-45 | as written, every resolved preview leaves the mapping's entries under the cache key, so the cache can no longer be read |
| Storage.AsWrittenFirstPreview | src/home/fetch-github/fetch-issues-full.ts:34-45 | from empty storage, the first resolved preview rewrites the cache to hold its issue. As written, no readable cache is left afterwards; with the corrected writes, the cache holding that issue is read back |
| Storage.PersistRoundTrip | src/home/fetch-github/fetch-issues-full.ts:34-45 | with the mapping under its own key, the next preview reads back exactly the cache this preview computed |

## Left out

- The auth-token check (lines 12-14): it calls a getter that is not part of this model, and the only logic is a guard that throws.
- The Octokit request (line 31): the remote API is a parameter `IssueRef -> Issue`, one per turn in a batch. Rejected requests, and what happens to the promise then, are not modelled.
- `fetchAvatar` (line 49): the model only reports which organisation it would be called with. Failures of that call are not modelled.
- `document.querySelector` / `setAttribute` (lines 43-44) and `console.error` (line 25): these are DOM and logging side effects.
- The module-level `previewToFullMapping` and `organizationImageCache` (lines 8-9): the mapping is passed in and out as an `OrderedMap` value. The image cache is not used by the code modelled here. The `PreviewToFullMapping` class is not part of this model.
- `JSON.stringify` and the storage encoding: stored values are kept as Dafny values.
- Enrich.EnrichAll: the source starts every preview's request at once. The only `await`s are the request (line 31) and `fetchAvatar` (line 49), and `getLocalStore` is synchronous, so each preview's cache read (line 34), cache write (line 40) and mapping write (line 45) run in one uninterrupted stretch once its response arrives. What varies between runs is only the order in which the responses arrive. `EnrichAll` takes the previews in the order given, and any arrival order is `EnrichAll` over the previews reordered, so the batch lemmas cover every schedule. The model does not compute the arrival order itself.
- `new Date(updated_at)` parsing: a timestamp is an abstract integer. An unparsable date gives NaN in the source, and every comparison with NaN is false, so such a record never replaces a cached one. The model has no NaN.
- Strings are sequences of Unicode characters, while JavaScript strings and this regular expression (no `u` flag) work on UTF-16 code units. For this ASCII pattern the match is the same, but unpaired surrogates cannot be represented.
- A `null` or missing `preview.body` makes line 22 throw; a body is always a string here.
- Issue fields other than `id`, `updated_at` and `html_url`: they travel with the record and are never inspected.
- Storage.LoadCache: when the cache key holds `[previewId, issue]` pairs, the source goes on to read them as issues whose `id` is `undefined`. The model reports that read as a failure instead.
- The key `previewToFullMapping` used by `Storage.Persist` is chosen by this model. The source has no second key.

## Findings

| source | as written | input that shows it | evidently intended | confidence | as-written member | corrected member |
|---|---|---|---|---|---|---|
| src/home/fetch-github/fetch-issues-full.ts:45 | after a resolved preview, the preview→full mapping's entries are stored under `gitHubIssuesFull`, the key the cache was just written to at line 40 | empty storage; preview `{id: 1, body: "see https://github.com/acme/widgets/issues/42"}`; the API returns issue 99. The cache is rewritten to `[issue 99]`, then replaced by `[[1, issue 99]]` | the mapping is stored under a key of its own, so the cache written at line 40 is what the next preview reads at line 34 | medium, not executed | Storage.PersistAsWritten, shown by Storage.AsWrittenLosesCache and Storage.AsWrittenFirstPreview | Storage.Persist, proved by Storage.PersistRoundTrip |

Because of this defect, the source as written does not keep the newer-wins
cache across previews. The model's batch lemmas (`Enrich.BatchKeepsNewest`)
are about the cache as the upsert computes it, which is what `Storage.Persist`
stores.
