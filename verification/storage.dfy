/** What one enriched preview leaves in local storage. The cache is read as
    `getLocalStore("gitHubIssuesFull") || []`; a rewritten cache is stored
    under that key, and afterwards the preview-to-full mapping's entries are
    stored as well. As written, the mapping goes under the same key and
    replaces the cache; `Persist` stores it under a key of its own. */
module Storage {
  import opened Wrappers
  import opened OrderedMap
  import opened IssueUrl
  import opened IssueCache
  import opened Enrich

  /** A JSON value kept in local storage: a list of issues, or a list of
      `[previewId, issue]` pairs. */
  datatype Stored = IssueList(issues: seq<Issue>) | MappingEntries(entries: Entries<Issue>)

  /** Local storage, from key to stored value. */
  type Store = map<string, Stored>

  /** The key the cache is read from and written to. */
  const CacheKey: string := "gitHubIssuesFull"

  /** A key of its own for the preview-to-full mapping. */
  const MappingKey: string := "previewToFullMapping"

  /** The cache as the next preview reads it: an absent key reads as the
      empty list; mapping entries are not a list of issues, and reading them
      as one fails. */
  function LoadCache(store: Store): (r: Option<seq<Issue>>)
    ensures CacheKey !in store ==> r == Some([])
    ensures CacheKey in store && store[CacheKey].IssueList? ==> r == Some(store[CacheKey].issues)
    ensures r.None? <==> CacheKey in store && store[CacheKey].MappingEntries?
  {
    if CacheKey !in store then Some([])
    else
      match store[CacheKey]
      case IssueList(issues) => Some(issues)
      case MappingEntries(_) => None
  }

  /** The two writes of one resolved preview as the source orders them: the
      cache when it was rewritten, then the mapping's entries under the same
      key. An unresolved preview writes nothing. */
  function PersistAsWritten(store: Store, step: Step): (r: Store)
    ensures step.outcome.Unresolved? ==> r == store
    ensures step.outcome.Resolved? ==> CacheKey in r && r[CacheKey] == MappingEntries(step.after.mapping)
    ensures forall k :: k != CacheKey ==> (k in r <==> k in store)
    ensures forall k :: k != CacheKey && k in store ==> r[k] == store[k]
  {
    match step.outcome
    case Unresolved => store
    case Resolved(_, _, written, _) =>
      var withCache := if written then store[CacheKey := IssueList(step.after.cache)] else store;
      withCache[CacheKey := MappingEntries(step.after.mapping)]
  }

  /** The same two writes with the mapping under its own key. */
  function Persist(store: Store, step: Step): (r: Store)
    ensures step.outcome.Unresolved? ==> r == store
    ensures step.outcome.Resolved? ==> MappingKey in r && r[MappingKey] == MappingEntries(step.after.mapping)
    ensures step.outcome.Resolved? && step.outcome.cacheWritten ==>
      CacheKey in r && r[CacheKey] == IssueList(step.after.cache)
    ensures !(step.outcome.Resolved? && step.outcome.cacheWritten) ==>
      (CacheKey in r <==> CacheKey in store) && (CacheKey in store ==> r[CacheKey] == store[CacheKey])
    ensures forall k :: k != CacheKey && k != MappingKey ==> (k in r <==> k in store)
    ensures forall k :: k != CacheKey && k != MappingKey && k in store ==> r[k] == store[k]
  {
    match step.outcome
    case Unresolved => store
    case Resolved(_, _, written, _) =>
      var withCache := if written then store[CacheKey := IssueList(step.after.cache)] else store;
      withCache[MappingKey := MappingEntries(step.after.mapping)]
  }

  /** As written, a resolved preview always leaves the mapping's entries
      under the cache key, whether or not it had just rewritten the cache:
      the next preview can no longer read the cache. */
  lemma AsWrittenLosesCache(store: Store, step: Step)
    requires step.outcome.Resolved?
    ensures PersistAsWritten(store, step)[CacheKey] == MappingEntries(step.after.mapping)
    ensures LoadCache(PersistAsWritten(store, step)).None?
  {
  }

  /** A concrete case: with nothing stored, the first preview that resolves
      fetches issue 99, rewrites the cache to hold it, and still leaves no
      readable cache behind, where the cache holding issue 99 was meant. */
  lemma AsWrittenFirstPreview(remote: IssueRef -> Issue)
    requires remote(IssueRef("acme", "widgets", "42"))
          == Issue(99, 20240102, "https://github.com/acme/widgets/issues/42")
    ensures var full := Issue(99, 20240102, "https://github.com/acme/widgets/issues/42");
      var step := EnrichPreview(Preview(1, "see " + full.htmlUrl), remote, Session([], []));
      && step.outcome.Resolved? && step.outcome.cacheWritten
      && step.after.cache == [full]
      && LoadCache(PersistAsWritten(map[], step)) == None
      && LoadCache(Persist(map[], step)) == Some([full])
  {
    var full := Issue(99, 20240102, "https://github.com/acme/widgets/issues/42");
    AcmeWidgetsExample(remote, Session([], []));
    UpsertAppends([], full);
    var step := EnrichPreview(Preview(1, "see " + full.htmlUrl), remote, Session([], []));
    AsWrittenLosesCache(map[], step);
  }

  /** With the mapping under its own key, storage round-trips: what the next
      preview reads back is exactly the cache this preview computed, and the
      mapping is stored beside it. */
  lemma PersistRoundTrip(store: Store, cache: seq<Issue>, mapping: Entries<Issue>, preview: Preview, remote: IssueRef -> Issue)
    requires LoadCache(store) == Some(cache)
    ensures var step := EnrichPreview(preview, remote, Session(cache, mapping));
      LoadCache(Persist(store, step)) == Some(step.after.cache)
  {
  }
}
