/** The full-issue cache of `fetchIssuesFull`: a list of issues that is read
    into a `Map` keyed by issue id, updated with a freshly fetched issue when
    that issue is new or more recently updated, and written back as the
    map's values in insertion order. */
module IssueCache {
  import opened Wrappers
  import opened OrderedMap

  /** A full issue record. `updatedAt` stands for the instant that
      `new Date(updated_at)` denotes; the issue's remaining fields travel
      with the record and are not inspected. */
  datatype Issue = Issue(id: int, updatedAt: int, htmlUrl: string)

  /** `cachedIssues.map((issue) => [issue.id, issue])`. */
  function Keyed(cache: seq<Issue>): (r: Entries<Issue>)
    ensures |r| == |cache|
    ensures forall j :: 0 <= j < |cache| ==> r[j] == (cache[j].id, cache[j])
  {
    seq(|cache|, j requires 0 <= j < |cache| => (cache[j].id, cache[j]))
  }

  /** A cache as the upsert writes it: no two records share an id. */
  predicate UniqueIds(cache: seq<Issue>)
  {
    forall i, j :: 0 <= i < j < |cache| ==> cache[i].id != cache[j].id
  }

  /** Every entry is filed under its own issue's id. */
  predicate FiledById(m: Entries<Issue>)
  {
    forall j :: 0 <= j < |m| ==> m[j].0 == m[j].1.id
  }

  /** `cachedIssuesMap`: the cache as a map from id to issue. */
  function Index(cache: seq<Issue>): (r: Entries<Issue>)
    ensures DistinctKeys(r) && FiledById(r)
    ensures forall x :: x in cache ==> x.id in Keys(r)
  {
    var xs := Keyed(cache);
    var r := FromPairs(xs);
    FromPairsContents(xs);
    forall j | 0 <= j < |r| ensures r[j].0 == r[j].1.id {
      assert r[j] in xs;
    }
    forall x | x in cache ensures x.id in Keys(r) {
      var j :| 0 <= j < |cache| && cache[j] == x;
      assert Keys(xs)[j] == x.id;
    }
    r
  }

  /** `cachedIssuesMap.get(id)`. */
  function Lookup(cache: seq<Issue>, id: int): Option<Issue>
  {
    Get(Index(cache), id)
  }

  /** The last record of the cached list that carries `id`, if any. */
  function LatestWithId(cache: seq<Issue>, id: int): (r: Option<Issue>)
    ensures r.None? <==> forall j :: 0 <= j < |cache| ==> cache[j].id != id
    ensures r.Some? ==> r.value in cache && r.value.id == id
  {
    if |cache| == 0 then None
    else if cache[|cache| - 1].id == id then Some(cache[|cache| - 1])
    else
      var r := LatestWithId(cache[..|cache| - 1], id);
      assert forall j :: 0 <= j < |cache| - 1 ==> cache[..|cache| - 1][j] == cache[j];
      r
  }

  /** Reading a list with repeated ids into the map keeps, for each id, the
      last record that carries it; an id no record carries answers nothing. */
  lemma LookupLatest(cache: seq<Issue>, id: int)
    ensures Lookup(cache, id) == LatestWithId(cache, id)
  {
    LastValueKeyed(cache, id);
  }

  /** The last pair keyed `id` holds the last record carrying `id`. */
  lemma {:induction false} LastValueKeyed(cache: seq<Issue>, id: int)
    ensures LastValue(Keyed(cache), id) == LatestWithId(cache, id)
    decreases |cache|
  {
    if |cache| > 0 {
      var prefix := cache[..|cache| - 1];
      LastValueKeyed(prefix, id);
      assert Keyed(cache)[..|cache| - 1] == Keyed(prefix);
    }
  }

  /** The guard of the write: nothing is cached under the id, or the fetched
      record was updated strictly later than the cached one. */
  predicate Supersedes(full: Issue, cached: Option<Issue>)
  {
    cached.None? || full.updatedAt > cached.value.updatedAt
  }

  /** The list stored after the fetched record `full` has been considered:
      rewritten from the updated map when `full` supersedes the cached
      record, otherwise the list as it was. */
  function Upsert(cache: seq<Issue>, full: Issue): (r: seq<Issue>)
    ensures Supersedes(full, Lookup(cache, full.id)) ==> UniqueIds(r) && full in r
    ensures !Supersedes(full, Lookup(cache, full.id)) ==> r == cache
    ensures forall x :: x in r ==> x in cache || x == full
  {
    var m := Index(cache);
    if Supersedes(full, Get(m, full.id)) then
      WrittenList(cache, full);
      Values(Put(m, full.id, full))
    else cache
  }

  /** The list written back after `set`: ids stay distinct, the fetched
      record is in it, and every record in it was cached or is the fetched
      one. */
  lemma WrittenList(cache: seq<Issue>, full: Issue)
    ensures var r := Values(Put(Index(cache), full.id, full));
      && UniqueIds(r) && full in r
      && forall x :: x in r ==> x in cache || x == full
  {
    var m := Index(cache);
    var m' := Put(m, full.id, full);
    assert UniqueIds(Values(m')) by {
      ValuesAreUnique(m');
    }
    assert full in Values(m') by {
      assert Values(m')[IndexOf(m', full.id).value] == full;
    }
    forall x | x in Values(m') ensures x in cache || x == full {
      var j :| 0 <= j < |m'| && Values(m')[j] == x;
      assert m'[j] in m || m'[j] == (full.id, full);
      FromPairsContents(Keyed(cache));
    }
  }

  /** The values of a map filed by id carry pairwise distinct ids. */
  lemma ValuesAreUnique(m: Entries<Issue>)
    requires DistinctKeys(m) && FiledById(m)
    ensures UniqueIds(Values(m))
    ensures Keyed(Values(m)) == m
  {
  }

  /** On a cache without repeated ids, the map lists the records in order. */
  lemma IndexOfUnique(cache: seq<Issue>)
    requires UniqueIds(cache)
    ensures Index(cache) == Keyed(cache)
    ensures Values(Index(cache)) == cache
  {
    FromDistinctPairs(Keyed(cache));
  }

  /** On a cache without repeated ids, looking up an id finds the record
      that carries it. */
  lemma LookupFindsRecord(cache: seq<Issue>, id: int, x: Issue)
    requires UniqueIds(cache)
    ensures Lookup(cache, id) == Some(x) <==> x in cache && x.id == id
  {
    IndexOfUnique(cache);
    GetIffEntry(Keyed(cache), id, x);
    if x in cache && x.id == id {
      var j :| 0 <= j < |cache| && cache[j] == x;
      assert Keyed(cache)[j] == (id, x);
    }
  }

  /** Looking up any id after the upsert: the fetched id now answers the
      fetched record when it superseded the cached one and the cached
      record otherwise; every other id answers exactly what it did before. */
  lemma UpsertLookup(cache: seq<Issue>, full: Issue, id: int)
    ensures Lookup(Upsert(cache, full), id)
         == if id == full.id && Supersedes(full, Lookup(cache, full.id)) then Some(full)
            else Lookup(cache, id)
  {
    if Supersedes(full, Lookup(cache, full.id)) {
      LookupAfterWrite(cache, full, id);
    }
  }

  /** The written branch of `UpsertLookup`. */
  lemma LookupAfterWrite(cache: seq<Issue>, full: Issue, id: int)
    requires Supersedes(full, Lookup(cache, full.id))
    ensures Lookup(Upsert(cache, full), id) == if id == full.id then Some(full) else Lookup(cache, id)
  {
    var m' := Put(Index(cache), full.id, full);
    assert Upsert(cache, full) == Values(m');
    ReadBackWritten(m');
  }

  /** Reading a written map back as a cache gives the same map again. */
  lemma ReadBackWritten(m: Entries<Issue>)
    requires DistinctKeys(m) && FiledById(m)
    ensures Index(Values(m)) == m
  {
    ValuesAreUnique(m);
    IndexOfUnique(Values(m));
  }

  /** Monotonicity: after the upsert the fetched id is cached, with a record
      at least as recent as the fetched one and as the one cached before,
      and that record is one of the two. */
  lemma UpsertNeverRegresses(cache: seq<Issue>, full: Issue)
    ensures var stored := Lookup(Upsert(cache, full), full.id);
      && stored.Some?
      && stored.value.updatedAt >= full.updatedAt
      && (stored.value == full || Lookup(cache, full.id) == stored)
      && (Lookup(cache, full.id).Some? ==>
            stored.value.updatedAt >= Lookup(cache, full.id).value.updatedAt)
  {
    UpsertLookup(cache, full, full.id);
  }

  /** An id that is not cached yet is appended after all existing records. */
  lemma UpsertAppends(cache: seq<Issue>, full: Issue)
    requires UniqueIds(cache)
    requires forall x :: x in cache ==> x.id != full.id
    ensures Upsert(cache, full) == cache + [full]
  {
    IndexOfUnique(cache);
    var m := Index(cache);
    assert full.id !in Keys(m);
    assert Values(m + [(full.id, full)]) == Values(m) + [full];
  }

  /** An id that is cached already keeps its position: its record is
      replaced when, and only when, the fetched one was updated strictly
      later; otherwise the cache is left exactly as it was. */
  lemma UpsertReplacesInPlace(cache: seq<Issue>, full: Issue, i: nat)
    requires UniqueIds(cache)
    requires i < |cache| && cache[i].id == full.id
    ensures Upsert(cache, full)
         == if full.updatedAt > cache[i].updatedAt then cache[i := full] else cache
  {
    IndexOfUnique(cache);
    LookupFindsRecord(cache, full.id, cache[i]);
    if full.updatedAt > cache[i].updatedAt {
      OverwriteInPlace(cache, full, i);
    }
  }

  /** `set` on a cached id rewrites that record where it stands. */
  lemma OverwriteInPlace(cache: seq<Issue>, full: Issue, i: nat)
    requires UniqueIds(cache)
    requires i < |cache| && cache[i].id == full.id
    ensures Values(Put(Keyed(cache), full.id, full)) == cache[i := full]
  {
    var m := Keyed(cache);
    FirstIndex(m, full.id, i);
    assert Put(m, full.id, full) == m[i := (full.id, full)];
    assert Values(m[i := (full.id, full)]) == cache[i := full];
  }

  /** Upserting the same record twice stores what upserting it once does. */
  lemma UpsertIdempotent(cache: seq<Issue>, full: Issue)
    ensures Upsert(Upsert(cache, full), full) == Upsert(cache, full)
  {
    UpsertNeverRegresses(cache, full);
  }

  /** A cache without repeated ids keeps that shape, and grows by at most
      the one fetched record. */
  lemma UpsertBounds(cache: seq<Issue>, full: Issue)
    requires UniqueIds(cache)
    ensures UniqueIds(Upsert(cache, full))
    ensures |cache| <= |Upsert(cache, full)| <= |cache| + 1
  {
    if j :| 0 <= j < |cache| && cache[j].id == full.id {
      UpsertReplacesInPlace(cache, full, j);
    } else {
      UpsertAppends(cache, full);
    }
  }
}
