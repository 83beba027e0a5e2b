/** One pass of `fetchIssuesFull` over a list of preview issues, with the
    network, the browser and the clock taken out: the remote issue API is a
    function from the extracted groups to the record it returns, and the
    cache and the preview-to-full mapping are values passed in and out. */
module Enrich {
  import opened Wrappers
  import opened OrderedMap
  import opened IssueUrl
  import opened IssueCache

  /** A preview issue: its id and the body that embeds the full issue's URL. */
  datatype Preview = Preview(id: int, body: string)

  /** What one preview resolves to. */
  datatype Outcome =
    | Unresolved
      /** the body holds no issue URL: the promise resolves to `null` */
    | Resolved(request: IssueRef, full: Issue, cacheWritten: bool, avatarOrg: Option<string>)
      /** the issue `request` was fetched as `full`; `cacheWritten` tells
          whether the cache was rewritten, `avatarOrg` which organisation's
          avatar was fetched, if any */

  /** The state one preview reads and updates: the cached full issues and
      the preview-to-full mapping. */
  datatype Session = Session(cache: seq<Issue>, mapping: Entries<Issue>)

  /** The outcome of one preview and the state it leaves. */
  datatype Step = Step(outcome: Outcome, after: Session)

  /** The outcomes of a batch, in the order of the previews, and the state it leaves. */
  datatype Batch = Batch(outcomes: seq<Outcome>, after: Session)

  /** `full.html_url.match(urlPattern)?.groups?.org`, kept when truthy: the
      organisation whose avatar is fetched. */
  function AvatarOrg(htmlUrl: string): (r: Option<string>)
    ensures r.Some? <==> Extract(htmlUrl).Some?
    ensures r.Some? ==> r.value == Extract(htmlUrl).value.org
  {
    match Extract(htmlUrl)
    case None => None
    case Some(t) => if |t.org| > 0 then Some(t.org) else None
  }

  /** The rest of one preview's turn once its body has been matched against
      the pattern, `request` being the groups of the first match if there
      was one: `null` without a request when there was none; otherwise the
      issue is fetched, the cache is upserted with it, the mapping files it
      under the preview's id, and the avatar of the organisation in its
      `html_url` is fetched. */
  function Resolve(id: int, request: Option<IssueRef>, remote: IssueRef -> Issue, before: Session): (r: Step)
    ensures r.outcome.Unresolved? <==> request.None?
    ensures r.outcome.Unresolved? ==> r.after == before
    ensures r.outcome.Resolved? ==> r.outcome.request == request.value && r.outcome.full == remote(request.value)
    ensures r.outcome.Resolved? ==> r.outcome.avatarOrg == AvatarOrg(r.outcome.full.htmlUrl)
  {
    match request
    case None => Step(Unresolved, before)
    case Some(ref) =>
      var full := remote(ref);
      var written := Supersedes(full, Lookup(before.cache, full.id));
      Step(Resolved(ref, full, written, AvatarOrg(full.htmlUrl)),
           Session(Upsert(before.cache, full), Put(before.mapping, id, full)))
  }

  /** The function `mapping` returns, applied to one preview. */
  function EnrichPreview(preview: Preview, remote: IssueRef -> Issue, before: Session): (r: Step)
    ensures r.outcome.Unresolved? <==> Extract(preview.body).None?
    ensures r.outcome.Unresolved? ==> r.after == before
    ensures r.outcome.Resolved? ==> ValidRef(r.outcome.request)
  {
    Resolve(preview.id, Extract(preview.body), remote, before)
  }

  /** Each preview's id with what matching its body yields. */
  function Requests(previews: seq<Preview>): (r: seq<(int, Option<IssueRef>)>)
    ensures |r| == |previews|
  {
    seq(|previews|, i requires 0 <= i < |previews| => (previews[i].id, Extract(previews[i].body)))
  }

  /** The previews' turns, given what matching each body yielded, taken one
      after another: each sees the state the previous one left. Turn `j`
      makes its own request, which `remote(j)` answers, so two turns that
      request the same issue may receive different records of it. The
      first of `requests` is turn `turn`. */
  function ResolveAll(requests: seq<(int, Option<IssueRef>)>, remote: nat -> IssueRef -> Issue, turn: nat, before: Session): (r: Batch)
    ensures |r.outcomes| == |requests|
    decreases |requests|
  {
    if |requests| == 0 then Batch([], before)
    else
      var first := Resolve(requests[0].0, requests[0].1, remote(turn), before);
      var rest := ResolveAll(requests[1..], remote, turn + 1, first.after);
      Batch([first.outcome] + rest.outcomes, rest.after)
  }

  /** `cachedPreviews.map(mapping(...))`, with the previews taking their
      turns one after another in the order their responses arrive; the
      `i`-th of them is answered by `remote(i)`. */
  function EnrichAll(previews: seq<Preview>, remote: nat -> IssueRef -> Issue, before: Session): (r: Batch)
    ensures |r.outcomes| == |previews|
  {
    ResolveAll(Requests(previews), remote, 0, before)
  }

  /** Turn `j`, the `i`-th of a batch started at turn `turn`, answers its
      own request; by induction on `i`. */
  lemma {:induction false} ResolveAllAt(requests: seq<(int, Option<IssueRef>)>, remote: nat -> IssueRef -> Issue, turn: nat, before: Session, i: nat, j: nat)
    requires i < |requests| && j == turn + i
    ensures Answers(requests[i].1, remote(j), ResolveAll(requests, remote, turn, before).outcomes[i])
    decreases i
  {
    var mid := FirstTurn(requests, remote, turn, before);
    if i > 0 {
      ResolveAllAt(requests[1..], remote, turn + 1, mid, i - 1, j);
      assert requests[1..][i - 1] == requests[i];
    }
  }

  /** The first turn of a batch answers its request and leaves a state
      `mid` from which the batch of the other turns yields the rest. */
  lemma FirstTurn(requests: seq<(int, Option<IssueRef>)>, remote: nat -> IssueRef -> Issue, turn: nat, before: Session)
    returns (mid: Session)
    requires |requests| > 0
    ensures var r := ResolveAll(requests, remote, turn, before);
      var rest := ResolveAll(requests[1..], remote, turn + 1, mid);
      && Answers(requests[0].1, remote(turn), r.outcomes[0])
      && forall i :: 1 <= i < |requests| ==> r.outcomes[i] == rest.outcomes[i - 1]
  {
    mid := Resolve(requests[0].0, requests[0].1, remote(turn), before).after;
    ResolveAllSplit(requests, remote, turn, before);
    ResolveAnswers(requests[0].0, requests[0].1, remote(turn), before);
  }

  /** One turn answers its request with what `answer` returns for it. */
  lemma ResolveAnswers(id: int, request: Option<IssueRef>, answer: IssueRef -> Issue, before: Session)
    ensures Answers(request, answer, Resolve(id, request, answer, before).outcome)
  {
  }

  /** Outcome `o` is what a turn yields for `request` when `answer` answers
      it: `null` exactly without a request, and otherwise the answer to the
      request. */
  predicate Answers(request: Option<IssueRef>, answer: IssueRef -> Issue, o: Outcome)
  {
    && (o.Unresolved? <==> request.None?)
    && (o.Resolved? ==> request == Some(o.request) && o.full == answer(o.request))
  }

  /** A batch is its first turn followed by the batch of the others, run
      from the state that turn left. */
  lemma ResolveAllSplit(requests: seq<(int, Option<IssueRef>)>, remote: nat -> IssueRef -> Issue, turn: nat, before: Session)
    requires |requests| > 0
    ensures var first := Resolve(requests[0].0, requests[0].1, remote(turn), before);
      var rest := ResolveAll(requests[1..], remote, turn + 1, first.after);
      var r := ResolveAll(requests, remote, turn, before);
      && r.after == rest.after
      && r.outcomes[0] == first.outcome
      && forall i :: 1 <= i < |requests| ==> r.outcomes[i] == rest.outcomes[i - 1] && requests[i] == requests[1..][i - 1]
  {
    var first := Resolve(requests[0].0, requests[0].1, remote(turn), before);
    var rest := ResolveAll(requests[1..], remote, turn + 1, first.after);
    assert ResolveAll(requests, remote, turn, before) == Batch([first.outcome] + rest.outcomes, rest.after);
  }

  /** Each preview of a batch resolves to `null` exactly when its body holds
      no issue URL, and otherwise to the record the remote API returns for
      the groups extracted from its body, whatever the previews before it did. */
  lemma BatchOutcomes(previews: seq<Preview>, remote: nat -> IssueRef -> Issue, before: Session)
    ensures var r := EnrichAll(previews, remote, before);
      forall i :: 0 <= i < |previews| ==>
        && (r.outcomes[i].Unresolved? <==> Extract(previews[i].body).None?)
        && (r.outcomes[i].Resolved? ==>
              Extract(previews[i].body) == Some(r.outcomes[i].request)
              && r.outcomes[i].full == remote(i)(r.outcomes[i].request))
  {
    forall i | 0 <= i < |previews| {
      BatchOutcomeAt(previews, remote, before, i);
    }
  }

  /** The `i`-th preview of a batch, which is turn `i`. */
  lemma BatchOutcomeAt(previews: seq<Preview>, remote: nat -> IssueRef -> Issue, before: Session, i: nat)
    requires i < |previews|
    ensures var o := EnrichAll(previews, remote, before).outcomes[i];
      Answers(Extract(previews[i].body), remote(i), o)
  {
    var requests := Requests(previews);
    ResolveAllAt(requests, remote, 0, before, i, i);
    assert requests[i].1 == Extract(previews[i].body);
  }

  /** A preview whose body holds no issue URL resolves to `null` without a
      request: its step is the same whatever the remote API would answer,
      and it leaves the cache and the mapping as they were. */
  lemma UnmatchedPreviewIsNull(preview: Preview, remote: IssueRef -> Issue, other: IssueRef -> Issue, before: Session)
    requires forall i: nat, t: IssueRef :: i <= |preview.body| ==> !IsMatchAt(preview.body, i, t)
    ensures EnrichPreview(preview, remote, before) == Step(Unresolved, before)
    ensures EnrichPreview(preview, remote, before) == EnrichPreview(preview, other, before)
  {
    ExtractNoneIff(preview.body);
  }

  /** A preview whose body holds an issue URL requests the leftmost URL's
      issue, files the fetched record under the preview's id in the
      mapping, rewrites the cache exactly when the record supersedes the
      cached one, and leaves every other preview's mapping entry and every
      other issue's cached record alone. */
  lemma MatchedPreviewResolves(preview: Preview, remote: IssueRef -> Issue, before: Session, t: IssueRef, i: nat)
    requires IsLeftmostMatch(preview.body, i, t)
    ensures var r := EnrichPreview(preview, remote, before);
      var full := remote(t);
      && r.outcome.Resolved?
      && r.outcome.request == t
      && r.outcome.full == full
      && Get(r.after.mapping, preview.id) == Some(full)
      && (forall p :: p != preview.id ==> Get(r.after.mapping, p) == Get(before.mapping, p))
      && (r.outcome.cacheWritten <==> Supersedes(full, Lookup(before.cache, full.id)))
      && (!r.outcome.cacheWritten ==> r.after.cache == before.cache)
      && (forall id :: id != full.id ==> Lookup(r.after.cache, id) == Lookup(before.cache, id))
      && Lookup(r.after.cache, full.id)
           == (if Supersedes(full, Lookup(before.cache, full.id)) then Some(full) else Lookup(before.cache, full.id))
      && r.after.cache == Upsert(before.cache, full)
  {
    ExtractSomeIff(preview.body, t);
    var full := remote(t);
    UpsertLookup(before.cache, full, full.id);
    forall id | id != full.id
      ensures Lookup(Upsert(before.cache, full), id) == Lookup(before.cache, id)
    {
      UpsertLookup(before.cache, full, id);
    }
  }

  /** The avatar is fetched exactly when the record's `html_url` matches
      the pattern, and for the organisation that match captured; the
      truthiness test on the group never fails once the pattern matched. */
  lemma AvatarFollowsHtmlUrl(preview: Preview, remote: IssueRef -> Issue, before: Session)
    requires EnrichPreview(preview, remote, before).outcome.Resolved?
    ensures var o := EnrichPreview(preview, remote, before).outcome;
      && (o.avatarOrg.Some? <==> Extract(o.full.htmlUrl).Some?)
      && (o.avatarOrg.Some? ==> o.avatarOrg.value == Extract(o.full.htmlUrl).value.org)
  {
  }

  /** Taking turns never makes a cached record older: an issue cached before
      the turns is still cached afterwards, updated no earlier. */
  lemma {:induction false} ResolveAllNeverRegresses(requests: seq<(int, Option<IssueRef>)>, remote: nat -> IssueRef -> Issue, turn: nat, before: Session, id: int)
    requires Lookup(before.cache, id).Some?
    ensures var stored := Lookup(ResolveAll(requests, remote, turn, before).after.cache, id);
      stored.Some? && stored.value.updatedAt >= Lookup(before.cache, id).value.updatedAt
    decreases |requests|
  {
    if |requests| > 0 {
      var first := Resolve(requests[0].0, requests[0].1, remote(turn), before);
      if first.outcome.Resolved? {
        var full := first.outcome.full;
        UpsertLookup(before.cache, full, id);
        UpsertNeverRegresses(before.cache, full);
      }
      ResolveAllNeverRegresses(requests[1..], remote, turn + 1, first.after, id);
    }
  }

  /** The session invariant: after the turns, every fetched record's id is
      cached with a record updated no earlier than the fetched one. */
  lemma {:induction false} ResolveAllKeepsNewest(requests: seq<(int, Option<IssueRef>)>, remote: nat -> IssueRef -> Issue, turn: nat, before: Session, i: nat)
    requires i < |requests|
    requires ResolveAll(requests, remote, turn, before).outcomes[i].Resolved?
    ensures var full := ResolveAll(requests, remote, turn, before).outcomes[i].full;
      var stored := Lookup(ResolveAll(requests, remote, turn, before).after.cache, full.id);
      stored.Some? && stored.value.updatedAt >= full.updatedAt
    decreases |requests|
  {
    var first := Resolve(requests[0].0, requests[0].1, remote(turn), before);
    ResolveAllSplit(requests, remote, turn, before);
    if i == 0 {
      var full := first.outcome.full;
      UpsertNeverRegresses(before.cache, full);
      ResolveAllNeverRegresses(requests[1..], remote, turn + 1, first.after, full.id);
    } else {
      ResolveAllKeepsNewest(requests[1..], remote, turn + 1, first.after, i - 1);
    }
  }

  /** Enriching a batch never makes a cached record older: an issue cached
      before the batch is still cached afterwards, updated no earlier. */
  lemma BatchNeverRegresses(previews: seq<Preview>, remote: nat -> IssueRef -> Issue, before: Session, id: int)
    requires Lookup(before.cache, id).Some?
    ensures var stored := Lookup(EnrichAll(previews, remote, before).after.cache, id);
      stored.Some? && stored.value.updatedAt >= Lookup(before.cache, id).value.updatedAt
  {
    ResolveAllNeverRegresses(Requests(previews), remote, 0, before, id);
  }

  /** After a batch, every fetched record's id is cached with a record
      updated no earlier than the fetched one. */
  lemma BatchKeepsNewest(previews: seq<Preview>, remote: nat -> IssueRef -> Issue, before: Session, i: nat)
    requires i < |previews|
    requires EnrichAll(previews, remote, before).outcomes[i].Resolved?
    ensures var full := EnrichAll(previews, remote, before).outcomes[i].full;
      var stored := Lookup(EnrichAll(previews, remote, before).after.cache, full.id);
      stored.Some? && stored.value.updatedAt >= full.updatedAt
  {
    ResolveAllKeepsNewest(Requests(previews), remote, 0, before, i);
  }

  /** Two previews whose bodies name issues (possibly the same URL) and
      whose fetches return an older and then a newer record of one issue:
      unless the cache already held that issue updated no earlier than the
      newer record, the batch leaves the newer record cached. */
  lemma LaterUpdateArrivingLastWins(p: Preview, q: Preview, remote: nat -> IssueRef -> Issue, before: Session)
    requires Extract(p.body).Some? && Extract(q.body).Some?
    requires var older := remote(0)(Extract(p.body).value);
      var newer := remote(1)(Extract(q.body).value);
      && older.id == newer.id && older.updatedAt < newer.updatedAt
      && Supersedes(newer, Lookup(before.cache, newer.id))
    ensures var newer := remote(1)(Extract(q.body).value);
      Lookup(EnrichAll([p, q], remote, before).after.cache, newer.id) == Some(newer)
  {
    assert Requests([p, q]) == [(p.id, Extract(p.body)), (q.id, Extract(q.body))];
    NewerTurnWins(Requests([p, q]), remote, 0, before);
  }

  /** Two turns that both request an issue, the second receiving a record
      of the same issue updated later than the first's. */
  lemma NewerTurnWins(requests: seq<(int, Option<IssueRef>)>, remote: nat -> IssueRef -> Issue, turn: nat, before: Session)
    requires |requests| == 2 && requests[0].1.Some? && requests[1].1.Some?
    requires var older := remote(turn)(requests[0].1.value);
      var newer := remote(turn + 1)(requests[1].1.value);
      && older.id == newer.id && older.updatedAt < newer.updatedAt
      && Supersedes(newer, Lookup(before.cache, newer.id))
    ensures var newer := remote(turn + 1)(requests[1].1.value);
      Lookup(ResolveAll(requests, remote, turn, before).after.cache, newer.id) == Some(newer)
  {
    var older := remote(turn)(requests[0].1.value);
    var newer := remote(turn + 1)(requests[1].1.value);
    var first := Resolve(requests[0].0, requests[0].1, remote(turn), before);
    TwoTurns(requests, remote, turn, before);
    ResolvedCache(requests[0].0, requests[0].1.value, remote(turn), before);
    ResolvedCache(requests[1].0, requests[1].1.value, remote(turn + 1), first.after);
    NewerUpsertWins(before.cache, older, newer);
  }

  /** A batch of two turns leaves what the second turn leaves, run from
      what the first left. */
  lemma TwoTurns(requests: seq<(int, Option<IssueRef>)>, remote: nat -> IssueRef -> Issue, turn: nat, before: Session)
    requires |requests| == 2
    ensures var first := Resolve(requests[0].0, requests[0].1, remote(turn), before);
      ResolveAll(requests, remote, turn, before).after
        == Resolve(requests[1].0, requests[1].1, remote(turn + 1), first.after).after
  {
    var first := Resolve(requests[0].0, requests[0].1, remote(turn), before);
    var rest := requests[1..];
    assert rest[0] == requests[1] && |rest[1..]| == 0;
    ResolveAllSplit(requests, remote, turn, before);
    ResolveAllSplit(rest, remote, turn + 1, first.after);
  }

  /** A turn with a request upserts the cache with the answer. */
  lemma ResolvedCache(id: int, ref: IssueRef, answer: IssueRef -> Issue, before: Session)
    ensures Resolve(id, Some(ref), answer, before).after.cache == Upsert(before.cache, answer(ref))
  {
  }

  /** Two upserts of one issue, the later-updated record second: the cache
      ends up holding the later-updated record. */
  lemma NewerUpsertWins(cache: seq<Issue>, older: Issue, newer: Issue)
    requires older.id == newer.id && older.updatedAt < newer.updatedAt
    requires Lookup(cache, newer.id).None? || Lookup(cache, newer.id).value.updatedAt < newer.updatedAt
    ensures Lookup(Upsert(Upsert(cache, older), newer), newer.id) == Some(newer)
  {
    UpsertNeverRegresses(cache, older);
    UpsertLookup(Upsert(cache, older), newer, newer.id);
  }

  /** A worked example: a preview that mentions an issue of `acme/widgets`
      resolves to the record the API returns for that issue, is filed under
      the preview's id, and fetches the avatar of `acme`. */
  lemma AcmeWidgetsExample(remote: IssueRef -> Issue, before: Session)
    requires remote(IssueRef("acme", "widgets", "42"))
          == Issue(99, 20240102, "https://github.com/acme/widgets/issues/42")
    ensures var full := Issue(99, 20240102, "https://github.com/acme/widgets/issues/42");
      var r := EnrichPreview(Preview(1, "see " + full.htmlUrl), remote, before);
      && r.outcome.Resolved?
      && r.outcome.request == IssueRef("acme", "widgets", "42")
      && r.outcome.full == full
      && r.outcome.avatarOrg == Some("acme")
      && Get(r.after.mapping, 1) == Some(full)
  {
    AcmeWidgetsUrl();
  }

  /** The example's URL, alone and after the word "see", yields its groups. */
  lemma AcmeWidgetsUrl()
    ensures var t := IssueRef("acme", "widgets", "42");
      var url := "https://github.com/acme/widgets/issues/42";
      Extract(url) == Some(t) && Extract("see " + url) == Some(t)
  {
    var t := IssueRef("acme", "widgets", "42");
    var url := "https://github.com/acme/widgets/issues/42";
    assert ValidRef(t) && Render(t) == url;
    ExtractRender(t);
    ShortTextHasNoMatch("see ");
    ExtractInContext("see ", t, "");
    assert "see " + Render(t) + "" == "see " + url;
  }
}
