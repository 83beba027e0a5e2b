/** The issue-URL pattern of `fetchIssuesFull`,
      https://github.com/(?<org>[^/]+)/(?<repo>[^/]+)/issues/(?<issue_number>\d+)
    as used by a non-global `String.prototype.match`: the start positions of
    the subject are tried from left to right, and the first one at which the
    pattern matches gives the three groups.

    At a fixed start the pattern has a single way to match. A `[^/]+` group
    followed by a literal `/` can only take the longest slash-free run (any
    shorter run is followed by a character that is not `/`), and the trailing
    `\d+` is greedy with nothing after it. `MatchAt` is therefore a
    deterministic parser, and `IsMatchAt` is the declarative reference it is
    proved equal to. */
module IssueUrl {
  import opened Wrappers

  /** The literal head of the pattern. */
  const Host: string := "https://github.com/"
  /** The literal between the repository and the issue number. */
  const IssuesPath: string := "/issues/"

  /** The three named groups of a match, as the strings the groups captured. */
  datatype IssueRef = IssueRef(org: string, repo: string, issueNumber: string)

  /** `\d` without the `u` flag: the ASCII decimal digits. */
  predicate IsDigit(c: char)
  {
    '0' <= c <= '9'
  }

  /** Every character is accepted by `[^/]`. */
  predicate SlashFree(s: string)
  {
    forall i :: 0 <= i < |s| ==> s[i] != '/'
  }

  /** Every character is accepted by `\d`. */
  predicate AllDigits(s: string)
  {
    forall i :: 0 <= i < |s| ==> IsDigit(s[i])
  }

  /** Group contents the pattern can capture: `[^/]+`, `[^/]+`, `\d+`. */
  predicate ValidRef(t: IssueRef)
  {
    && |t.org| > 0 && SlashFree(t.org)
    && |t.repo| > 0 && SlashFree(t.repo)
    && |t.issueNumber| > 0 && AllDigits(t.issueNumber)
  }

  /** The canonical issue URL for the three groups. */
  function Render(t: IssueRef): string
  {
    Host + (t.org + ("/" + (t.repo + (IssuesPath + t.issueNumber))))
  }

  /** `lit` occurs in `s` starting at position `i`. */
  predicate HasAt(s: string, i: nat, lit: string)
  {
    i + |lit| <= |s| && s[i..i + |lit|] == lit
  }

  /** Reference semantics: at position `i` the pattern matches with groups
      `t`: the URL of `t` stands at `i` and the greedy `\d+` could not have
      taken one more digit. */
  ghost predicate IsMatchAt(s: string, i: nat, t: IssueRef)
  {
    && ValidRef(t)
    && HasAt(s, i, Render(t))
    && (i + |Render(t)| == |s| || !IsDigit(s[i + |Render(t)|]))
  }

  /** `t` is what a non-global `match` returns: it matches at some position
      and nothing matches at any earlier one. */
  ghost predicate IsLeftmostMatch(s: string, i: nat, t: IssueRef)
  {
    && i <= |s|
    && IsMatchAt(s, i, t)
    && forall j: nat, t': IssueRef :: j < i ==> !IsMatchAt(s, j, t')
  }

  /** Length of the longest run of characters other than `/` starting at `i`. */
  function NonSlashRun(s: string, i: nat): (n: nat)
    requires i <= |s|
    ensures i + n <= |s|
    decreases |s| - i
  {
    if i == |s| || s[i] == '/' then 0 else 1 + NonSlashRun(s, i + 1)
  }

  /** Length of the longest run of decimal digits starting at `i`. */
  function DigitRun(s: string, i: nat): (n: nat)
    requires i <= |s|
    ensures i + n <= |s|
    decreases |s| - i
  {
    if i == |s| || !IsDigit(s[i]) then 0 else 1 + DigitRun(s, i + 1)
  }

  /** The pattern applied at a single start position. */
  function MatchAt(s: string, i: nat): (r: Option<IssueRef>)
    requires i <= |s|
  {
    if HasAt(s, i, Host) then MatchGroups(s, i + |Host|) else None
  }

  /** `(?<org>[^/]+)/` and the rest of the pattern, from just after the host. */
  function MatchGroups(s: string, o: nat): (r: Option<IssueRef>)
    requires o <= |s|
  {
    var no := NonSlashRun(s, o);
    if no == 0 || o + no == |s| then None
    else
      var rest := MatchRepoAndNumber(s, o + no + 1);
      if rest.None? then None else Some(IssueRef(s[o..o + no], rest.value.0, rest.value.1))
  }

  /** `(?<repo>[^/]+)/issues/(?<issue_number>\d+)`, from just after the
      slash that ends the organisation. */
  function MatchRepoAndNumber(s: string, rp: nat): (r: Option<(string, string)>)
    requires rp <= |s|
  {
    var nr := NonSlashRun(s, rp);
    var ip := rp + nr;
    if nr == 0 || !HasAt(s, ip, IssuesPath) then None
    else
      var dp := ip + |IssuesPath|;
      var nd := DigitRun(s, dp);
      if nd == 0 then None else Some((s[rp..ip], s[dp..dp + nd]))
  }

  /** The first start position at or after `i` where the pattern matches,
      with its groups. */
  function Search(s: string, i: nat): (r: Option<(nat, IssueRef)>)
    requires i <= |s|
    ensures r.Some? ==> i <= r.value.0 <= |s| && MatchAt(s, r.value.0) == Some(r.value.1)
    ensures r.Some? ==> forall j :: i <= j < r.value.0 ==> MatchAt(s, j).None?
    ensures r.None? ==> forall j :: i <= j <= |s| ==> MatchAt(s, j).None?
    decreases |s| - i
  {
    match MatchAt(s, i)
    case Some(t) => Some((i, t))
    case None => if i == |s| then None else Search(s, i + 1)
  }

  /** `body.match(urlPattern)?.groups`: the groups of the leftmost match. */
  function Extract(s: string): (r: Option<IssueRef>)
    ensures r.Some? ==> ValidRef(r.value)
    ensures r.Some? ==> exists i :: 0 <= i <= |s| && HasAt(s, i, Render(r.value))
  {
    match Search(s, 0)
    case None => None
    case Some((i, t)) =>
      MatchAtSound(s, i);
      Some(t)
  }

  /** An occurrence of `lit`, character by character. */
  lemma HasAtChars(s: string, i: nat, lit: string)
    requires i + |lit| <= |s|
    ensures HasAt(s, i, lit) <==> forall x :: 0 <= x < |lit| ==> s[i + x] == lit[x]
  {
    if forall x :: 0 <= x < |lit| ==> s[i + x] == lit[x] {
      assert s[i..i + |lit|] == lit;
    }
  }

  /** An occurrence of `a + b` is an occurrence of `a` followed by one of `b`. */
  lemma HasAtConcat(s: string, i: nat, a: string, b: string)
    ensures HasAt(s, i, a + b) <==> HasAt(s, i, a) && HasAt(s, i + |a|, b)
  {
    if i + |a| + |b| <= |s| {
      HasAtChars(s, i, a + b);
      HasAtChars(s, i, a);
      HasAtChars(s, i + |a|, b);
      if HasAt(s, i, a) && HasAt(s, i + |a|, b) {
        forall x | 0 <= x < |a + b| ensures s[i + x] == (a + b)[x] {
          if x >= |a| {
            assert s[i + |a| + (x - |a|)] == b[x - |a|];
          }
        }
      }
      if HasAt(s, i, a + b) {
        forall x | 0 <= x < |b| ensures s[i + |a| + x] == b[x] {
          assert s[i + (|a| + x)] == (a + b)[|a| + x];
        }
      }
    }
  }

  /** One character of an occurrence. */
  lemma HasAtIndex(s: string, i: nat, lit: string, x: nat)
    requires HasAt(s, i, lit) && x < |lit|
    ensures s[i + x] == lit[x]
  {
    assert s[i..i + |lit|][x] == s[i + x];
  }

  /** The characters of a slash-free run, taken as a string. */
  lemma RunSlashFree(s: string, a: nat, n: nat)
    requires a + n <= |s|
    requires forall x :: a <= x < a + n ==> s[x] != '/'
    ensures SlashFree(s[a..a + n])
  {
    var w := s[a..a + n];
    forall x | 0 <= x < n ensures w[x] != '/' {
      assert w[x] == s[a + x];
    }
  }

  /** The characters of a digit run, taken as a string. */
  lemma RunAllDigits(s: string, a: nat, n: nat)
    requires a + n <= |s|
    requires forall x :: a <= x < a + n ==> IsDigit(s[x])
    ensures AllDigits(s[a..a + n])
  {
    var w := s[a..a + n];
    forall x | 0 <= x < n ensures IsDigit(w[x]) {
      assert w[x] == s[a + x];
    }
  }

  /** `NonSlashRun` covers only characters other than `/` and stops at a
      `/` or at the end. */
  lemma {:induction false} NonSlashRunSpec(s: string, i: nat)
    requires i <= |s|
    ensures forall x :: i <= x < i + NonSlashRun(s, i) ==> s[x] != '/'
    ensures i + NonSlashRun(s, i) == |s| || s[i + NonSlashRun(s, i)] == '/'
    decreases |s| - i
  {
    if i < |s| && s[i] != '/' {
      NonSlashRunSpec(s, i + 1);
    }
  }

  /** `DigitRun` covers only digits and stops at a non-digit or at the end. */
  lemma {:induction false} DigitRunSpec(s: string, i: nat)
    requires i <= |s|
    ensures forall x :: i <= x < i + DigitRun(s, i) ==> IsDigit(s[x])
    ensures i + DigitRun(s, i) == |s| || !IsDigit(s[i + DigitRun(s, i)])
    decreases |s| - i
  {
    if i < |s| && IsDigit(s[i]) {
      DigitRunSpec(s, i + 1);
    }
  }

  /** A slash-free run that ends at a `/` is the longest such run. */
  lemma {:induction false} RunIsMaximal(s: string, a: nat, k: nat)
    requires a + k < |s| && s[a + k] == '/'
    requires forall x :: a <= x < a + k ==> s[x] != '/'
    ensures NonSlashRun(s, a) == k
    decreases k
  {
    if k > 0 {
      RunIsMaximal(s, a + 1, k - 1);
    }
  }

  /** A digit run not followed by a digit is the longest such run. */
  lemma {:induction false} DigitsAreMaximal(s: string, a: nat, k: nat)
    requires a + k <= |s| && (a + k == |s| || !IsDigit(s[a + k]))
    requires forall x :: a <= x < a + k ==> IsDigit(s[x])
    ensures DigitRun(s, a) == k
    decreases k
  {
    if k > 0 {
      DigitsAreMaximal(s, a + 1, k - 1);
    }
  }

  /** An occurrence of a slash-free word followed by `/` is what `[^/]+` takes. */
  lemma SlashFreeRunAt(s: string, a: nat, w: string)
    requires SlashFree(w) && HasAt(s, a, w)
    requires a + |w| < |s| && s[a + |w|] == '/'
    ensures NonSlashRun(s, a) == |w|
  {
    forall x | a <= x < a + |w| ensures s[x] != '/' {
      HasAtIndex(s, a, w, x - a);
    }
    RunIsMaximal(s, a, |w|);
  }

  /** An occurrence of a number that the next character does not extend is
      what `\d+` takes. */
  lemma DigitRunAt(s: string, a: nat, w: string)
    requires AllDigits(w) && HasAt(s, a, w)
    requires a + |w| == |s| || !IsDigit(s[a + |w|])
    ensures DigitRun(s, a) == |w|
  {
    forall x | a <= x < a + |w| ensures IsDigit(s[x]) {
      HasAtIndex(s, a, w, x - a);
    }
    DigitsAreMaximal(s, a, |w|);
  }

  /** The groups of `t` spelled out one after another from `o`, the position
      just after the host: organisation, `/`, repository, `/issues/`, number. */
  predicate GroupsAt(s: string, o: nat, t: IssueRef)
  {
    var rp := o + |t.org| + 1;
    var ip := rp + |t.repo|;
    && HasAt(s, o, t.org)
    && HasAt(s, o + |t.org|, "/")
    && HasAt(s, rp, t.repo)
    && HasAt(s, ip, IssuesPath)
    && HasAt(s, ip + |IssuesPath|, t.issueNumber)
  }

  /** The issue URL without its host occurs exactly when its parts do. */
  lemma GroupsAtIff(s: string, o: nat, t: IssueRef)
    ensures HasAt(s, o, t.org + ("/" + (t.repo + (IssuesPath + t.issueNumber)))) <==> GroupsAt(s, o, t)
  {
    var l2 := t.repo + (IssuesPath + t.issueNumber);
    HeadAtIff(s, o, t.org, l2);
    TailAtIff(s, o + |t.org| + 1, t.repo, t.issueNumber);
  }

  /** The organisation and `/` followed by the rest occur exactly when
      their concatenation occurs. */
  lemma HeadAtIff(s: string, o: nat, org: string, rest: string)
    ensures HasAt(s, o, org + ("/" + rest))
        <==> HasAt(s, o, org) && HasAt(s, o + |org|, "/") && HasAt(s, o + |org| + 1, rest)
  {
    HasAtConcat(s, o, org, "/" + rest);
    HasAtConcat(s, o + |org|, "/", rest);
  }

  /** The repository, `/issues/` and the number occur one after another
      exactly when their concatenation occurs. */
  lemma TailAtIff(s: string, rp: nat, repo: string, number: string)
    ensures HasAt(s, rp, repo + (IssuesPath + number))
        <==> HasAt(s, rp, repo) && HasAt(s, rp + |repo|, IssuesPath)
             && HasAt(s, rp + |repo| + |IssuesPath|, number)
  {
    HasAtConcat(s, rp, repo, IssuesPath + number);
    HasAtConcat(s, rp + |repo|, IssuesPath, number);
  }

  /** What `MatchRepoAndNumber` accepts: a repository, `/issues/` and a
      number that the next character does not extend. */
  lemma RepoAndNumberSound(s: string, rp: nat)
    requires rp <= |s| && MatchRepoAndNumber(s, rp).Some?
    ensures var repo := MatchRepoAndNumber(s, rp).value.0;
      var number := MatchRepoAndNumber(s, rp).value.1;
      var ip := rp + |repo|;
      var e := ip + |IssuesPath| + |number|;
      && |repo| > 0 && SlashFree(repo) && |number| > 0 && AllDigits(number)
      && HasAt(s, rp, repo) && HasAt(s, ip, IssuesPath) && HasAt(s, ip + |IssuesPath|, number)
      && (e == |s| || !IsDigit(s[e]))
  {
    var nr := NonSlashRun(s, rp);
    var ip := rp + nr;
    var dp := ip + |IssuesPath|;
    var nd := DigitRun(s, dp);
    assert MatchRepoAndNumber(s, rp).value == (s[rp..ip], s[dp..dp + nd]);
    NonSlashRunSpec(s, rp);
    DigitRunSpec(s, dp);
    RunSlashFree(s, rp, nr);
    RunAllDigits(s, dp, nd);
  }

  /** What `MatchGroups` accepts: an organisation, a slash, and what
      `MatchRepoAndNumber` accepts. */
  lemma GroupsSound(s: string, o: nat)
    requires o <= |s| && MatchGroups(s, o).Some?
    ensures var t := MatchGroups(s, o).value;
      var e := o + |t.org| + 1 + |t.repo| + |IssuesPath| + |t.issueNumber|;
      && ValidRef(t) && GroupsAt(s, o, t)
      && (e == |s| || !IsDigit(s[e]))
  {
    var no := NonSlashRun(s, o);
    var rp := o + no + 1;
    var pair := MatchRepoAndNumber(s, rp).value;
    var t := IssueRef(s[o..o + no], pair.0, pair.1);
    assert MatchGroups(s, o).value == t;
    RepoAndNumberSound(s, rp);
    OrgSound(s, o);
    assert |t.org| == no && t.repo == pair.0 && t.issueNumber == pair.1;
    GroupsAtFromParts(s, o, t);
  }

  /** The organisation `MatchGroups` takes: a slash-free run ending at `/`. */
  lemma OrgSound(s: string, o: nat)
    requires o <= |s| && 0 < NonSlashRun(s, o) && o + NonSlashRun(s, o) < |s|
    ensures var no := NonSlashRun(s, o);
      SlashFree(s[o..o + no]) && HasAt(s, o, s[o..o + no]) && HasAt(s, o + no, "/")
  {
    var no := NonSlashRun(s, o);
    NonSlashRunSpec(s, o);
    RunSlashFree(s, o, no);
    assert s[o + no..o + no + 1] == [s[o + no]];
  }

  /** `GroupsAt`, assembled from its five parts. */
  lemma GroupsAtFromParts(s: string, o: nat, t: IssueRef)
    requires HasAt(s, o, t.org) && HasAt(s, o + |t.org|, "/")
    requires var rp := o + |t.org| + 1;
      HasAt(s, rp, t.repo) && HasAt(s, rp + |t.repo|, IssuesPath)
      && HasAt(s, rp + |t.repo| + |IssuesPath|, t.issueNumber)
    ensures GroupsAt(s, o, t)
  {
  }

  /** Whatever the parser returns is a match in the reference sense. */
  lemma MatchAtSound(s: string, i: nat)
    requires i <= |s|
    ensures MatchAt(s, i).Some? ==> IsMatchAt(s, i, MatchAt(s, i).value)
  {
    if MatchAt(s, i).Some? {
      var o := i + |Host|;
      var t := MatchGroups(s, o).value;
      GroupsSound(s, o);
      GroupsAtIff(s, o, t);
      HasAtConcat(s, i, Host, t.org + ("/" + (t.repo + (IssuesPath + t.issueNumber))));
    }
  }

  /** One unfolding of `MatchRepoAndNumber`. */
  lemma RepoAndNumberFromParts(s: string, rp: nat, nr: nat, nd: nat)
    requires rp + nr <= |s| && nr > 0 && NonSlashRun(s, rp) == nr
    requires HasAt(s, rp + nr, IssuesPath)
    requires DigitRun(s, rp + nr + |IssuesPath|) == nd && nd > 0
    ensures var dp := rp + nr + |IssuesPath|;
      MatchRepoAndNumber(s, rp) == Some((s[rp..rp + nr], s[dp..dp + nd]))
  {
  }

  /** One unfolding of `MatchGroups`. */
  lemma GroupsFromParts(s: string, o: nat, k: nat, repo: string, number: string)
    requires o + k < |s| && k > 0 && NonSlashRun(s, o) == k
    requires MatchRepoAndNumber(s, o + k + 1) == Some((repo, number))
    ensures MatchGroups(s, o) == Some(IssueRef(s[o..o + k], repo, number))
  {
  }

  /** `MatchRepoAndNumber` accepts every repository, `/issues/` and number
      that the next character does not extend, and returns them. */
  lemma RepoAndNumberComplete(s: string, rp: nat, repo: string, number: string)
    requires |repo| > 0 && SlashFree(repo) && |number| > 0 && AllDigits(number)
    requires var ip := rp + |repo|;
      HasAt(s, rp, repo) && HasAt(s, ip, IssuesPath) && HasAt(s, ip + |IssuesPath|, number)
    requires var e := rp + |repo| + |IssuesPath| + |number|;
      e == |s| || !IsDigit(s[e])
    ensures rp <= |s| && MatchRepoAndNumber(s, rp) == Some((repo, number))
  {
    var ip := rp + |repo|;
    HasAtIndex(s, ip, IssuesPath, 0);
    SlashFreeRunAt(s, rp, repo);
    DigitRunAt(s, ip + |IssuesPath|, number);
    RepoAndNumberFromParts(s, rp, |repo|, |number|);
  }

  /** `MatchGroups` accepts every organisation, slash and repository-and-number
      part, and returns the three groups. */
  lemma GroupsComplete(s: string, o: nat, t: IssueRef)
    requires ValidRef(t) && GroupsAt(s, o, t)
    requires var e := o + |t.org| + 1 + |t.repo| + |IssuesPath| + |t.issueNumber|;
      e == |s| || !IsDigit(s[e])
    ensures o <= |s| && MatchGroups(s, o) == Some(t)
  {
    var k := |t.org|;
    var rp := o + k + 1;
    OrgComplete(s, o, t.org);
    RepoAndNumberComplete(s, rp, t.repo, t.issueNumber);
    GroupsFromParts(s, o, k, t.repo, t.issueNumber);
  }

  /** `[^/]+/` takes every slash-free organisation followed by `/`. */
  lemma OrgComplete(s: string, o: nat, org: string)
    requires SlashFree(org) && HasAt(s, o, org) && HasAt(s, o + |org|, "/")
    ensures o + |org| < |s| && NonSlashRun(s, o) == |org| && s[o..o + |org|] == org
  {
    HasAtIndex(s, o + |org|, "/", 0);
    SlashFreeRunAt(s, o, org);
  }

  /** Every match in the reference sense is found by the parser. */
  lemma MatchAtComplete(s: string, i: nat, t: IssueRef)
    requires IsMatchAt(s, i, t)
    ensures i <= |s| && MatchAt(s, i) == Some(t)
  {
    HasAtConcat(s, i, Host, t.org + ("/" + (t.repo + (IssuesPath + t.issueNumber))));
    GroupsAtIff(s, i + |Host|, t);
    GroupsComplete(s, i + |Host|, t);
  }

  /** The parser and the reference semantics agree at every position. */
  lemma MatchAtIff(s: string, i: nat, t: IssueRef)
    requires i <= |s|
    ensures MatchAt(s, i) == Some(t) <==> IsMatchAt(s, i, t)
  {
    MatchAtSound(s, i);
    if IsMatchAt(s, i, t) {
      MatchAtComplete(s, i, t);
    }
  }

  /** No match exists exactly when extraction yields nothing: the preview
      then resolves to `null`. */
  lemma ExtractNoneIff(s: string)
    ensures Extract(s).None? <==> forall i: nat, t: IssueRef :: i <= |s| ==> !IsMatchAt(s, i, t)
  {
    var r := Search(s, 0);
    if r.None? {
      forall i: nat, t: IssueRef | i <= |s| ensures !IsMatchAt(s, i, t) {
        MatchAtIff(s, i, t);
      }
    } else {
      MatchAtSound(s, r.value.0);
    }
  }

  /** There is at most one leftmost match. */
  lemma LeftmostUnique(s: string, i1: nat, t1: IssueRef, i2: nat, t2: IssueRef)
    requires IsLeftmostMatch(s, i1, t1) && IsLeftmostMatch(s, i2, t2)
    ensures i1 == i2 && t1 == t2
  {
    MatchAtComplete(s, i1, t1);
    MatchAtComplete(s, i2, t2);
  }

  /** Extraction returns exactly the groups of the leftmost match. */
  lemma ExtractSomeIff(s: string, t: IssueRef)
    ensures Extract(s) == Some(t) <==> exists i: nat :: IsLeftmostMatch(s, i, t)
  {
    var r := Search(s, 0);
    if r.Some? {
      var i := r.value.0;
      var found := r.value.1;
      assert IsLeftmostMatch(s, i, found) by {
        MatchAtSound(s, i);
        forall j: nat, t': IssueRef | j < i ensures !IsMatchAt(s, j, t') {
          MatchAtIff(s, j, t');
        }
      }
      forall i': nat | IsLeftmostMatch(s, i', t) ensures t == found {
        LeftmostUnique(s, i', t, i, found);
      }
    } else {
      ExtractNoneIff(s);
    }
  }

  /** Two slashes in a row at position `k`. */
  predicate DoubleSlashAt(s: string, k: nat)
  {
    k + 1 < |s| && s[k] == '/' && s[k + 1] == '/'
  }

  /** Where a concatenation can hold two slashes in a row. */
  lemma DoubleSlashInConcat(a: string, b: string, k: nat)
    ensures DoubleSlashAt(a + b, k) ==>
      || DoubleSlashAt(a, k)
      || (k >= |a| && DoubleSlashAt(b, k - |a|))
      || (k + 1 == |a| && a[k] == '/' && b[0] == '/')
  {
  }

  /** Two slashes in a row inside an occurrence of `m` are two slashes in a
      row of `m`. */
  lemma WindowDoubleSlash(s: string, j: nat, m: string, k: nat)
    requires HasAt(s, j, m) && j <= k && DoubleSlashAt(s, k)
    ensures k + 1 < j + |m| ==> DoubleSlashAt(m, k - j)
  {
    if k + 1 < j + |m| {
      HasAtIndex(s, j, m, k - j);
      HasAtIndex(s, j, m, k + 1 - j);
    }
  }

  /** The host literal has no digit, and two slashes in a row only after the scheme. */
  lemma HostShape()
    ensures forall k: nat :: DoubleSlashAt(Host, k) ==> k == 6
    ensures forall k :: 0 <= k < |Host| ==> !IsDigit(Host[k])
    ensures forall k: nat :: !DoubleSlashAt(IssuesPath, k)
  {
  }

  /** An issue URL ends with the last digit of its number. */
  lemma LastIsDigit(t: IssueRef)
    requires ValidRef(t)
    ensures IsDigit(Render(t)[|Render(t)| - 1])
  {
    var n := t.issueNumber;
    assert Render(t)[|Render(t)| - 1] == n[|n| - 1];
  }

  /** In an issue URL, two slashes in a row occur only in `https://`. */
  lemma OnlySchemeHasDoubleSlash(t: IssueRef, k: nat)
    requires ValidRef(t)
    ensures DoubleSlashAt(Render(t), k) ==> k == 6
  {
    HostShape();
    var l1 := IssuesPath + t.issueNumber;
    var l2 := t.repo + l1;
    var l3 := "/" + l2;
    var l4 := t.org + l3;
    assert Render(t) == Host + l4;
    forall k1: nat ensures !DoubleSlashAt(l1, k1) {
      DoubleSlashInConcat(IssuesPath, t.issueNumber, k1);
    }
    forall k2: nat ensures !DoubleSlashAt(l2, k2) {
      DoubleSlashInConcat(t.repo, l1, k2);
    }
    forall k3: nat ensures !DoubleSlashAt(l3, k3) {
      DoubleSlashInConcat("/", l2, k3);
    }
    forall k4: nat ensures !DoubleSlashAt(l4, k4) {
      DoubleSlashInConcat(t.org, l3, k4);
    }
    DoubleSlashInConcat(Host, l4, k);
  }

  /** A match that starts inside the text `p` before an issue URL also ends
      inside `p`: it would need a digit or a second `//` from the URL. */
  lemma EndsBeforeUrl(p: string, t: IssueRef, q: string, j: nat, t': IssueRef)
    requires ValidRef(t) && j < |p|
    requires IsMatchAt(p + Render(t) + q, j, t')
    ensures j + |Render(t')| <= |p|
  {
    var s := p + Render(t) + q;
    var u := Render(t);
    var m := Render(t');
    HostShape();
    LastIsDigit(t');
    HasAtIndex(s, j, m, |m| - 1);
    assert forall x :: |p| <= x < |p| + |Host| ==> !IsDigit(s[x]) by {
      forall x | |p| <= x < |p| + |Host| ensures !IsDigit(s[x]) {
        assert s[x] == u[x - |p|];
        assert u[x - |p|] == Host[x - |p|];
      }
    }
    assert DoubleSlashAt(s, |p| + 6) by {
      assert s[|p| + 6] == u[6] && s[|p| + 7] == u[7];
    }
    WindowDoubleSlash(s, j, m, |p| + 6);
    OnlySchemeHasDoubleSlash(t', |p| + 6 - j);
  }

  /** A match that starts inside the text `p` before an issue URL cannot
      reach into that URL: it is a match of `p` on its own. */
  lemma MatchStaysBeforeUrl(p: string, t: IssueRef, q: string, j: nat, t': IssueRef)
    requires ValidRef(t) && j < |p|
    requires IsMatchAt(p + Render(t) + q, j, t')
    ensures IsMatchAt(p, j, t')
  {
    var s := p + Render(t) + q;
    var e := j + |Render(t')|;
    EndsBeforeUrl(p, t, q, j, t');
    assert p[j..e] == s[j..e];
    assert e < |p| ==> p[e] == s[e];
  }

  /** Text around an issue URL does not change what is extracted, as long as
      the text before holds no match and the text after does not extend the
      issue number. Taking `q` to hold further URLs, the leftmost one wins. */
  lemma ExtractInContext(p: string, t: IssueRef, q: string)
    requires ValidRef(t) && Extract(p).None?
    requires |q| == 0 || !IsDigit(q[0])
    ensures Extract(p + Render(t) + q) == Some(t)
  {
    var s := p + Render(t) + q;
    ExtractNoneIff(p);
    forall j: nat, t': IssueRef | j < |p| ensures !IsMatchAt(s, j, t') {
      if IsMatchAt(s, j, t') {
        MatchStaysBeforeUrl(p, t, q, j, t');
      }
    }
    var e := |p| + |Render(t)|;
    assert s[|p|..e] == Render(t);
    assert e < |s| ==> s[e] == q[0];
    assert IsLeftmostMatch(s, |p|, t);
    ExtractSomeIff(s, t);
  }

  /** Text shorter than the host cannot hold an issue URL. */
  lemma ShortTextHasNoMatch(p: string)
    requires |p| < |Host|
    ensures Extract(p).None?
  {
    forall i: nat, t: IssueRef | i <= |p| ensures !IsMatchAt(p, i, t) {
    }
    ExtractNoneIff(p);
  }

  /** Round trip: the groups of a rendered issue URL are extracted unchanged. */
  lemma ExtractRender(t: IssueRef)
    requires ValidRef(t)
    ensures Extract(Render(t)) == Some(t)
  {
    ExtractNoneIff("");
    ExtractInContext("", t, "");
    assert "" + Render(t) + "" == Render(t);
  }
}
