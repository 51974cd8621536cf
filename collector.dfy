/**
 * The collector script: search GitHub for repositories holding a
 * `.cursorrules` file, check the API quota before each one, and write the
 * records gathered into the snapshot file.
 *
 * The remote search is a sequence of hits in the order the search returns
 * them (stars, descending); the quota probe is an oracle indexed by the
 * number of earlier probes; the clock reading for `last_updated` is a
 * parameter; the file write is the snapshot returned.
 */
module Collector {
  import opened Records

  /** The attributes of a found repository that the record is built from. */
  datatype RemoteRepo = RemoteRepo(
    fullName: string,
    htmlUrl: string,
    description: Option<string>,
    stargazersCount: nat,
    language: Option<string>,
    updatedAt: int)

  /**
   * One item of the search result: its attributes could be read, reading
   * them raised (the item is skipped), or fetching the item from the search
   * raised (the whole collection fails).
   */
  datatype SearchHit = Readable(repo: RemoteRepo) | Unreadable | FetchFailed

  /** A reading of the core quota, or a probe that raised. */
  datatype Probe = Quota(remaining: int, reset: int, now: int) | ProbeFailed

  /** The decision of `check_rate_limit`; `ProbeRaised` propagates to the caller. */
  datatype RateCheck = Allowed | Denied(waited: nat) | ProbeRaised

  /** The JSON document written to the snapshot file. */
  datatype Snapshot = Snapshot(lastUpdated: int, repositories: seq<Record>)

  /** The minimal safety margin: a probe with at most this many requests left denies. */
  const SafetyMargin: int := 10

  /** The path of the rules file appended to the repository page URL. */
  const RulesSuffix: string := "/blob/master/.cursorrules"

  // ---------------------------------------------------------------------
  // check_rate_limit

  /** The seconds slept before a denial: until the reset, or none if it has passed. */
  function WaitTime(reset: int, now: int): (w: nat)
    ensures now + w >= reset
    ensures w == 0 || now + w == reset
  {
    if reset - now > 0 then reset - now else 0
  }

  /** `check_rate_limit`: allow while more than the margin is left; otherwise sleep and deny. */
  method CheckRateLimit(probe: Probe) returns (r: RateCheck)
    ensures r.ProbeRaised? <==> probe.ProbeFailed?
    ensures r.Allowed? <==> probe.Quota? && probe.remaining > SafetyMargin
    ensures r.Denied? ==> probe.Quota? && r.waited == WaitTime(probe.reset, probe.now)
  {
    if probe.ProbeFailed? {
      return ProbeRaised;
    }
    var remaining := probe.remaining;
    if remaining <= SafetyMargin {
      var waitTime := probe.reset - probe.now;
      var slept := 0;
      if waitTime > 0 {
        slept := waitTime;
      }
      return Denied(slept);
    }
    return Allowed;
  }

  // ---------------------------------------------------------------------
  // get_repo_info

  /** `get_repo_info`: the snapshot record of a found repository. */
  function RepoInfo(repo: RemoteRepo): (r: Record)
    ensures r.cursorrulesUrl == repo.htmlUrl + RulesSuffix
    ensures r.stars == repo.stargazersCount
  {
    Record(repo.fullName, repo.htmlUrl, repo.description, repo.stargazersCount,
           repo.language, repo.updatedAt, repo.htmlUrl + RulesSuffix)
  }

  /** Reads the repository attributes back from a record. */
  function RemoteOf(r: Record): RemoteRepo
  {
    RemoteRepo(r.name, r.url, r.description, r.stars, r.language, r.updatedAt)
  }

  /** A record is built from its repository without loss, so distinct repositories give distinct records. */
  lemma RepoInfoRoundTrip(repo: RemoteRepo)
    ensures RemoteOf(RepoInfo(repo)) == repo
  {
  }

  /** The rules URL of a collected record is its repository URL with the fixed suffix. */
  predicate WellFormed(r: Record)
  {
    r.cursorrulesUrl == r.url + RulesSuffix
  }

  // ---------------------------------------------------------------------
  // collect_data: the reference definition

  /** The records of the readable hits, in search order. */
  function Normalized(hits: seq<SearchHit>): (records: seq<Record>)
    ensures |records| <= |hits|
  {
    if hits == [] then []
    else
      var last := hits[|hits| - 1];
      Normalized(hits[..|hits| - 1]) + (if last.Readable? then [RepoInfo(last.repo)] else [])
  }

  /** Item `k` is fetched, passes the rate check and so does not end the loop. */
  predicate Proceeds(hits: seq<SearchHit>, probes: nat -> Probe, cap: int, k: nat)
  {
    && k < |hits|
    && k < cap
    && !hits[k].FetchFailed?
    && probes(k).Quota?
    && probes(k).remaining > SafetyMargin
  }

  /** The index of the first item from `k` on that ends the loop (or the end of the hits). */
  function StopPoint(hits: seq<SearchHit>, probes: nat -> Probe, cap: int, k: nat): (s: nat)
    requires k <= |hits|
    ensures k <= s <= |hits|
    ensures forall j :: k <= j < s ==> Proceeds(hits, probes, cap, j)
    ensures s < |hits| ==> !Proceeds(hits, probes, cap, s)
    decreases |hits| - k
  {
    if k < |hits| && Proceeds(hits, probes, cap, k) then StopPoint(hits, probes, cap, k + 1) else k
  }

  /** The item at the stop point raised: its fetch or its quota probe. */
  predicate Aborts(hits: seq<SearchHit>, probes: nat -> Probe, cap: int, s: nat)
  {
    s < |hits| && s < cap && (hits[s].FetchFailed? || probes(s).ProbeFailed?)
  }

  /**
   * The snapshot a run writes, or `None` when it writes nothing: the cap
   * could not be read, an item raised, or no record was gathered.
   */
  function Written(hits: seq<SearchHit>, probes: nat -> Probe, maxRepos: Option<int>, utcNow: int): Option<Snapshot>
  {
    if maxRepos.None? then None
    else
      var s := StopPoint(hits, probes, maxRepos.value, 0);
      var records := Normalized(hits[..s]);
      if Aborts(hits, probes, maxRepos.value, s) || records == [] then None
      else Some(Snapshot(utcNow, records))
  }

  /** The seconds slept by a run: only the rate check that ends the loop sleeps. */
  function Waited(hits: seq<SearchHit>, probes: nat -> Probe, maxRepos: Option<int>): nat
  {
    if maxRepos.None? then 0
    else
      var s := StopPoint(hits, probes, maxRepos.value, 0);
      if s < |hits| && s < maxRepos.value && !hits[s].FetchFailed? && probes(s).Quota?
      then WaitTime(probes(s).reset, probes(s).now)
      else 0
  }

  // ---------------------------------------------------------------------
  // collect_data: the loop

  /** The item `i` is the first that ends the loop. */
  lemma {:induction false} StopPointIs(hits: seq<SearchHit>, probes: nat -> Probe, cap: int, k: nat, i: nat)
    requires k <= i <= |hits|
    requires forall j :: k <= j < i ==> Proceeds(hits, probes, cap, j)
    requires i == |hits| || !Proceeds(hits, probes, cap, i)
    ensures StopPoint(hits, probes, cap, k) == i
    decreases i - k
  {
    if k < i {
      StopPointIs(hits, probes, cap, k + 1, i);
    }
  }

  /** The loop runs past every item up to which all items proceed. */
  lemma {:induction false} StopPointPast(hits: seq<SearchHit>, probes: nat -> Probe, cap: int, k: nat, j: nat)
    requires k <= j < |hits|
    requires forall i :: k <= i <= j ==> Proceeds(hits, probes, cap, i)
    ensures j < StopPoint(hits, probes, cap, k)
    decreases j - k
  {
    assert Proceeds(hits, probes, cap, k);
    if k < j {
      StopPointPast(hits, probes, cap, k + 1, j);
    }
  }

  lemma NormalizedStep(hits: seq<SearchHit>, i: nat)
    requires i < |hits|
    ensures Normalized(hits[..i + 1])
         == Normalized(hits[..i]) + (if hits[i].Readable? then [RepoInfo(hits[i].repo)] else [])
  {
    assert hits[..i + 1][..i] == hits[..i];
  }

  /**
   * `collect_data`: walk the search result up to the cap, checking the quota
   * before each item, skipping unreadable items, stopping at the first
   * denial; then write a snapshot if anything was gathered.
   */
  method CollectData(hits: seq<SearchHit>, probes: nat -> Probe, maxRepos: Option<int>, utcNow: int)
    returns (success: bool, written: Option<Snapshot>, waited: nat)
    ensures success <==> written.Some?
    ensures written == Written(hits, probes, maxRepos, utcNow)
    ensures waited == Waited(hits, probes, maxRepos)
  {
    if maxRepos.None? {
      return false, None, 0;
    }
    var cap := maxRepos.value;
    var reposData: seq<Record> := [];
    waited := 0;
    var i := 0;
    while i < |hits| && i < cap
      invariant i <= |hits|
      invariant forall j :: 0 <= j < i ==> Proceeds(hits, probes, cap, j)
      invariant reposData == Normalized(hits[..i])
    {
      if hits[i].FetchFailed? {
        StopPointIs(hits, probes, cap, 0, i);
        return false, None, 0;
      }
      var verdict := CheckRateLimit(probes(i));
      if verdict.ProbeRaised? {
        StopPointIs(hits, probes, cap, 0, i);
        return false, None, 0;
      }
      if verdict.Denied? {
        StopPointIs(hits, probes, cap, 0, i);
        waited := verdict.waited;
        break;
      }
      NormalizedStep(hits, i);
      if hits[i].Readable? {
        reposData := reposData + [RepoInfo(hits[i].repo)];
      }
      i := i + 1;
    }
    if i == |hits| || i >= cap {
      StopPointIs(hits, probes, cap, 0, i);
    }
    if reposData != [] {
      return true, Some(Snapshot(utcNow, reposData)), waited;
    }
    return false, None, waited;
  }

  /** `main`: exit status 1 exactly when the collection reports failure. */
  method RunMain(hits: seq<SearchHit>, probes: nat -> Probe, maxRepos: Option<int>, utcNow: int)
    returns (status: int, written: Option<Snapshot>)
    ensures written == Written(hits, probes, maxRepos, utcNow)
    ensures status == (if written.Some? then 0 else 1)
  {
    var success, snapshot, _ := CollectData(hits, probes, maxRepos, utcNow);
    written := snapshot;
    if success {
      status := 0;
    } else {
      status := 1;
    }
  }

  // ---------------------------------------------------------------------
  // Properties of the reference definition

  /** Gathering distributes over a split of the hits, so the records keep search order. */
  lemma {:induction false} NormalizedAppend(a: seq<SearchHit>, b: seq<SearchHit>)
    ensures Normalized(a + b) == Normalized(a) + Normalized(b)
    decreases |b|
  {
    if b == [] {
      assert a + b == a;
    } else {
      var init := b[..|b| - 1];
      NormalizedAppend(a, init);
      assert (a + b)[..|a + b| - 1] == a + init;
      assert b[..|b| - 1] == init;
    }
  }

  /** A record is gathered exactly when it comes from a readable hit. */
  lemma {:induction false} NormalizedMembers(hits: seq<SearchHit>, r: Record)
    ensures r in Normalized(hits) <==> exists j :: 0 <= j < |hits| && hits[j].Readable? && RepoInfo(hits[j].repo) == r
  {
    if hits != [] {
      var init, last := hits[..|hits| - 1], hits[|hits| - 1];
      NormalizedMembers(init, r);
      if r in Normalized(hits) && r !in Normalized(init) {
        assert last.Readable? && RepoInfo(last.repo) == r;
      }
      if exists j :: 0 <= j < |hits| && hits[j].Readable? && RepoInfo(hits[j].repo) == r {
        var j :| 0 <= j < |hits| && hits[j].Readable? && RepoInfo(hits[j].repo) == r;
        if j < |hits| - 1 {
          assert init[j] == hits[j];
        }
      }
    }
  }

  /** Every gathered record carries the rules URL of its repository. */
  lemma {:induction false} NormalizedWellFormed(hits: seq<SearchHit>)
    ensures forall r :: r in Normalized(hits) ==> WellFormed(r)
  {
    forall r | r in Normalized(hits) ensures WellFormed(r) {
      NormalizedMembers(hits, r);
    }
  }

  /** A written snapshot is non-empty, holds at most `maxRepos` records and is stamped with the run's time. */
  lemma WrittenWithinCap(hits: seq<SearchHit>, probes: nat -> Probe, maxRepos: Option<int>, utcNow: int)
    requires Written(hits, probes, maxRepos, utcNow).Some?
    ensures var snap := Written(hits, probes, maxRepos, utcNow).value;
      && maxRepos.Some?
      && 0 < |snap.repositories| <= maxRepos.value
      && snap.lastUpdated == utcNow
  {
    var cap := maxRepos.value;
    var s := StopPoint(hits, probes, cap, 0);
    if s > 0 {
      assert Proceeds(hits, probes, cap, s - 1);
    }
  }

  /**
   * A written record comes from a readable hit at or before which every item
   * passed its rate check, and every such hit is written.
   */
  lemma WrittenMembers(hits: seq<SearchHit>, probes: nat -> Probe, maxRepos: Option<int>, utcNow: int, r: Record)
    requires Written(hits, probes, maxRepos, utcNow).Some?
    ensures maxRepos.Some?
    ensures r in Written(hits, probes, maxRepos, utcNow).value.repositories <==>
      exists j :: 0 <= j < |hits| && hits[j].Readable? && RepoInfo(hits[j].repo) == r
        && forall i :: 0 <= i <= j ==> Proceeds(hits, probes, maxRepos.value, i)
  {
    var cap := maxRepos.value;
    var s := StopPoint(hits, probes, cap, 0);
    var prefix := hits[..s];
    NormalizedMembers(prefix, r);
    if r in Normalized(prefix) {
      var j :| 0 <= j < |prefix| && prefix[j].Readable? && RepoInfo(prefix[j].repo) == r;
      assert hits[j] == prefix[j];
    }
    if exists j :: 0 <= j < |hits| && hits[j].Readable? && RepoInfo(hits[j].repo) == r
         && forall i :: 0 <= i <= j ==> Proceeds(hits, probes, cap, i) {
      var j :| 0 <= j < |hits| && hits[j].Readable? && RepoInfo(hits[j].repo) == r
         && forall i :: 0 <= i <= j ==> Proceeds(hits, probes, cap, i);
      StopPointPast(hits, probes, cap, 0, j);
      assert prefix[j] == hits[j];
    }
  }

  /** The records gathered from the first `j` items come first, for every `j` up to the stop point. */
  lemma WrittenKeepsSearchOrder(hits: seq<SearchHit>, probes: nat -> Probe, maxRepos: Option<int>, utcNow: int, j: nat)
    requires Written(hits, probes, maxRepos, utcNow).Some?
    requires maxRepos.Some? && j <= StopPoint(hits, probes, maxRepos.value, 0)
    ensures Normalized(hits[..j]) <= Written(hits, probes, maxRepos, utcNow).value.repositories
  {
    var s := StopPoint(hits, probes, maxRepos.value, 0);
    NormalizedAppend(hits[..j], hits[j..s]);
    assert hits[..j] + hits[j..s] == hits[..s];
  }

  /**
   * The first denied rate check ends the collection: nothing from that item
   * or later is written, and the run sleeps that check's wait.
   */
  lemma DenialEndsCollection(hits: seq<SearchHit>, probes: nat -> Probe, cap: int, utcNow: int, k: nat)
    requires forall j :: 0 <= j < k ==> Proceeds(hits, probes, cap, j)
    requires k < |hits| && k < cap && !hits[k].FetchFailed?
    requires probes(k).Quota? && probes(k).remaining <= SafetyMargin
    ensures Written(hits, probes, Some(cap), utcNow)
         == if Normalized(hits[..k]) == [] then None else Some(Snapshot(utcNow, Normalized(hits[..k])))
    ensures Waited(hits, probes, Some(cap)) == WaitTime(probes(k).reset, probes(k).now)
  {
    StopPointIs(hits, probes, cap, 0, k);
  }

  /** Whether an item is readable never moves the stop point: an unreadable item is skipped, not fatal. */
  lemma {:induction false} StopPointIgnoresReadability(a: seq<SearchHit>, b: seq<SearchHit>, probes: nat -> Probe, cap: int, k: nat)
    requires |a| == |b| && k <= |a|
    requires forall j :: 0 <= j < |a| ==> (a[j].FetchFailed? <==> b[j].FetchFailed?)
    ensures StopPoint(a, probes, cap, k) == StopPoint(b, probes, cap, k)
    decreases |a| - k
  {
    if k < |a| {
      assert Proceeds(a, probes, cap, k) == Proceeds(b, probes, cap, k);
      StopPointIgnoresReadability(a, b, probes, cap, k + 1);
    }
  }

  /** A failed fetch or probe before any denial makes the run write nothing. */
  lemma RaiseWritesNothing(hits: seq<SearchHit>, probes: nat -> Probe, cap: int, utcNow: int, k: nat)
    requires forall j :: 0 <= j < k ==> Proceeds(hits, probes, cap, j)
    requires k < |hits| && k < cap && (hits[k].FetchFailed? || probes(k).ProbeFailed?)
    ensures Written(hits, probes, Some(cap), utcNow) == None
  {
    StopPointIs(hits, probes, cap, 0, k);
  }
}
