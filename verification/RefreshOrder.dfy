/**
  Several refreshes: the downloads of a cycle may finish in any order (src/httpfetch.c:151-189).
*/
module RefreshOrder {
  import opened Options
  import opened ArticleCache
  import opened FeedRefresh

  predicate DistinctUrls(jobs: seq<Job>)
  {
    forall i, j :: 0 <= i < j < |jobs| ==> jobs[i].url != jobs[j].url
  }

  function AllRefreshed(v: Rows, jobs: seq<Job>): Rows
  {
    if jobs == [] then v else Refreshed(AllRefreshed(v, jobs[..|jobs| - 1]), jobs[|jobs| - 1])
  }

  /** Some refresh of the sequence stores an entry for the first time. */
  ghost predicate AnyNewEntry(v: Rows, jobs: seq<Job>)
  {
    exists i :: 0 <= i < |jobs| && IsNewAt(v, jobs, i)
  }

  ghost predicate IsNewAt(v: Rows, jobs: seq<Job>, i: nat)
    requires i < |jobs|
  {
    NewKeys(AllRefreshed(v, jobs[..i]), jobs[i]) != {}
  }

  /** What a sequence of refreshes makes of one entry: the job for its feed decides alone. */
  lemma {:induction false} AllRefreshedAt(v: Rows, jobs: seq<Job>, k: Key)
    requires DistinctUrls(jobs)
    ensures forall i :: 0 <= i < |jobs| && jobs[i].url == k.feed ==>
      Lookup(AllRefreshed(v, jobs), k) == EntryAfter(Lookup(v, k), jobs[i], k)
    ensures (forall i :: 0 <= i < |jobs| ==> jobs[i].url != k.feed) ==>
      Lookup(AllRefreshed(v, jobs), k) == Lookup(v, k)
  {
    if jobs != [] {
      var front, last := jobs[..|jobs| - 1], jobs[|jobs| - 1];
      AllRefreshedAt(v, front, k);
      RefreshAt(AllRefreshed(v, front), last, k);
      assert forall i :: 0 <= i < |front| ==> front[i] == jobs[i];
    }
  }

  /** The same for the row of a feed. */
  lemma {:induction false} FeedsRefreshedAt(v: Rows, jobs: seq<Job>, url: string)
    requires DistinctUrls(jobs)
    ensures forall i :: 0 <= i < |jobs| && jobs[i].url == url ==>
      FeedLookup(AllRefreshed(v, jobs), url) ==
      if jobs[i].doc.Some? then Some(jobs[i].doc.value.feed) else FeedLookup(v, url)
    ensures (forall i :: 0 <= i < |jobs| ==> jobs[i].url != url) ==>
      FeedLookup(AllRefreshed(v, jobs), url) == FeedLookup(v, url)
  {
    if jobs != [] {
      var front, last := jobs[..|jobs| - 1], jobs[|jobs| - 1];
      FeedsRefreshedAt(v, front, url);
      RefreshAt(AllRefreshed(v, front), last, Key(url, []));
      assert forall i :: 0 <= i < |front| ==> front[i] == jobs[i];
    }
  }

  function FeedLookup(v: Rows, url: string): Option<FeedText>
  {
    if url in v.feeds then Some(v.feeds[url]) else None
  }

  /** Two states with the same rows are the same. */
  lemma SameRows(v: Rows, w: Rows)
    requires forall k :: Lookup(v, k) == Lookup(w, k)
    requires forall u :: FeedLookup(v, u) == FeedLookup(w, u)
    ensures v == w
  {
    forall k ensures k in v.entries <==> k in w.entries {
      assert Lookup(v, k) == Lookup(w, k);
    }
    forall k | k in v.entries ensures v.entries[k] == w.entries[k] {
      assert Lookup(v, k) == Lookup(w, k);
    }
    forall u ensures u in v.feeds <==> u in w.feeds {
      assert FeedLookup(v, u) == FeedLookup(w, u);
    }
    forall u | u in v.feeds ensures v.feeds[u] == w.feeds[u] {
      assert FeedLookup(v, u) == FeedLookup(w, u);
    }
    assert v.entries == w.entries && v.feeds == w.feeds;
  }

  /** What is new in a document does not depend on the refreshes of other feeds. */
  lemma NewKeysOfOwnFeed(v: Rows, jobs: seq<Job>, job: Job)
    requires DistinctUrls(jobs) && forall i :: 0 <= i < |jobs| ==> jobs[i].url != job.url
    ensures NewKeys(AllRefreshed(v, jobs), job) == NewKeys(v, job)
  {
    forall x ensures Key(job.url, x) in AllRefreshed(v, jobs).entries <==> Key(job.url, x) in v.entries {
      AllRefreshedAt(v, jobs, Key(job.url, x));
      assert Lookup(AllRefreshed(v, jobs), Key(job.url, x)) == Lookup(v, Key(job.url, x));
    }
  }

  lemma AnyNewEntryIs(v: Rows, jobs: seq<Job>)
    requires DistinctUrls(jobs)
    ensures AnyNewEntry(v, jobs) <==> exists job :: job in jobs && NewKeys(v, job) != {}
  {
    forall i | 0 <= i < |jobs| ensures NewKeys(AllRefreshed(v, jobs[..i]), jobs[i]) == NewKeys(v, jobs[i]) {
      NewKeysOfOwnFeed(v, jobs[..i], jobs[i]);
    }
    if job :| job in jobs && NewKeys(v, job) != {} {
      var i :| 0 <= i < |jobs| && jobs[i] == job;
      assert IsNewAt(v, jobs, i);
    }
    if AnyNewEntry(v, jobs) {
      var i :| 0 <= i < |jobs| && IsNewAt(v, jobs, i);
      assert jobs[i] in jobs;
    }
  }

  /** Refreshes of distinct feeds give the same rows and the same flag in every order. */
  lemma OrderIsIrrelevant(v: Rows, jobs: seq<Job>, jobs': seq<Job>)
    requires DistinctUrls(jobs) && DistinctUrls(jobs') && multiset(jobs) == multiset(jobs')
    ensures AllRefreshed(v, jobs) == AllRefreshed(v, jobs')
    ensures AnyNewEntry(v, jobs) <==> AnyNewEntry(v, jobs')
  {
    forall job ensures job in jobs <==> job in jobs' {
      assert job in multiset(jobs) <==> job in multiset(jobs');
    }
    SameJobsSameRows(v, jobs, jobs');
  }

  lemma SameJobsSameRows(v: Rows, jobs: seq<Job>, jobs': seq<Job>)
    requires DistinctUrls(jobs) && DistinctUrls(jobs') && forall job :: job in jobs <==> job in jobs'
    ensures AllRefreshed(v, jobs) == AllRefreshed(v, jobs')
    ensures AnyNewEntry(v, jobs) <==> AnyNewEntry(v, jobs')
  {
    forall k ensures Lookup(AllRefreshed(v, jobs), k) == Lookup(AllRefreshed(v, jobs'), k) {
      AllRefreshedAt(v, jobs, k);
      AllRefreshedAt(v, jobs', k);
      SameJobFor(jobs, jobs', k.feed);
    }
    forall u ensures FeedLookup(AllRefreshed(v, jobs), u) == FeedLookup(AllRefreshed(v, jobs'), u) {
      FeedsRefreshedAt(v, jobs, u);
      FeedsRefreshedAt(v, jobs', u);
      SameJobFor(jobs, jobs', u);
    }
    SameRows(AllRefreshed(v, jobs), AllRefreshed(v, jobs'));
    AnyNewEntryIs(v, jobs);
    AnyNewEntryIs(v, jobs');
  }

  /** The job for a feed is found in both sequences, or in neither. */
  lemma SameJobFor(jobs: seq<Job>, jobs': seq<Job>, url: string)
    requires forall job :: job in jobs <==> job in jobs'
    ensures (exists i, j :: 0 <= i < |jobs| && 0 <= j < |jobs'| && jobs[i] == jobs'[j] && jobs[i].url == url)
         || ((forall i :: 0 <= i < |jobs| ==> jobs[i].url != url) &&
             (forall j :: 0 <= j < |jobs'| ==> jobs'[j].url != url))
  {
    if i :| 0 <= i < |jobs| && jobs[i].url == url {
      assert jobs[i] in jobs';
      var j :| 0 <= j < |jobs'| && jobs'[j] == jobs[i];
    } else {
      forall j | 0 <= j < |jobs'| ensures jobs'[j].url != url {
        assert jobs'[j] in jobs;
      }
    }
  }

  lemma OneMoreJob(v: Rows, jobs: seq<Job>, i: nat)
    requires i < |jobs|
    ensures AllRefreshed(v, jobs[..i + 1]) == Refreshed(AllRefreshed(v, jobs[..i]), jobs[i])
    ensures AnyNewEntry(v, jobs[..i + 1]) <==>
      AnyNewEntry(v, jobs[..i]) || NewKeys(AllRefreshed(v, jobs[..i]), jobs[i]) != {}
  {
    assert jobs[..i + 1][..i] == jobs[..i];
    if AnyNewEntry(v, jobs[..i]) {
      var j :| 0 <= j < i && IsNewAt(v, jobs[..i], j);
      IsNewInPrefix(v, jobs, i, j);
      IsNewInPrefix(v, jobs, i + 1, j);
    }
    if AnyNewEntry(v, jobs[..i + 1]) {
      var j :| 0 <= j < i + 1 && IsNewAt(v, jobs[..i + 1], j);
      IsNewInPrefix(v, jobs, i + 1, j);
      if j < i {
        IsNewInPrefix(v, jobs, i, j);
      }
    }
    IsNewInPrefix(v, jobs, i + 1, i);
  }

  /** Whether a refresh stores something new does not depend on what follows it. */
  lemma IsNewInPrefix(v: Rows, jobs: seq<Job>, n: nat, j: nat)
    requires j < n <= |jobs|
    ensures IsNewAt(v, jobs[..n], j) <==> IsNewAt(v, jobs, j)
  {
    assert jobs[..n][..j] == jobs[..j];
  }

  /** The successful messages of `finish_batch`, in the order in which they arrive. */
  method RefreshInOrder(cache: Cache, jobs: seq<Job>) returns (newEntry: bool)
    requires cache.Valid()
    modifies cache
    ensures cache.Valid() && cache.Contents() == AllRefreshed(old(cache.Contents()), jobs)
    ensures newEntry <==> AnyNewEntry(old(cache.Contents()), jobs)
  {
    ghost var v := cache.Contents();
    newEntry := false;
    assert jobs[..0] == [];
    for i := 0 to |jobs|
      invariant cache.Valid() && cache.Contents() == AllRefreshed(v, jobs[..i])
      invariant newEntry <==> AnyNewEntry(v, jobs[..i])
    {
      OneMoreJob(v, jobs, i);
      var flag := UpdateCache(cache, jobs[i]);
      newEntry := newEntry || flag;
    }
    assert jobs[..|jobs|] == jobs;
  }
}
