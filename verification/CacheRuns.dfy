/**
  Every run of the cache from an empty database: refreshes, toggles and catch-ups in any order.
*/
module CacheRuns {
  import opened Options
  import opened ArticleCache
  import opened FeedRefresh

  datatype Op =
    | Refresh(job: Job)
    | Toggle(key: Key)
    | MarkRead(key: Key)
    | CatchUpFeed(url: string)
    | CatchUpAll

  /** What each call does to the rows; toggling or marking an unknown entry does nothing. */
  function Step(v: Rows, op: Op): Rows
  {
    match op
    case Refresh(job) => Refreshed(v, job)
    case Toggle(k) => if k in v.entries then EntryChanged(v, k, Toggled(v.entries[k])) else v
    case MarkRead(k) => if k in v.entries then EntryChanged(v, k, v.entries[k].(viewed := 1)) else v
    case CatchUpFeed(url) => FeedRead(v, url)
    case CatchUpAll => AllRead(v)
  }

  function After(ops: seq<Op>): Rows
  {
    if ops == [] then Rows(map[], map[]) else Step(After(ops[..|ops| - 1]), ops[|ops| - 1])
  }

  /** The refreshes of a feed in a run, in order. */
  function RefreshesOf(ops: seq<Op>, url: string): seq<Job>
  {
    if ops == [] then []
    else
      var last := ops[|ops| - 1];
      WithRefresh(RefreshesOf(ops[..|ops| - 1], url), last, url)
  }

  /** How many of the latest refreshes in a row were without this UniqueId. */
  function Absences(jobs: seq<Job>, uid: string): nat
  {
    if jobs == [] || uid in Uids(jobs[|jobs| - 1]) then 0 else 1 + Absences(jobs[..|jobs| - 1], uid)
  }

  /** The entry's state is explained by the refreshes of its feed. */
  ghost predicate Explained(v: Rows, jobs: seq<Job>, k: Key)
  {
    k in v.entries ==>
      && v.entries[k].current == 1 - Absences(jobs, k.uid)
      && (exists j :: 0 <= j < |jobs| && k.uid in Uids(jobs[j]))
      && v.entries[k].viewed in {0, 1}
      && k.feed in v.feeds
  }

  /** In every reachable state `Current` is 1 minus the number of the latest refreshes in a row in
      which the entry was absent, the entry was once present, `Viewed` is 0 or 1 and the entry's
      feed is stored. */
  lemma {:induction false} CurrentCountsAbsences(ops: seq<Op>, k: Key)
    ensures Explained(After(ops), RefreshesOf(ops, k.feed), k)
  {
    if ops != [] {
      var front, op := ops[..|ops| - 1], ops[|ops| - 1];
      CurrentCountsAbsences(front, k);
      StepExplained(After(front), RefreshesOf(front, k.feed), op, k);
    }
  }

  function WithRefresh(jobs: seq<Job>, op: Op, url: string): seq<Job>
  {
    if op.Refresh? && op.job.doc.Some? && op.job.url == url then jobs + [op.job] else jobs
  }

  lemma StepExplained(v: Rows, jobs: seq<Job>, op: Op, k: Key)
    requires Explained(v, jobs, k)
    ensures Explained(Step(v, op), WithRefresh(jobs, op, k.feed), k)
  {
    match op
    case Refresh(job) => RefreshExplained(v, jobs, job, k);
    case Toggle(_) =>
    case MarkRead(_) =>
    case CatchUpFeed(_) =>
    case CatchUpAll =>
  }

  lemma RefreshExplained(v: Rows, jobs: seq<Job>, job: Job, k: Key)
    requires Explained(v, jobs, k)
    ensures var more := if job.doc.Some? && job.url == k.feed then jobs + [job] else jobs;
      Explained(Refreshed(v, job), more, k)
  {
    RefreshAt(v, job, k);
    assert Lookup(Refreshed(v, job), k) == EntryAfter(Lookup(v, k), job, k);
    if job.doc.Some? && job.url == k.feed {
      var more := jobs + [job];
      assert more[..|jobs|] == jobs;
      assert k.uid in Uids(job) ==> k.uid in Uids(more[|jobs|]);
      if j :| 0 <= j < |jobs| && k.uid in Uids(jobs[j]) {
        assert k.uid in Uids(more[j]);
      }
    }
  }

  /** An entry is deleted exactly by a refresh of its feed that makes three absences in a row, if it
      is read and was published before the cutoff.  Being absent twice is never enough. */
  lemma DeletedExactlyWhen(ops: seq<Op>, op: Op, k: Key)
    requires k in After(ops).entries
    ensures k !in After(ops + [op]).entries <==>
      && op.Refresh? && op.job.doc.Some? && op.job.url == k.feed
      && Absences(RefreshesOf(ops + [op], k.feed), k.uid) >= 3
      && After(ops).entries[k].viewed == 1
      && if op.job.retention >= 0 then After(ops).entries[k].payload.pubDate + op.job.retention < op.job.now
         else After(ops).entries[k].payload.pubDate < op.job.now
  {
    var more := ops + [op];
    assert more[..|ops|] == ops && more[|ops|] == op;
    CurrentCountsAbsences(ops, k);
    if op.Refresh? && op.job.doc.Some? && op.job.url == k.feed {
      DeletedByRefresh(After(ops), RefreshesOf(ops, k.feed), op.job, k);
    } else if op.Refresh? {
      RefreshAt(After(ops), op.job, k);
      assert Lookup(After(more), k) == Lookup(After(ops), k);
    }
  }

  lemma DeletedByRefresh(v: Rows, jobs: seq<Job>, job: Job, k: Key)
    requires k in v.entries && Explained(v, jobs, k) && job.doc.Some? && job.url == k.feed
    ensures k !in Refreshed(v, job).entries <==>
      && Absences(jobs + [job], k.uid) >= 3
      && v.entries[k].viewed == 1
      && if job.retention >= 0 then v.entries[k].payload.pubDate + job.retention < job.now
         else v.entries[k].payload.pubDate < job.now
  {
    RefreshAt(v, job, k);
    assert Lookup(Refreshed(v, job), k) == EntryAfter(Lookup(v, k), job, k);
    assert (jobs + [job])[..|jobs|] == jobs;
  }

  /** The latest `Absences` refreshes are without the entry, and the one before them has it. */
  lemma {:induction false} AbsencesAre(jobs: seq<Job>, uid: string)
    ensures var n := Absences(jobs, uid);
      && n <= |jobs|
      && (forall i :: |jobs| - n <= i < |jobs| ==> uid !in Uids(jobs[i]))
      && (n < |jobs| ==> uid in Uids(jobs[|jobs| - n - 1]))
  {
    if jobs != [] && uid !in Uids(jobs[|jobs| - 1]) {
      AbsencesAre(jobs[..|jobs| - 1], uid);
    }
  }

  /** Only a refresh of its feed with the entry in the document stores an entry. */
  lemma StoredExactlyWhen(ops: seq<Op>, op: Op, k: Key)
    requires k !in After(ops).entries
    ensures k in After(ops + [op]).entries <==> op.Refresh? && op.job.url == k.feed && k.uid in Uids(op.job)
  {
    var more := ops + [op];
    assert more[..|ops|] == ops && more[|ops|] == op;
    if op.Refresh? {
      RefreshAt(After(ops), op.job, k);
      assert Lookup(After(more), k) == EntryAfter(Lookup(After(ops), k), op.job, k);
    }
  }

  // ---------------------------------------------------------------- running the code

  /** The call is a refresh with an entry that is not stored yet. */
  predicate Reports(v: Rows, op: Op) { op.Refresh? && NewKeys(v, op.job) != {} }

  /** One call on the tables.  Toggles and marks name an entry by its row id, catch-ups name a feed
      by its row id and all feeds by 0. */
  method Perform(cache: Cache, op: Op) returns (newEntry: bool)
    requires cache.Valid()
    modifies cache
    ensures cache.Valid() && cache.Contents() == Step(old(cache.Contents()), op)
    ensures newEntry <==> Reports(old(cache.Contents()), op)
  {
    newEntry := false;
    match op {
      case Refresh(job) =>
        newEntry := UpdateCache(cache, job);
      case Toggle(k) =>
        var id := EntryId(cache, k);
        cache.ToggleReadEntry(id, -1);
      case MarkRead(k) =>
        var id := EntryId(cache, k);
        cache.ToggleReadEntry(id, 1);
      case CatchUpFeed(url) =>
        CatchUp(cache, url);
      case CatchUpAll =>
        cache.ReadFeed(0);
    }
  }

  /** The row id behind a key, or an id that no row has. */
  method EntryId(cache: Cache, k: Key) returns (id: int)
    requires cache.Valid()
    ensures if k in cache.Contents().entries
            then id in cache.entries && KeyOf(cache.feeds, cache.entries[id]) == k &&
                 cache.Contents().entries[k] == cache.entries[id].data
            else id !in cache.entries
  {
    ghost var known: int := if k in cache.entryOf then cache.entryOf[k] else 0;
    assert k in cache.entryOf ==> NamesEntry(cache.feeds, cache.entries, k, known);
    if e :| e in cache.entries && KeyOf(cache.feeds, cache.entries[e]) == k {
      id := e;
    } else {
      id := 0;
    }
  }

  method CatchUp(cache: Cache, url: string)
    requires cache.Valid()
    modifies cache`entries
    ensures cache.Valid() && cache.Contents() == FeedRead(old(cache.Contents()), url)
  {
    if id :| id in cache.feeds && cache.feeds[id].url == url {
      cache.ReadFeed(id);
    } else {
      forall k | k in cache.entryOf ensures k.feed != url {
        assert NamesEntry(cache.feeds, cache.entries, k, cache.entryOf[k]);
      }
      assert FeedRead(cache.Contents(), url).entries == cache.Contents().entries;
    }
  }

  /** What is unread outside one feed; nothing without one. */
  function UnreadElsewhere(v: Rows, url: Option<string>): set<Key>
  {
    set k | k in v.entries && v.entries[k].viewed == 0 && url.Some? && k.feed != url.value
  }

  lemma CatchUpLeaves(v: Rows, url: string)
    ensures UnreadKeys(AllRead(v)) == UnreadElsewhere(v, None)
    ensures UnreadKeys(FeedRead(v, url)) == UnreadElsewhere(v, Some(url))
  {
    NothingUnreadAfterCatchUp(v, url);
  }

  /** Catching up and counting: with one feed caught up, the unread entries of the others are left;
      with all of them, none. */
  method CountAfterCatchUp(cache: Cache, url: Option<string>, ghost v: Rows) returns (unread: nat)
    requires cache.Valid() && v == cache.Contents()
    modifies cache`entries
    ensures cache.Valid() && unread == |UnreadElsewhere(v, url)| && (url == None ==> unread == 0)
  {
    match url {
      case None =>
        CatchUpLeaves(v, []);
        NothingUnreadAfterCatchUp(v, []);
        cache.ReadFeed(0);
      case Some(u) =>
        CatchUpLeaves(v, u);
        CatchUp(cache, u);
    }
    unread := cache.GetNumUnread();
  }

  lemma ToggleCounts(v: Rows, k: Key)
    requires k in v.entries
    ensures |UnreadKeys(Step(v, Toggle(k)))| == |UnreadKeys(v)| + if v.entries[k].viewed == 0 then -1 else 1
    ensures k in Step(v, Toggle(k)).entries
    ensures Step(v, Toggle(k)).entries[k].viewed == if v.entries[k].viewed == 0 then 1 else 0
  {
    ToggledFlipsUnread(v, k);
  }

  /** What each call does to the unread entries. */
  lemma UnreadAfterStep(v: Rows, op: Op)
    ensures op.Refresh? ==> UnreadKeys(Step(v, op)) == UnreadKeys(v) + NewKeys(v, op.job)
    ensures op.Toggle? && op.key in v.entries ==>
      UnreadKeys(Step(v, op)) == if op.key in UnreadKeys(v) then UnreadKeys(v) - {op.key} else UnreadKeys(v) + {op.key}
    ensures op.MarkRead? ==> UnreadKeys(Step(v, op)) == UnreadKeys(v) - {op.key}
    ensures op.CatchUpFeed? ==>
      forall k :: k in UnreadKeys(Step(v, op)) <==> k in UnreadKeys(v) && k.feed != op.url
    ensures op.CatchUpAll? ==> UnreadKeys(Step(v, op)) == {}
  {
    match op
    case Refresh(job) => UnreadAfterRefresh(v, job);
    case Toggle(k) => if k in v.entries { ToggledFlipsUnread(v, k); }
    case MarkRead(_) =>
    case CatchUpFeed(url) => NothingUnreadAfterCatchUp(v, url);
    case CatchUpAll => NothingUnreadAfterCatchUp(v, []);
  }

  /** Two toggles of a stored entry: the count goes down and up again, or up and down again. */
  method ToggleTwice(cache: Cache, k: Key, ghost v: Rows) returns (before: nat, between: nat, after: nat)
    requires cache.Valid() && v == cache.Contents() && k in v.entries
    modifies cache
    ensures cache.Valid() && before == after
    ensures between == before + if v.entries[k].viewed == 0 then -1 else 1
  {
    before := cache.GetNumUnread();
    between := CountAfterToggle(cache, k, v);
    after := CountAfterToggle(cache, k, cache.Contents());
  }

  method CountAfterToggle(cache: Cache, k: Key, ghost v: Rows) returns (unread: nat)
    requires cache.Valid() && v == cache.Contents() && k in v.entries
    modifies cache
    ensures cache.Valid() && k in cache.Contents().entries
    ensures cache.Contents().entries[k].viewed == if v.entries[k].viewed == 0 then 1 else 0
    ensures unread == |UnreadKeys(cache.Contents())|
    ensures unread == |UnreadKeys(v)| + if v.entries[k].viewed == 0 then -1 else 1
  {
    ToggleCounts(v, k);
    var flag := Perform(cache, Toggle(k));
    unread := cache.GetNumUnread();
  }

  /** Every run of calls on an empty database reaches exactly the rows of `After`, with unique keys,
      a feed for every entry, and `Viewed` 0 or 1. */
  method Run(ops: seq<Op>) returns (cache: Cache)
    ensures cache.Valid() && cache.Contents() == After(ops)
    ensures UniqueKeys(cache.feeds, cache.entries)
    ensures forall e :: e in cache.entries ==> cache.entries[e].data.viewed in {0, 1}
  {
    cache := new Cache();
    for i := 0 to |ops|
      invariant fresh(cache) && cache.Valid() && cache.Contents() == After(ops[..i])
    {
      assert ops[..i + 1][..i] == ops[..i];
      var newEntry := Perform(cache, ops[i]);
    }
    assert ops[..|ops|] == ops;
    cache.KeysAreUnique();
    forall e | e in cache.entries ensures cache.entries[e].data.viewed in {0, 1} {
      var k := KeyOf(cache.feeds, cache.entries[e]);
      CurrentCountsAbsences(ops, k);
      assert cache.Contents().entries[k] == cache.entries[e].data;
    }
  }

  function ReportsOf(ops: seq<Op>): seq<bool>
  {
    if ops == [] then []
    else ReportsOf(ops[..|ops| - 1]) + [Reports(After(ops[..|ops| - 1]), ops[|ops| - 1])]
  }

  lemma {:induction false} ReportAt(ops: seq<Op>, i: nat)
    requires i < |ops|
    ensures |ReportsOf(ops)| == |ops| && ReportsOf(ops)[i] == Reports(After(ops[..i]), ops[i])
  {
    var front := ops[..|ops| - 1];
    if i < |front| {
      ReportAt(front, i);
      assert front[..i] == ops[..i];
    } else if front != [] {
      ReportAt(front, 0);
    }
  }

  lemma OneMoreOp(ops: seq<Op>, i: nat)
    requires i < |ops|
    ensures After(ops[..i + 1]) == Step(After(ops[..i]), ops[i])
    ensures ReportsOf(ops[..i + 1]) == ReportsOf(ops[..i]) + [Reports(After(ops[..i]), ops[i])]
  {
    assert ops[..i + 1][..i] == ops[..i];
  }

  /** Every run reports new entries exactly where they are, and ends with the unread count of its
      rows. */
  method RunReports(ops: seq<Op>) returns (reports: seq<bool>, unread: nat)
    ensures |reports| == |ops|
    ensures forall i :: 0 <= i < |ops| ==> (reports[i] <==> Reports(After(ops[..i]), ops[i]))
    ensures unread == |UnreadKeys(After(ops))|
  {
    reports, unread := RunAll(ops);
    assert ops == [] ==> reports == [];
    forall i | 0 <= i < |ops| ensures |reports| == |ops| && reports[i] == Reports(After(ops[..i]), ops[i]) {
      ReportAt(ops, i);
    }
  }

  method RunAll(ops: seq<Op>) returns (reports: seq<bool>, unread: nat)
    ensures reports == ReportsOf(ops) && unread == |UnreadKeys(After(ops))|
  {
    var cache := new Cache();
    reports := [];
    for i := 0 to |ops|
      invariant fresh(cache) && cache.Valid() && cache.Contents() == After(ops[..i])
      invariant reports == ReportsOf(ops[..i])
    {
      OneMoreOp(ops, i);
      var newEntry := Perform(cache, ops[i]);
      reports := reports + [newEntry];
    }
    assert ops[..|ops|] == ops;
    unread := cache.GetNumUnread();
  }
}
