/**
  The scheduler of src/httpfetch.c and the cache together: a whole refresh cycle in which every
  finished transfer is a refresh of its feed.
*/
module CachedCycle {
  import opened Options
  import opened ArticleCache
  import opened FeedRefresh
  import opened RefreshOrder
  import opened FetchRounds
  import opened FetchScheduler
  import opened FetchCycle
  import opened FetchRuns

  /** What a transfer brings: a document, or nothing if its root element is missing. */
  datatype Transfer =
    | Got(doc: Option<Document>, now: int, retention: int)
    | Unparsed
    | Late
    | Broken

  function JobOf(url: string, t: Transfer): Job
    requires t.Got?
  {
    Job(url, t.doc, t.now, t.retention)
  }

  /** The refreshes of a batch, in the order in which its slots report. */
  function JobsOf(urls: seq<string>, ts: seq<Transfer>, order: seq<nat>): (jobs: seq<Job>)
    requires |urls| == |ts| && forall k :: 0 <= k < |order| ==> order[k] < |ts|
  {
    if order == [] then []
    else
      var i := order[|order| - 1];
      JobsOf(urls, ts, order[..|order| - 1]) + if ts[i].Got? then [JobOf(urls[i], ts[i])] else []
  }

  function SlotOrder(n: nat): (order: seq<nat>)
    ensures IsOrder(order, n)
  {
    var order: seq<nat> := seq(n, i requires 0 <= i < n => i);
    assert forall i :: 0 <= i < n ==> i in order by {
      forall i | 0 <= i < n ensures i in order {
        assert order[i] == i;
      }
    }
    order
  }

  /** The outcome that the scheduler sees; `v` are the rows before the batch. */
  function OutcomeOf(v: Rows, url: string, t: Transfer): Outcome
  {
    match t
    case Got(_, _, _) => Finished(NewKeys(v, JobOf(url, t)) != {})
    case Unparsed => ParseFailed
    case Late => TimedOut
    case Broken => OtherError
  }

  function OutcomesOf(v: Rows, urls: seq<string>, ts: seq<Transfer>): (outcomes: seq<Outcome>)
    requires |urls| == |ts|
    ensures |outcomes| == |ts|
    ensures forall i :: 0 <= i < |ts| ==> outcomes[i] == OutcomeOf(v, urls[i], ts[i])
  {
    seq(|ts|, i requires 0 <= i < |ts| => OutcomeOf(v, urls[i], ts[i]))
  }

  /** The rows after a batch, whose refreshes are taken in slot order. */
  function BatchRows(v: Rows, urls: seq<string>, ts: seq<Transfer>): Rows
    requires |urls| == |ts|
  {
    AllRefreshed(v, JobsOf(urls, ts, SlotOrder(|ts|)))
  }

  ghost predicate Different(urls: seq<string>)
  {
    forall i, j :: 0 <= i < j < |urls| ==> urls[i] != urls[j]
  }

  // ---------------------------------------------------------------- one batch

  lemma {:induction false} JobsAre(urls: seq<string>, ts: seq<Transfer>, order: seq<nat>, job: Job)
    requires |urls| == |ts| && forall k :: 0 <= k < |order| ==> order[k] < |ts|
    ensures job in JobsOf(urls, ts, order) <==>
      exists i :: i in order && i < |ts| && ts[i].Got? && job == JobOf(urls[i], ts[i])
  {
    if order != [] {
      var front, last := order[..|order| - 1], order[|order| - 1];
      JobsAre(urls, ts, front, job);
      assert order == front + [last];
      if i :| i in order && i < |ts| && ts[i].Got? && job == JobOf(urls[i], ts[i]) {
        assert i in front || i == last;
      }
    }
  }

  lemma {:induction false} JobsDiffer(urls: seq<string>, ts: seq<Transfer>, order: seq<nat>)
    requires |urls| == |ts| && Different(urls)
    requires forall k :: 0 <= k < |order| ==> order[k] < |ts|
    requires forall a, b :: 0 <= a < b < |order| ==> order[a] != order[b]
    ensures DistinctUrls(JobsOf(urls, ts, order))
  {
    if order != [] {
      var front, last := order[..|order| - 1], order[|order| - 1];
      JobsDiffer(urls, ts, front);
      var jobs := JobsOf(urls, ts, front);
      forall k | 0 <= k < |jobs| ensures jobs[k].url != urls[last] {
        JobsAre(urls, ts, front, jobs[k]);
        assert jobs[k] in jobs;
        var i :| i in front && i < |ts| && ts[i].Got? && jobs[k] == JobOf(urls[i], ts[i]);
        assert i != last;
      }
    }
  }

  /** Every order of reports leaves the same rows. */
  lemma AnyOrderSameRows(v: Rows, urls: seq<string>, ts: seq<Transfer>, order: seq<nat>)
    requires |urls| == |ts| && Different(urls) && IsOrder(order, |ts|)
    ensures AllRefreshed(v, JobsOf(urls, ts, order)) == BatchRows(v, urls, ts)
  {
    var slots := SlotOrder(|ts|);
    JobsDiffer(urls, ts, order);
    JobsDiffer(urls, ts, slots);
    forall job ensures job in JobsOf(urls, ts, order) <==> job in JobsOf(urls, ts, slots) {
      JobsAre(urls, ts, order, job);
      JobsAre(urls, ts, slots, job);
      forall i | 0 <= i < |ts| ensures i in order && i in slots {
      }
    }
    SameJobsSameRows(v, JobsOf(urls, ts, order), JobsOf(urls, ts, slots));
  }

  /** A refresh in the middle of a batch reports what it would have reported at its start. */
  lemma ReportsAtStart(v: Rows, urls: seq<string>, ts: seq<Transfer>, order: seq<nat>, k: nat)
    requires |urls| == |ts| && Different(urls) && IsOrder(order, |ts|) && k < |order| && ts[order[k]].Got?
    ensures var job := JobOf(urls[order[k]], ts[order[k]]);
      NewKeys(AllRefreshed(v, JobsOf(urls, ts, order[..k])), job) == NewKeys(v, job)
  {
    var i, front := order[k], order[..k];
    var jobs := JobsOf(urls, ts, front);
    JobsDiffer(urls, ts, front);
    forall j | 0 <= j < |jobs| ensures jobs[j].url != urls[i] {
      JobsAre(urls, ts, front, jobs[j]);
      assert jobs[j] in jobs;
      var i' :| i' in front && i' < |ts| && ts[i'].Got? && jobs[j] == JobOf(urls[i'], ts[i']);
      assert i' != i;
    }
    NewKeysOfOwnFeed(v, jobs, JobOf(urls[i], ts[i]));
  }

  /** `xmlproc_finish` for one slot: a refresh, and the outcome that `finish_batch` sees. */
  method Deliver(cache: Cache, url: string, t: Transfer) returns (outcome: Outcome)
    requires cache.Valid()
    modifies cache
    ensures cache.Valid() && outcome == OutcomeOf(old(cache.Contents()), url, t)
    ensures cache.Contents() ==
      if t.Got? then Refreshed(old(cache.Contents()), JobOf(url, t)) else old(cache.Contents())
  {
    match t {
      case Got(_, _, _) =>
        var newEntry := UpdateCache(cache, JobOf(url, t));
        outcome := Finished(newEntry);
      case Unparsed => outcome := ParseFailed;
      case Late => outcome := TimedOut;
      case Broken => outcome := OtherError;
    }
  }

  /** The refreshes of a batch in the order in which its slots report. */
  method DeliverBatch(cache: Cache, urls: seq<string>, ts: seq<Transfer>, order: seq<nat>)
    returns (outcomes: seq<Outcome>)
    requires cache.Valid() && |urls| == |ts| && Different(urls) && IsOrder(order, |ts|)
    modifies cache
    ensures cache.Valid() && cache.Contents() == BatchRows(old(cache.Contents()), urls, ts)
    ensures outcomes == OutcomesOf(old(cache.Contents()), urls, ts)
    ensures forall i :: 0 <= i < |ts| ==>
      && (ts[i].Late? ==> outcomes[i] == TimedOut) && (ts[i].Unparsed? ==> outcomes[i] == ParseFailed)
      && (ts[i].Broken? ==> outcomes[i] == OtherError)
      && (ts[i].Got? ==> outcomes[i].Finished?)
  {
    ghost var v := cache.Contents();
    outcomes := seq(|ts|, _ => TimedOut);
    for k := 0 to |order|
      invariant cache.Valid() && cache.Contents() == AllRefreshed(v, JobsOf(urls, ts, order[..k]))
      invariant |outcomes| == |ts|
      invariant forall j :: 0 <= j < k ==> outcomes[order[j]] == OutcomeOf(v, urls[order[j]], ts[order[j]])
    {
      var i := order[k];
      OneMoreReport(v, urls, ts, order, k);
      var outcome := Deliver(cache, urls[i], ts[i]);
      outcomes := outcomes[i := outcome];
    }
    assert order[..|order|] == order;
    AnyOrderSameRows(v, urls, ts, order);
    forall i | 0 <= i < |ts| ensures outcomes[i] == OutcomeOf(v, urls[i], ts[i]) {
      assert i in order;
    }
  }

  lemma OneMoreReport(v: Rows, urls: seq<string>, ts: seq<Transfer>, order: seq<nat>, k: nat)
    requires |urls| == |ts| && Different(urls) && IsOrder(order, |ts|) && k < |order|
    ensures var i, rows := order[k], AllRefreshed(v, JobsOf(urls, ts, order[..k]));
      && OutcomeOf(rows, urls[i], ts[i]) == OutcomeOf(v, urls[i], ts[i])
      && AllRefreshed(v, JobsOf(urls, ts, order[..k + 1])) ==
         if ts[i].Got? then Refreshed(rows, JobOf(urls[i], ts[i])) else rows
  {
    assert order[..k + 1][..k] == order[..k];
    var i, jobs := order[k], JobsOf(urls, ts, order[..k]);
    if ts[i].Got? {
      ReportsAtStart(v, urls, ts, order, k);
      assert (jobs + [JobOf(urls[i], ts[i])])[..|jobs|] == jobs;
    } else {
      assert JobsOf(urls, ts, order[..k + 1]) == jobs;
    }
  }

  /** What a batch does to the entries of the feed in one slot: a document refreshes them, and a
      transfer that failed in any way leaves them as they are. */
  lemma SlotRows(v: Rows, urls: seq<string>, ts: seq<Transfer>, i: nat, k: Key)
    requires |urls| == |ts| && Different(urls) && i < |ts| && k.feed == urls[i]
    ensures Lookup(BatchRows(v, urls, ts), k) ==
      if ts[i].Got? then Lookup(Refreshed(v, Job(urls[i], ts[i].doc, ts[i].now, ts[i].retention)), k) else Lookup(v, k)
  {
    var slots := SlotOrder(|ts|);
    var jobs := JobsOf(urls, ts, slots);
    JobsDiffer(urls, ts, slots);
    AllRefreshedAt(v, jobs, k);
    assert i in slots;
    if ts[i].Got? {
      var job := JobOf(urls[i], ts[i]);
      JobsAre(urls, ts, slots, job);
      var j :| 0 <= j < |jobs| && jobs[j] == job;
      RefreshAt(v, job, k);
    } else {
      forall j | 0 <= j < |jobs| ensures jobs[j].url != k.feed {
        OtherSlot(urls, ts, slots, i, jobs[j]);
      }
    }
  }

  lemma OtherSlot(urls: seq<string>, ts: seq<Transfer>, slots: seq<nat>, i: nat, job: Job)
    requires |urls| == |ts| && Different(urls) && IsOrder(slots, |ts|) && i < |ts| && !ts[i].Got?
    requires job in JobsOf(urls, ts, slots)
    ensures job.url != urls[i]
  {
    JobsAre(urls, ts, slots, job);
    var i' :| i' in slots && i' < |ts| && ts[i'].Got? && job == JobOf(urls[i'], ts[i']);
    assert i' < i || i' > i;
  }

  /** Entries of feeds outside the batch stay as they are. */
  lemma OutsideBatch(v: Rows, urls: seq<string>, ts: seq<Transfer>, k: Key)
    requires |urls| == |ts| && Different(urls) && k.feed !in urls
    ensures Lookup(BatchRows(v, urls, ts), k) == Lookup(v, k)
  {
    var slots := SlotOrder(|ts|);
    var jobs := JobsOf(urls, ts, slots);
    JobsDiffer(urls, ts, slots);
    AllRefreshedAt(v, jobs, k);
    forall j | 0 <= j < |jobs| ensures jobs[j].url != k.feed {
      JobsAre(urls, ts, slots, jobs[j]);
      assert jobs[j] in jobs;
    }
  }

  // ---------------------------------------------------------------- unread counts

  lemma {:induction false} UnreadAfterJobs(v: Rows, jobs: seq<Job>)
    ensures |UnreadKeys(AllRefreshed(v, jobs))| >= |UnreadKeys(v)|
    ensures |UnreadKeys(AllRefreshed(v, jobs))| > |UnreadKeys(v)| <==> AnyNewEntry(v, jobs)
  {
    if jobs != [] {
      var k := |jobs| - 1;
      UnreadAfterJobs(v, jobs[..k]);
      OneMoreJob(v, jobs, k);
      assert jobs[..k + 1] == jobs;
      UnreadAfterRefresh(AllRefreshed(v, jobs[..k]), jobs[k]);
    }
  }

  /** A batch raises the unread count exactly if one of its outcomes carries a new entry. */
  lemma UnreadAfterBatch(v: Rows, urls: seq<string>, ts: seq<Transfer>)
    requires |urls| == |ts| && Different(urls)
    ensures |UnreadKeys(BatchRows(v, urls, ts))| >= |UnreadKeys(v)|
    ensures |UnreadKeys(BatchRows(v, urls, ts))| > |UnreadKeys(v)| <==> Finished(true) in OutcomesOf(v, urls, ts)
  {
    var slots, outcomes := SlotOrder(|ts|), OutcomesOf(v, urls, ts);
    var jobs := JobsOf(urls, ts, slots);
    JobsDiffer(urls, ts, slots);
    UnreadAfterJobs(v, jobs);
    AnyNewEntryIs(v, jobs);
    if job :| job in jobs && NewKeys(v, job) != {} {
      JobsAre(urls, ts, slots, job);
      var i :| i in slots && i < |ts| && ts[i].Got? && job == JobOf(urls[i], ts[i]);
      assert outcomes[i] == Finished(true);
    }
    if Finished(true) in outcomes {
      var i :| 0 <= i < |outcomes| && outcomes[i] == Finished(true);
      var job := JobOf(urls[i], ts[i]);
      JobsAre(urls, ts, slots, job);
      assert i in slots;
      assert job in jobs && NewKeys(v, job) != {};
    }
  }

  // ---------------------------------------------------------------- a whole cycle

  /** The rounds that the scheduler saw, and the rows of the cache. */
  datatype Progress = Progress(rounds: seq<seq<Outcome>>, rows: Rows)

  lemma BatchPositions(n: nat, R: nat, npara: nat, rounds: seq<seq<Outcome>>)
    requires npara >= 1 && ValidRun(n, R, npara, rounds)
    ensures Increasing(Batch(n, R, npara, rounds)) && Positions(Batch(n, R, npara, rounds), n)
  {
    var sel := Batch(n, R, npara, rounds);
    SelectedExact(Counters(n, R, npara, rounds), R, npara);
    assert forall k :: 0 <= k < |sel| ==> sel[k] in sel;
  }

  /** The feeds of the batch that follows these rounds. */
  ghost function BatchUrls(urls: seq<string>, R: nat, npara: nat, rounds: seq<seq<Outcome>>): (us: seq<string>)
    requires npara >= 1 && ValidRun(|urls|, R, npara, rounds)
    ensures |us| == |Batch(|urls|, R, npara, rounds)| && (Different(urls) ==> Different(us))
  {
    BatchPositions(|urls|, R, npara, rounds);
    var sel := Batch(|urls|, R, npara, rounds);
    seq(|sel|, i requires 0 <= i < |sel| => urls[sel[i]])
  }

  /** A batch is due, and `ts` brings one transfer for each of its slots. */
  ghost predicate Due(s: Progress, urls: seq<string>, R: nat, npara: nat, ts: seq<Transfer>)
    requires npara >= 1 && ValidRun(|urls|, R, npara, s.rounds)
  {
    Batch(|urls|, R, npara, s.rounds) != [] && |ts| == |Batch(|urls|, R, npara, s.rounds)|
  }

  ghost function NextProgress(s: Progress, urls: seq<string>, R: nat, npara: nat, ts: seq<Transfer>): (s': Progress)
    requires npara >= 1 && ValidRun(|urls|, R, npara, s.rounds) && Due(s, urls, R, npara, ts)
    ensures ValidRun(|urls|, R, npara, s'.rounds)
  {
    var us := BatchUrls(urls, R, npara, s.rounds);
    var outcomes := OutcomesOf(s.rows, us, ts);
    OneMoreRound(|urls|, R, npara, s.rounds, outcomes);
    Progress(s.rounds + [outcomes], BatchRows(s.rows, us, ts))
  }

  /** Each of these batches is due behind the one before it. */
  ghost predicate Fits(s: Progress, urls: seq<string>, R: nat, npara: nat, batches: seq<seq<Transfer>>)
    requires npara >= 1 && ValidRun(|urls|, R, npara, s.rounds)
    decreases |batches|
  {
    batches == [] ||
    (Due(s, urls, R, npara, batches[0]) &&
     Fits(NextProgress(s, urls, R, npara, batches[0]), urls, R, npara, batches[1..]))
  }

  /** What the first `k` batches lead to.  The order in which slots report does not occur. */
  ghost function After(s: Progress, urls: seq<string>, R: nat, npara: nat, batches: seq<seq<Transfer>>, k: nat)
    : (s': Progress)
    requires npara >= 1 && ValidRun(|urls|, R, npara, s.rounds) && Fits(s, urls, R, npara, batches) && k <= |batches|
    ensures ValidRun(|urls|, R, npara, s'.rounds)
    decreases k
  {
    if k == 0 then s
    else After(NextProgress(s, urls, R, npara, batches[0]), urls, R, npara, batches[1..], k - 1)
  }

  /** What a batch does to the counter of feed `u` in slot `i`: a late or unparsed transfer counts one
      more failure, a broken one gives the feed up, and a document changes nothing. */
  lemma SlotCounter(s: Progress, urls: seq<string>, R: nat, npara: nat, ts: seq<Transfer>, i: nat, u: nat)
    requires npara >= 1 && ValidRun(|urls|, R, npara, s.rounds) && Due(s, urls, R, npara, ts)
    requires i < |ts| && u == Batch(|urls|, R, npara, s.rounds)[i]
    ensures u < |urls| && BatchUrls(urls, R, npara, s.rounds)[i] == urls[u]
    ensures var before := Counters(|urls|, R, npara, s.rounds)[u];
      var loaded := if before < 0 then 0 else before;
      Counters(|urls|, R, npara, NextProgress(s, urls, R, npara, ts).rounds)[u] ==
        if ts[i].Late? || ts[i].Unparsed? then loaded + 1 else if ts[i].Broken? then R else loaded
  {
    BatchPositions(|urls|, R, npara, s.rounds);
    var us := BatchUrls(urls, R, npara, s.rounds);
    var outcomes := OutcomesOf(s.rows, us, ts);
    SlotInRound(|urls|, R, npara, s.rounds, outcomes, i, u);
    CountsAs(s.rows, us[i], ts[i], R);
  }

  /** How a transfer counts: `c` is the counter of its feed once loaded. */
  lemma CountsAs(v: Rows, url: string, t: Transfer, R: nat)
    ensures forall c: nat ::
      AfterOutcome(c, R, OutcomeOf(v, url, t)) == (if t.Late? || t.Unparsed? then c + 1 else if t.Broken? then R else c)
  {
  }

  lemma SlotInRound(n: nat, R: nat, npara: nat, rounds: seq<seq<Outcome>>, outcomes: seq<Outcome>, i: nat, u: nat)
    requires npara >= 1 && ValidRun(n, R, npara, rounds)
    requires Batch(n, R, npara, rounds) != [] && |outcomes| == |Batch(n, R, npara, rounds)|
    requires i < |outcomes| && u == Batch(n, R, npara, rounds)[i]
    ensures u < n && ValidRun(n, R, npara, rounds + [outcomes])
    ensures var before := Counters(n, R, npara, rounds)[u];
      Counters(n, R, npara, rounds + [outcomes])[u] == AfterOutcome(if before < 0 then 0 else before, R, outcomes[i])
  {
    BatchPositions(n, R, npara, rounds);
    SlotOf(Batch(n, R, npara, rounds), i);
    OneMoreRound(n, R, npara, rounds, outcomes);
    RoundAt(Counters(n, R, npara, rounds), R, npara, outcomes, u);
  }

  lemma SlotOf(sel: seq<nat>, i: nat)
    requires Increasing(sel) && i < |sel|
    ensures sel[i] in sel && PositionOf(sel, sel[i]) == i
  {
    assert sel[i] in sel;
    var j := PositionOf(sel, sel[i]);
    assert j < i || j == i || j > i;
  }

  /** A feed given up is in no later batch of the cycle, and keeps its counter. */
  lemma {:induction false} GivenUpForGood(s: Progress, urls: seq<string>, R: nat, npara: nat,
                                          batches: seq<seq<Transfer>>, k: nat, u: nat)
    requires npara >= 1 && ValidRun(|urls|, R, npara, s.rounds) && Fits(s, urls, R, npara, batches)
    requires k <= |batches| && u < |urls| && Counters(|urls|, R, npara, s.rounds)[u] == R
    ensures Counters(|urls|, R, npara, After(s, urls, R, npara, batches, k).rounds)[u] == R
    ensures u !in Batch(|urls|, R, npara, After(s, urls, R, npara, batches, k).rounds)
    decreases k
  {
    SelectedEligible(Counters(|urls|, R, npara, s.rounds), R, npara);
    if k > 0 {
      StaysGivenUp(s, urls, R, npara, batches[0], u);
      GivenUpForGood(NextProgress(s, urls, R, npara, batches[0]), urls, R, npara, batches[1..], k - 1, u);
    }
  }

  lemma StaysGivenUp(s: Progress, urls: seq<string>, R: nat, npara: nat, ts: seq<Transfer>, u: nat)
    requires npara >= 1 && ValidRun(|urls|, R, npara, s.rounds) && Due(s, urls, R, npara, ts)
    requires u < |urls| && Counters(|urls|, R, npara, s.rounds)[u] == R
    ensures Counters(|urls|, R, npara, NextProgress(s, urls, R, npara, ts).rounds)[u] == R
  {
    var n, us := |urls|, BatchUrls(urls, R, npara, s.rounds);
    var outcomes := OutcomesOf(s.rows, us, ts);
    OneMoreRound(n, R, npara, s.rounds, outcomes);
    RoundAt(Counters(n, R, npara, s.rounds), R, npara, outcomes, u);
  }

  /** A broken transfer is the last one of its feed in the cycle, whatever batches follow. */
  lemma BrokenIsLast(s: Progress, urls: seq<string>, R: nat, npara: nat, ts: seq<Transfer>, i: nat, u: nat,
                     s': Progress, later: seq<seq<Transfer>>, k: nat)
    requires npara >= 1 && ValidRun(|urls|, R, npara, s.rounds) && Due(s, urls, R, npara, ts)
    requires i < |ts| && ts[i].Broken? && u == Batch(|urls|, R, npara, s.rounds)[i]
    requires s' == NextProgress(s, urls, R, npara, ts) && Fits(s', urls, R, npara, later) && k <= |later|
    ensures u !in Batch(|urls|, R, npara, After(s', urls, R, npara, later, k).rounds)
  {
    SlotCounter(s, urls, R, npara, ts, i, u);
    GivenUpForGood(s', urls, R, npara, later, k, u);
  }

  /** A batch never lowers the unread count, and raises it exactly if some fetch brought a new entry. */
  lemma UnreadAfterRound(s: Progress, urls: seq<string>, R: nat, npara: nat, ts: seq<Transfer>)
    requires npara >= 1 && Different(urls) && ValidRun(|urls|, R, npara, s.rounds) && Due(s, urls, R, npara, ts)
    ensures var s' := NextProgress(s, urls, R, npara, ts);
      && |UnreadKeys(s'.rows)| >= |UnreadKeys(s.rows)|
      && (AnyNew(s'.rounds) <==> AnyNew(s.rounds) || |UnreadKeys(s'.rows)| > |UnreadKeys(s.rows)|)
  {
    var us := BatchUrls(urls, R, npara, s.rounds);
    var outcomes := OutcomesOf(s.rows, us, ts);
    OneMoreRound(|urls|, R, npara, s.rounds, outcomes);
    UnreadAfterBatch(s.rows, us, ts);
  }

  /** What `handle_urls` answers when the cycle, begun with the rows `v`, stands at `s`: -1 while some
      feed is not done with, and then whether the unread count rose over the cycle. */
  ghost function CycleAnswer(v: Rows, s: Progress, urls: seq<string>, R: nat, npara: nat): int
    requires npara >= 1 && ValidRun(|urls|, R, npara, s.rounds)
  {
    if !AllDone(|urls|, R, npara, s.rounds) then -1
    else if |UnreadKeys(s.rows)| > |UnreadKeys(v)| then 1 else 0
  }

  /** The answers to these batches, from `s` on. */
  ghost function CycleAnswers(v: Rows, s: Progress, urls: seq<string>, R: nat, npara: nat,
                              batches: seq<seq<Transfer>>): (answers: seq<int>)
    requires npara >= 1 && ValidRun(|urls|, R, npara, s.rounds) && Fits(s, urls, R, npara, batches)
    ensures |answers| == |batches|
    decreases |batches|
  {
    if batches == [] then []
    else
      var s' := NextProgress(s, urls, R, npara, batches[0]);
      [CycleAnswer(v, s', urls, R, npara)] + CycleAnswers(v, s', urls, R, npara, batches[1..])
  }

  /** The k-th answer depends on the first k + 1 batches. */
  lemma {:induction false} CycleAnswersAt(v: Rows, s: Progress, urls: seq<string>, R: nat, npara: nat,
                                          batches: seq<seq<Transfer>>, k: nat)
    requires npara >= 1 && ValidRun(|urls|, R, npara, s.rounds) && Fits(s, urls, R, npara, batches) && k < |batches|
    ensures CycleAnswers(v, s, urls, R, npara, batches)[k] ==
      CycleAnswer(v, After(s, urls, R, npara, batches, k + 1), urls, R, npara)
    decreases k
  {
    var s' := NextProgress(s, urls, R, npara, batches[0]);
    if k > 0 {
      CycleAnswersAt(v, s', urls, R, npara, batches[1..], k - 1);
    } else {
      assert After(s, urls, R, npara, batches, 1) == After(s', urls, R, npara, batches[1..], 0);
    }
  }

  /** The addresses of the batch in flight. */
  method InFlight(data: HttpData, urls: seq<string>, R: nat, npara: nat, ghost rounds: seq<seq<Outcome>>)
    returns (us: seq<string>)
    requires npara >= 1 && Standing(data, |urls|, R, npara, rounds) && data.active
    requires Batch(|urls|, R, npara, rounds) != []
    ensures us == BatchUrls(urls, R, npara, rounds)
  {
    BatchPositions(|urls|, R, npara, rounds);
    us := Addresses(data.ula, data.anp, urls, Batch(|urls|, R, npara, rounds));
  }

  method Addresses(ula: array<nat>, anp: nat, urls: seq<string>, ghost sel: seq<nat>) returns (us: seq<string>)
    requires anp <= ula.Length && ula[..anp] == sel && Positions(sel, |urls|)
    ensures |us| == |sel| && forall i :: 0 <= i < |sel| ==> us[i] == urls[sel[i]]
  {
    us := [];
    for i := 0 to anp
      invariant |us| == i && forall j :: 0 <= j < i ==> us[j] == urls[sel[j]]
    {
      assert ula[i] == ula[..anp][i] == sel[i];
      us := us + [urls[ula[i]]];
    }
  }

  /** The call of `handle_urls` that starts a cycle. */
  method StartCycle(data: HttpData, n: nat, R: nat, npara: nat)
    requires n >= 1 && npara >= 1 && Standing(data, n, R, npara, [])
    modifies data, data.ula, data.nHttpErr
    ensures data.ula == old(data.ula) || fresh(data.ula)
    ensures Standing(data, n, R, npara, []) && data.active
  {
    FirstBatch(n, R, npara);
    var answer := data.HandleUrls(false, [], [], n, R, npara, []);
  }

  /** One batch: its slots report in some order, each document goes to the cache, and `handle_urls`
      takes the outcomes. */
  method FinishBatchInCache(cache: Cache, data: HttpData, urls: seq<string>, R: nat, npara: nat, ghost s: Progress,
                            ts: seq<Transfer>, order: seq<nat>) returns (answer: int)
    requires cache.Valid() && |urls| >= 1 && npara >= 1 && Different(urls)
    requires Standing(data, |urls|, R, npara, s.rounds) && cache.Contents() == s.rows
    requires Due(s, urls, R, npara, ts) && IsOrder(order, |ts|) && data.active
    modifies cache, data, data.ula, data.nHttpErr
    ensures data.ula == old(data.ula) || fresh(data.ula)
    ensures var s' := NextProgress(s, urls, R, npara, ts);
      && cache.Valid() && cache.Contents() == s'.rows && Standing(data, |urls|, R, npara, s'.rounds)
      && answer == AnswerAfter(|urls|, R, npara, s'.rounds)
      && (Batch(|urls|, R, npara, s'.rounds) != [] ==> data.active)
  {
    var us := InFlight(data, urls, R, npara, s.rounds);
    var outcomes := DeliverBatch(cache, us, ts, order);
    answer := FinishRound(data, |urls|, R, npara, s.rounds, order, outcomes);
  }

  /** The scheduler and the cache stand at `s`, in a cycle begun with the rows `v`. */
  ghost predicate Reached(cache: Cache, data: HttpData, v: Rows, s: Progress, urls: seq<string>, R: nat, npara: nat)
    requires npara >= 1
    reads cache, data, data.ula, data.nHttpErr
  {
    && cache.Valid() && cache.Contents() == s.rows
    && Standing(data, |urls|, R, npara, s.rounds)
    && (Batch(|urls|, R, npara, s.rounds) != [] ==> data.active)
    && |UnreadKeys(s.rows)| >= |UnreadKeys(v)|
    && (AnyNew(s.rounds) <==> |UnreadKeys(s.rows)| > |UnreadKeys(v)|)
  }

  method FinishOne(cache: Cache, data: HttpData, ghost v: Rows, ghost s: Progress, urls: seq<string>, R: nat,
                   npara: nat, ts: seq<Transfer>, order: seq<nat>) returns (answer: int)
    requires |urls| >= 1 && npara >= 1 && Different(urls) && Reached(cache, data, v, s, urls, R, npara)
    requires Due(s, urls, R, npara, ts) && IsOrder(order, |ts|)
    modifies cache, data, data.ula, data.nHttpErr
    ensures data.ula == old(data.ula) || fresh(data.ula)
    ensures Reached(cache, data, v, NextProgress(s, urls, R, npara, ts), urls, R, npara)
    ensures answer == CycleAnswer(v, NextProgress(s, urls, R, npara, ts), urls, R, npara)
  {
    UnreadAfterRound(s, urls, R, npara, ts);
    answer := FinishBatchInCache(cache, data, urls, R, npara, s, ts, order);
  }

  /** A cycle over feeds with different addresses, from any rows of the cache: for every order in which
      the slots of each batch report, the cache ends with the same rows, and `handle_urls` answers -1
      until every feed is done with and then whether the unread count rose. */
  method RunCachedCycle(cache: Cache, urls: seq<string>, R: nat, npara: nat, batches: seq<seq<Transfer>>,
                        orders: seq<seq<nat>>) returns (answers: seq<int>)
    requires cache.Valid() && |urls| >= 1 && npara >= 1 && Different(urls)
    requires Fits(Progress([], cache.Contents()), urls, R, npara, batches)
    requires Ordered(orders, batches)
    modifies cache
    ensures cache.Valid()
    ensures cache.Contents() == After(Progress([], old(cache.Contents())), urls, R, npara, batches, |batches|).rows
    ensures answers == CycleAnswers(old(cache.Contents()), Progress([], old(cache.Contents())), urls, R, npara, batches)
  {
    var counters := new int[|urls|](_ => 0);
    var data := new HttpData(counters, R, npara);
    StartCycle(data, |urls|, R, npara);
    ghost var v := cache.Contents();
    ghost var s, final, all := PendingStart(v, urls, R, npara, batches);
    answers := RunBatches(cache, data, v, s, urls, R, npara, batches, orders, [], final, all);
  }

  /** The slots of every batch report in some order. */
  ghost predicate Ordered(orders: seq<seq<nat>>, batches: seq<seq<Transfer>>)
  {
    |orders| == |batches| && forall k :: 0 <= k < |batches| ==> IsOrder(orders[k], |batches[k]|)
  }

  /** The calls of `handle_urls` that finish these batches, one after the other. */
  method RunBatches(cache: Cache, data: HttpData, ghost v: Rows, ghost s: Progress, urls: seq<string>, R: nat,
                    npara: nat, batches: seq<seq<Transfer>>, orders: seq<seq<nat>>, before: seq<int>,
                    ghost final: Progress, ghost all: seq<int>) returns (answers: seq<int>)
    requires |urls| >= 1 && npara >= 1 && Different(urls) && Ordered(orders, batches)
    requires Reached(cache, data, v, s, urls, R, npara)
    requires Pending(v, s, urls, R, npara, batches, before, final, all)
    modifies cache, data, data.ula, data.nHttpErr
    ensures cache.Valid() && cache.Contents() == final.rows && answers == all
    decreases |batches|
  {
    if batches == [] {
      PendingEnd(v, s, urls, R, npara, batches, before, final, all);
      return before;
    }
    ghost var s';
    OrderedTail(orders, batches);
    answers, s' := FinishNext(cache, data, v, s, urls, R, npara, batches, orders[0], before, final, all);
    answers := RunBatches(cache, data, v, s', urls, R, npara, batches[1..], orders[1..], answers, final, all);
  }

  lemma OrderedTail(orders: seq<seq<nat>>, batches: seq<seq<Transfer>>)
    requires Ordered(orders, batches) && batches != []
    ensures IsOrder(orders[0], |batches[0]|) && Ordered(orders[1..], batches[1..])
  {
  }

  /** The first of these calls. */
  method FinishNext(cache: Cache, data: HttpData, ghost v: Rows, ghost s: Progress, urls: seq<string>, R: nat,
                    npara: nat, batches: seq<seq<Transfer>>, order: seq<nat>, before: seq<int>,
                    ghost final: Progress, ghost all: seq<int>) returns (answers: seq<int>, ghost s': Progress)
    requires |urls| >= 1 && npara >= 1 && Different(urls) && Reached(cache, data, v, s, urls, R, npara)
    requires batches != [] && IsOrder(order, |batches[0]|)
    requires Pending(v, s, urls, R, npara, batches, before, final, all)
    modifies cache, data, data.ula, data.nHttpErr
    ensures data.ula == old(data.ula) || fresh(data.ula)
    ensures ValidRun(|urls|, R, npara, s'.rounds) && Reached(cache, data, v, s', urls, R, npara)
    ensures Pending(v, s', urls, R, npara, batches[1..], answers, final, all)
  {
    NothingLost(v, s, urls, R, npara, batches, before, final, all);
    var answer := FinishOne(cache, data, v, s, urls, R, npara, batches[0], order);
    answers := before + [answer];
    s' := NextProgress(s, urls, R, npara, batches[0]);
  }

  lemma PendingStart(v: Rows, urls: seq<string>, R: nat, npara: nat, batches: seq<seq<Transfer>>)
    returns (s: Progress, final: Progress, all: seq<int>)
    requires npara >= 1 && Fits(Progress([], v), urls, R, npara, batches)
    ensures s == Progress([], v)
    ensures final == After(s, urls, R, npara, batches, |batches|) && all == CycleAnswers(v, s, urls, R, npara, batches)
    ensures Pending(v, s, urls, R, npara, batches, [], final, all)
  {
    s := Progress([], v);
    final, all := After(s, urls, R, npara, batches, |batches|), CycleAnswers(v, s, urls, R, npara, batches);
    assert [] + all == all;
  }

  lemma PendingEnd(v: Rows, s: Progress, urls: seq<string>, R: nat, npara: nat, rest: seq<seq<Transfer>>,
                   answers: seq<int>, final: Progress, all: seq<int>)
    requires npara >= 1 && rest == [] && Pending(v, s, urls, R, npara, rest, answers, final, all)
    ensures s == final && answers == all
  {
  }

  /** With `answers` given, the batches left lead to `final`, and to all answers. */
  ghost predicate Pending(v: Rows, s: Progress, urls: seq<string>, R: nat, npara: nat, rest: seq<seq<Transfer>>,
                          answers: seq<int>, final: Progress, all: seq<int>)
    requires npara >= 1
  {
    && ValidRun(|urls|, R, npara, s.rounds) && Fits(s, urls, R, npara, rest)
    && After(s, urls, R, npara, rest, |rest|) == final
    && answers + CycleAnswers(v, s, urls, R, npara, rest) == all
  }

  lemma NothingLost(v: Rows, s: Progress, urls: seq<string>, R: nat, npara: nat, rest: seq<seq<Transfer>>,
                    answers: seq<int>, final: Progress, all: seq<int>)
    requires npara >= 1 && rest != [] && Pending(v, s, urls, R, npara, rest, answers, final, all)
    ensures Due(s, urls, R, npara, rest[0])
    ensures var s' := NextProgress(s, urls, R, npara, rest[0]);
      Pending(v, s', urls, R, npara, rest[1..], answers + [CycleAnswer(v, s', urls, R, npara)], final, all)
  {
    FirstBatchOf(v, s, urls, R, npara, rest);
    var s' := NextProgress(s, urls, R, npara, rest[0]);
    Regroup(answers, CycleAnswer(v, s', urls, R, npara), CycleAnswers(v, s', urls, R, npara, rest[1..]));
  }

  lemma Regroup(a: seq<int>, x: int, b: seq<int>)
    ensures a + ([x] + b) == (a + [x]) + b
  {
  }

  lemma FirstBatchOf(v: Rows, s: Progress, urls: seq<string>, R: nat, npara: nat, rest: seq<seq<Transfer>>)
    requires npara >= 1 && rest != [] && ValidRun(|urls|, R, npara, s.rounds) && Fits(s, urls, R, npara, rest)
    ensures Due(s, urls, R, npara, rest[0])
    ensures var s' := NextProgress(s, urls, R, npara, rest[0]);
      && Fits(s', urls, R, npara, rest[1..])
      && After(s, urls, R, npara, rest, |rest|) == After(s', urls, R, npara, rest[1..], |rest| - 1)
      && CycleAnswers(v, s, urls, R, npara, rest) ==
         [CycleAnswer(v, s', urls, R, npara)] + CycleAnswers(v, s', urls, R, npara, rest[1..])
  {
  }
}
