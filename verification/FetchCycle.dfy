/**
  What whole refresh cycles do: the history of every feed, when a cycle ends, and how many rounds
  and fetches it takes.
*/
module FetchCycle {
  import opened FetchRounds

  function Max(a: nat, b: nat): (m: nat)
    ensures m >= a && m >= b && (m == a || m == b)
  {
    if a < b then b else a
  }

  // ---------------------------------------------------------------- the history of one feed

  /** The outcomes of a feed's fetches, in order. */
  ghost function UrlLog(n: nat, R: nat, npara: nat, rounds: seq<seq<Outcome>>, u: nat): seq<Outcome>
    requires ValidRun(n, R, npara, rounds)
    decreases |rounds|
  {
    if rounds == [] then []
    else
      var front, outcomes := rounds[..|rounds| - 1], rounds[|rounds| - 1];
      var sel := Batch(n, R, npara, front);
      UrlLog(n, R, npara, front, u) + if u in sel then [outcomes[PositionOf(sel, u)]] else []
  }

  /** The counter that a history leaves. */
  function CounterOf(log: seq<Outcome>, R: nat): int
  {
    if log == [] then 0 else AfterOutcome(CounterOf(log[..|log| - 1], R), R, log[|log| - 1])
  }

  /** Every fetch but the first was a retry of an eligible feed. */
  ghost predicate Legal(log: seq<Outcome>, R: nat)
  {
    forall k :: 1 <= k < |log| ==> 0 < CounterOf(log[..k], R) < R
  }

  predicate Soft(o: Outcome) { o.TimedOut? || o.ParseFailed? }

  function SoftFailures(log: seq<Outcome>): nat
  {
    if log == [] then 0 else SoftFailures(log[..|log| - 1]) + if Soft(log[|log| - 1]) then 1 else 0
  }

  /** Fetches after the first that succeeded. */
  function SuccessfulRetries(log: seq<Outcome>): nat
  {
    if |log| <= 1 then 0 else SuccessfulRetries(log[..|log| - 1]) + if log[|log| - 1].Finished? then 1 else 0
  }

  function RetryPlaces(log: seq<Outcome>): set<nat>
  {
    set k: nat | 1 <= k < |log| && log[k].Finished?
  }

  function SoftPlaces(log: seq<Outcome>): set<nat>
  {
    set k: nat | k < |log| && (log[k].TimedOut? || log[k].ParseFailed?)
  }

  /** The successful retries are counted by their places in the history. */
  lemma {:induction false} RetriesByPlace(log: seq<Outcome>)
    ensures SuccessfulRetries(log) == |RetryPlaces(log)|
  {
    if log == [] {
      assert RetryPlaces(log) == {};
    } else {
      var n: nat, front := |log| - 1, log[..|log| - 1];
      RetriesByPlace(front);
      assert RetryPlaces(log) == RetryPlaces(front) + if n >= 1 && log[n].Finished? then {n} else {};
    }
  }

  /** So are timeouts and parse failures, together. */
  lemma {:induction false} SoftFailuresByPlace(log: seq<Outcome>)
    ensures SoftFailures(log) == |SoftPlaces(log)|
  {
    if log == [] {
      assert SoftPlaces(log) == {};
    } else {
      var n: nat, front := |log| - 1, log[..|log| - 1];
      SoftFailuresByPlace(front);
      assert SoftPlaces(log) == SoftPlaces(front) + if log[n].TimedOut? || log[n].ParseFailed? then {n} else {};
    }
  }

  /** A counter that is explained by a legal history. */
  ghost predicate Explains(log: seq<Outcome>, c: int, R: nat)
  {
    Legal(log, R) && c == if log == [] then -1 else CounterOf(log, R)
  }

  /** In every run the counter of a feed is a function of its own history, and that history is
      legal: what the other feeds do and how the batches fall does not matter. */
  lemma {:induction false} CounterIsHistory(n: nat, R: nat, npara: nat, rounds: seq<seq<Outcome>>, u: nat)
    requires npara >= 1 && ValidRun(n, R, npara, rounds) && u < n
    ensures Explains(UrlLog(n, R, npara, rounds, u), Counters(n, R, npara, rounds)[u], R)
    decreases |rounds|
  {
    if rounds != [] {
      var front := rounds[..|rounds| - 1];
      CounterIsHistory(n, R, npara, front, u);
      LastRoundAt(n, R, npara, rounds, u);
      var sel := Batch(n, R, npara, front);
      if u in sel {
        HistoryMore(UrlLog(n, R, npara, front, u), Counters(n, R, npara, front)[u], R,
                    rounds[|rounds| - 1][PositionOf(sel, u)]);
      }
    }
  }

  lemma LastRound(n: nat, R: nat, npara: nat, rounds: seq<seq<Outcome>>)
    requires ValidRun(n, R, npara, rounds) && rounds != []
    ensures var front, outcomes := rounds[..|rounds| - 1], rounds[|rounds| - 1];
      && ValidRun(n, R, npara, front)
      && Selected(Counters(n, R, npara, front), R, npara) != []
      && |outcomes| == |Selected(Counters(n, R, npara, front), R, npara)|
      && Counters(n, R, npara, rounds) == Round(Counters(n, R, npara, front), R, npara, outcomes)
  {
  }

  lemma LastRoundAt(n: nat, R: nat, npara: nat, rounds: seq<seq<Outcome>>, u: nat)
    requires npara >= 1 && ValidRun(n, R, npara, rounds) && u < n && rounds != []
    ensures var front, outcomes := rounds[..|rounds| - 1], rounds[|rounds| - 1];
      var sel, c := Batch(n, R, npara, front), Counters(n, R, npara, front)[u];
      && |outcomes| == |sel|
      && (u in sel ==>
            && Eligible(c, R)
            && Counters(n, R, npara, rounds)[u] ==
               AfterOutcome(if c < 0 then 0 else c, R, outcomes[PositionOf(sel, u)])
            && UrlLog(n, R, npara, rounds, u) == UrlLog(n, R, npara, front, u) + [outcomes[PositionOf(sel, u)]])
      && (u !in sel ==>
            && Counters(n, R, npara, rounds)[u] == c
            && UrlLog(n, R, npara, rounds, u) == UrlLog(n, R, npara, front, u))
  {
    RoundAt(Counters(n, R, npara, rounds[..|rounds| - 1]), R, npara, rounds[|rounds| - 1], u);
  }

  lemma HistoryMore(log: seq<Outcome>, c: int, R: nat, o: Outcome)
    requires Explains(log, c, R) && Eligible(c, R)
    ensures Explains(log + [o], AfterOutcome(if c < 0 then 0 else c, R, o), R)
  {
    CounterNotNegative(log, R);
    LegalMore(log, R, o);
  }

  /** What a round does to one counter. */
  lemma RoundAt(ns: seq<int>, R: nat, npara: nat, outcomes: seq<Outcome>, u: nat)
    requires npara >= 1 && |outcomes| == |Selected(ns, R, npara)| && u < |ns|
    ensures var sel := Selected(ns, R, npara);
      && (u in sel ==> Eligible(ns[u], R))
      && Round(ns, R, npara, outcomes)[u] ==
         if u in sel then AfterOutcome(if ns[u] < 0 then 0 else ns[u], R, outcomes[PositionOf(sel, u)]) else ns[u]
  {
    SelectedEligible(ns, R, npara);
    var sel := Selected(ns, R, npara);
    assert Loaded(ns, sel)[u] == if u in sel && ns[u] < 0 then 0 else ns[u];
  }

  lemma {:induction false} CounterNotNegative(log: seq<Outcome>, R: nat)
    ensures CounterOf(log, R) >= 0
  {
    if log != [] {
      CounterNotNegative(log[..|log| - 1], R);
    }
  }

  lemma LegalMore(log: seq<Outcome>, R: nat, o: Outcome)
    requires Legal(log, R) && (log != [] ==> 0 < CounterOf(log, R) < R)
    ensures Legal(log + [o], R) && CounterOf(log + [o], R) == AfterOutcome(CounterOf(log, R), R, o)
  {
    var more := log + [o];
    assert more[..|log|] == log;
    forall k | 1 <= k < |more| ensures 0 < CounterOf(more[..k], R) < R {
      assert more[..k] == log[..k];
      assert k == |log| ==> log[..k] == log;
    }
  }

  lemma LegalFront(log: seq<Outcome>, R: nat)
    requires Legal(log, R) && log != []
    ensures Legal(log[..|log| - 1], R)
    ensures |log| > 1 ==> 0 < CounterOf(log[..|log| - 1], R) < R
  {
    var front := log[..|log| - 1];
    forall k | 1 <= k < |front| ensures 0 < CounterOf(front[..k], R) < R {
      assert front[..k] == log[..k];
    }
  }

  /** Without a hard error the counter counts soft failures; a hard error makes it R and is the
      last fetch of the feed; the counter never exceeds R if R >= 1, so a feed fails softly at most
      R times. */
  lemma {:induction false} CounterCountsFailures(log: seq<Outcome>, R: nat)
    requires Legal(log, R)
    ensures CounterOf(log, R) == if OtherError in log then R else SoftFailures(log)
    ensures forall k :: 0 <= k < |log| - 1 ==> log[k] != OtherError
    ensures 0 <= CounterOf(log, R) <= Max(R, 1) && SoftFailures(log) <= Max(R, 1)
    decreases |log|
  {
    if log != [] {
      var front, last := log[..|log| - 1], log[|log| - 1];
      LegalFront(log, R);
      CounterCountsFailures(front, R);
      assert log == front + [last];
      assert OtherError !in front;
    }
  }

  /** A feed is fetched no more than max(R,1) times plus its successful retries; with R <= 1 it is
      fetched at most once. */
  lemma {:induction false} FetchesBounded(log: seq<Outcome>, R: nat)
    requires Legal(log, R)
    ensures |log| + (if log != [] then Weight(CounterOf(log, R), R) else Max(R, 1))
         <= Max(R, 1) + SuccessfulRetries(log)
    ensures R <= 1 ==> |log| <= 1
    decreases |log|
  {
    if |log| > 1 {
      LegalFront(log, R);
      FetchesBounded(log[..|log| - 1], R);
      CounterNotNegative(log[..|log| - 1], R);
    } else if |log| == 1 {
      assert log[..0] == [];
    }
  }

  /** The feed was tried and will not be fetched again in this cycle. */
  ghost predicate DoneWith(log: seq<Outcome>, R: nat) { log != [] && !Eligible(CounterOf(log, R), R) }

  /** When a feed that was tried is done with: its first fetch succeeded, its last one failed hard,
      or it failed softly R times. */
  lemma DoneExactlyWhen(log: seq<Outcome>, R: nat)
    requires Legal(log, R) && log != []
    ensures DoneWith(log, R) <==>
      || (|log| == 1 && log[0].Finished?)
      || log[|log| - 1] == OtherError
      || (SoftFailures(log) >= 1 && SoftFailures(log) >= R)
  {
    CounterCountsFailures(log, R);
    LegalFront(log, R);
    CounterCountsFailures(log[..|log| - 1], R);
    if OtherError in log {
      var k :| 0 <= k < |log| && log[k] == OtherError;
      assert k == |log| - 1;
    }
  }

  /** Every feed was tried and none will be fetched again. */
  ghost predicate AllDone(n: nat, R: nat, npara: nat, rounds: seq<seq<Outcome>>)
    requires ValidRun(n, R, npara, rounds)
  {
    forall u :: 0 <= u < n ==> DoneWith(UrlLog(n, R, npara, rounds, u), R)
  }

  /** A cycle ends exactly when every feed was tried and is done with. */
  lemma CycleOverExactlyWhen(n: nat, R: nat, npara: nat, rounds: seq<seq<Outcome>>)
    requires npara >= 1 && ValidRun(n, R, npara, rounds)
    ensures Batch(n, R, npara, rounds) == [] <==> AllDone(n, R, npara, rounds)
  {
    var ns := Counters(n, R, npara, rounds);
    SelectedEligible(ns, R, npara);
    forall u | 0 <= u < n
      ensures !Eligible(ns[u], R) <==> DoneWith(UrlLog(n, R, npara, rounds, u), R)
    {
      CounterIsHistory(n, R, npara, rounds, u);
    }
    assert Batch(n, R, npara, rounds) == [] <==> forall u :: 0 <= u < n ==> !Eligible(ns[u], R);
    if Batch(n, R, npara, rounds) != [] {
      var u: nat :| u < n && Eligible(ns[u], R);
      assert !DoneWith(UrlLog(n, R, npara, rounds, u), R);
    }
  }

  // ---------------------------------------------------------------- the measure

  /** How much work a feed can still cause, not counting successful retries. */
  function Weight(c: int, R: nat): nat
  {
    if c < 0 then Max(R, 1) else if c == 0 || c >= R then 0 else R - c
  }

  function Sum(xs: seq<nat>): nat { if xs == [] then 0 else Sum(xs[..|xs| - 1]) + xs[|xs| - 1] }

  function Weights(ns: seq<int>, R: nat): seq<nat>
  {
    seq(|ns|, u requires 0 <= u < |ns| => Weight(ns[u], R))
  }

  function Measure(ns: seq<int>, R: nat): nat { Sum(Weights(ns, R)) }

  /** 1 for a feed whose fetch in this round was not a successful retry. */
  function Charge(ns: seq<int>, sel: seq<nat>, outcomes: seq<Outcome>, u: nat): nat
    requires |outcomes| == |sel| && u < |ns|
  {
    if u in sel && !(ns[u] > 0 && outcomes[PositionOf(sel, u)].Finished?) then 1 else 0
  }

  function Charges(ns: seq<int>, sel: seq<nat>, outcomes: seq<Outcome>): seq<nat>
    requires |outcomes| == |sel|
  {
    seq(|ns|, u requires 0 <= u < |ns| => Charge(ns, sel, outcomes, u))
  }

  lemma {:induction false} SumAtMost(a: seq<nat>, c: seq<nat>, b: seq<nat>)
    requires |a| == |b| == |c| && forall u :: 0 <= u < |a| ==> a[u] + c[u] <= b[u]
    ensures Sum(a) + Sum(c) <= Sum(b)
  {
    if a != [] {
      var n := |a| - 1;
      SumAtMost(a[..n], c[..n], b[..n]);
    }
  }

  lemma {:induction false} SumOfBits(bits: seq<nat>, ones: set<nat>)
    requires forall u :: 0 <= u < |bits| ==> bits[u] <= 1
    requires forall u: nat :: u in ones <==> u < |bits| && bits[u] == 1
    ensures Sum(bits) == |ones|
  {
    if bits == [] {
      assert ones == {};
    } else {
      var n: nat := |bits| - 1;
      SumOfBits(bits[..n], ones - {n});
    }
  }

  /** No round increases the measure, and every fetch except a successful retry lowers it: `lowered` are
      the feeds fetched otherwise. */
  lemma RoundLowersMeasure(ns: seq<int>, R: nat, npara: nat, outcomes: seq<Outcome>, lowered: set<nat>)
    requires npara >= 1 && |outcomes| == |Selected(ns, R, npara)|
    requires var sel := Selected(ns, R, npara); forall u: nat :: u in lowered <==>
      u < |ns| && u in sel && !(ns[u] > 0 && outcomes[PositionOf(sel, u)].Finished?)
    ensures Measure(Round(ns, R, npara, outcomes), R) + |lowered| <= Measure(ns, R)
  {
    MeasureFalls(ns, R, npara, outcomes);
    SumOfBits(Charges(ns, Selected(ns, R, npara), outcomes), lowered);
  }

  lemma MeasureFalls(ns: seq<int>, R: nat, npara: nat, outcomes: seq<Outcome>)
    requires npara >= 1 && |outcomes| == |Selected(ns, R, npara)|
    ensures Measure(Round(ns, R, npara, outcomes), R) + Sum(Charges(ns, Selected(ns, R, npara), outcomes))
         <= Measure(ns, R)
  {
    var sel, after := Selected(ns, R, npara), Round(ns, R, npara, outcomes);
    forall u | 0 <= u < |ns| ensures Weight(after[u], R) + Charge(ns, sel, outcomes, u) <= Weight(ns[u], R) {
      RoundAt(ns, R, npara, outcomes, u);
    }
    SumAtMost(Weights(after, R), Charges(ns, sel, outcomes), Weights(ns, R));
  }

  /** Feed by feed: the weight never rises, and falls unless the fetch was a successful retry. */
  lemma RoundLowersWeight(ns: seq<int>, R: nat, npara: nat, outcomes: seq<Outcome>, i: nat, u: nat)
    requires npara >= 1 && |outcomes| == |Selected(ns, R, npara)| && u < |ns|
    requires i < |outcomes| && Selected(ns, R, npara)[i] == u
    ensures Weight(ns[u], R) == if ns[u] < 0 then Max(R, 1) else R - ns[u]
    ensures var after := Round(ns, R, npara, outcomes)[u];
      if ns[u] > 0 && outcomes[i].Finished? then after == ns[u] else Weight(after, R) < Weight(ns[u], R)
  {
    SelectedExact(ns, R, npara);
    var sel := Selected(ns, R, npara);
    assert sel[i] in sel;
    var j := PositionOf(sel, u);
    assert j < i || j == i || j > i;
    RoundAt(ns, R, npara, outcomes, u);
  }

  ghost function FetchCounts(n: nat, R: nat, npara: nat, rounds: seq<seq<Outcome>>): (counts: seq<nat>)
    requires ValidRun(n, R, npara, rounds)
    ensures |counts| == n
    ensures forall u :: 0 <= u < n ==> counts[u] == |UrlLog(n, R, npara, rounds, u)|
  {
    seq(n, u requires 0 <= u < n => |UrlLog(n, R, npara, rounds, u)|)
  }

  ghost function RetryCounts(n: nat, R: nat, npara: nat, rounds: seq<seq<Outcome>>): (counts: seq<nat>)
    requires ValidRun(n, R, npara, rounds)
    ensures |counts| == n
    ensures forall u :: 0 <= u < n ==> counts[u] == SuccessfulRetries(UrlLog(n, R, npara, rounds, u))
  {
    seq(n, u requires 0 <= u < n => SuccessfulRetries(UrlLog(n, R, npara, rounds, u)))
  }

  /** The number of fetches of a run. */
  ghost function Fetches(n: nat, R: nat, npara: nat, rounds: seq<seq<Outcome>>): nat
    requires ValidRun(n, R, npara, rounds)
  {
    Sum(FetchCounts(n, R, npara, rounds))
  }

  /** The number of successful retries of a run. */
  ghost function Retries(n: nat, R: nat, npara: nat, rounds: seq<seq<Outcome>>): nat
    requires ValidRun(n, R, npara, rounds)
  {
    Sum(RetryCounts(n, R, npara, rounds))
  }

  lemma {:induction false} SumConstant(n: nat, c: nat)
    ensures Sum(seq(n, _ => c)) == n * c
  {
    if n > 0 {
      SumConstant(n - 1, c);
      assert seq(n, _ => c)[..n - 1] == seq(n - 1, _ => c);
    }
  }

  /** Every run is paid for by its failures and successful retries. */
  lemma FetchesAreBounded(n: nat, R: nat, npara: nat, rounds: seq<seq<Outcome>>)
    requires npara >= 1 && ValidRun(n, R, npara, rounds)
    ensures |rounds| <= Fetches(n, R, npara, rounds) <= n * Max(R, 1) + Retries(n, R, npara, rounds)
  {
    RoundsAtMostFetches(n, R, npara, rounds);
    var lengths, retries := FetchCounts(n, R, npara, rounds), RetryCounts(n, R, npara, rounds);
    var budget := seq(n, _ => Max(R, 1));
    forall u | 0 <= u < n ensures lengths[u] <= budget[u] + retries[u] {
      CounterIsHistory(n, R, npara, rounds, u);
      FetchesBounded(UrlLog(n, R, npara, rounds, u), R);
    }
    SumOfTwo(lengths, budget, retries);
    SumConstant(n, Max(R, 1));
  }

  lemma {:induction false} SumOfTwo(a: seq<nat>, b: seq<nat>, c: seq<nat>)
    requires |a| == |b| == |c| && forall u :: 0 <= u < |a| ==> a[u] <= b[u] + c[u]
    ensures Sum(a) <= Sum(b) + Sum(c)
  {
    if a != [] {
      var n := |a| - 1;
      SumOfTwo(a[..n], b[..n], c[..n]);
    }
  }

  lemma {:induction false} SumGrows(a: seq<nat>, b: seq<nat>, u: nat)
    requires |a| == |b| && u < |a| && a[u] < b[u] && forall i :: 0 <= i < |a| ==> a[i] <= b[i]
    ensures Sum(a) < Sum(b)
  {
    var n := |a| - 1;
    if u < n {
      SumGrows(a[..n], b[..n], u);
    } else {
      SumOfTwo(a[..n], b[..n], seq(n, _ => 0));
      SumConstant(n, 0);
    }
  }

  lemma {:induction false} RoundsAtMostFetches(n: nat, R: nat, npara: nat, rounds: seq<seq<Outcome>>)
    requires npara >= 1 && ValidRun(n, R, npara, rounds)
    ensures |rounds| <= Fetches(n, R, npara, rounds)
    decreases |rounds|
  {
    if rounds != [] {
      var front := rounds[..|rounds| - 1];
      RoundsAtMostFetches(n, R, npara, front);
      var sel := Batch(n, R, npara, front);
      SelectedEligible(Counters(n, R, npara, front), R, npara);
      assert sel[0] in sel;
      forall u | 0 <= u < n
        ensures |UrlLog(n, R, npara, rounds, u)| == |UrlLog(n, R, npara, front, u)| + if u in sel then 1 else 0
      {
      }
      SumGrows(FetchCounts(n, R, npara, front), FetchCounts(n, R, npara, rounds), sel[0]);
    }
  }

  // ---------------------------------------------------------------- one attempt per feed

  /** The first `tried` feeds are done with, the others untried. */
  ghost predicate TriedInListOrder(ns: seq<int>, R: nat, tried: nat)
  {
    forall u :: 0 <= u < |ns| ==> TriedAt(ns[u], R, u < tried)
  }

  ghost predicate TriedAt(c: int, R: nat, tried: bool) { if tried then !Eligible(c, R) else c == -1 }

  /** The number of feeds that k full batches take. */
  function Taken(k: nat, npara: nat): nat { if k == 0 then 0 else Taken(k - 1, npara) + npara }

  lemma {:induction false} TakenIs(k: nat, npara: nat)
    ensures Taken(k, npara) == k * npara
  {
    if k > 0 {
      TakenIs(k - 1, npara);
    }
  }

  /** With R <= 1 the rounds take the feeds in list order, npara at a time. */
  lemma {:induction false} OneAttemptInListOrder(n: nat, R: nat, npara: nat, rounds: seq<seq<Outcome>>)
    requires npara >= 1 && R <= 1 && ValidRun(n, R, npara, rounds)
    ensures TriedInListOrder(Counters(n, R, npara, rounds), R, Taken(|rounds|, npara))
    ensures rounds != [] ==> Taken(|rounds| - 1, npara) < n
    decreases |rounds|
  {
    if rounds == [] {
      NothingTried(n, R);
    } else {
      var front, k: nat := rounds[..|rounds| - 1], |rounds| - 1;
      LastRound(n, R, npara, rounds);
      OneAttemptInListOrder(n, R, npara, front);
      assert |front| == k;
      AttemptLast(n, R, npara, rounds, k);
    }
  }

  lemma NothingTried(n: nat, R: nat)
    ensures TriedInListOrder(Untried(n), R, 0)
  {
  }

  lemma AttemptLast(n: nat, R: nat, npara: nat, rounds: seq<seq<Outcome>>, k: nat)
    requires npara >= 1 && R <= 1 && ValidRun(n, R, npara, rounds) && |rounds| == k + 1
    requires TriedInListOrder(Counters(n, R, npara, rounds[..|rounds| - 1]), R, Taken(k, npara))
    ensures TriedInListOrder(Counters(n, R, npara, rounds), R, Taken(k + 1, npara))
    ensures Taken(k, npara) < n
  {
    LastRound(n, R, npara, rounds);
    var front, outcomes := rounds[..|rounds| - 1], rounds[|rounds| - 1];
    AttemptNext(Counters(n, R, npara, front), R, npara, Taken(k, npara), outcomes);
  }

  lemma AttemptNext(ns: seq<int>, R: nat, npara: nat, tried: nat, outcomes: seq<Outcome>)
    requires npara >= 1 && R <= 1 && TriedInListOrder(ns, R, tried)
    requires |outcomes| == |Selected(ns, R, npara)|
    ensures TriedInListOrder(Round(ns, R, npara, outcomes), R, tried + npara)
    ensures Selected(ns, R, npara) != [] <==> tried < |ns|
  {
    NextInListOrder(ns, R, npara, tried);
    var after := Round(ns, R, npara, outcomes);
    forall u | 0 <= u < |ns| ensures TriedAt(after[u], R, u < tried + npara) {
      RoundAt(ns, R, npara, outcomes, u);
      assert TriedAt(ns[u], R, u < tried);
    }
    if Selected(ns, R, npara) != [] {
      assert Selected(ns, R, npara)[0] in Selected(ns, R, npara);
    }
    if tried < |ns| {
      assert tried in Selected(ns, R, npara);
    }
  }

  lemma NextInListOrder(ns: seq<int>, R: nat, npara: nat, tried: nat)
    requires npara >= 1 && TriedInListOrder(ns, R, tried)
    ensures forall u :: u in Selected(ns, R, npara) <==> tried <= u < tried + npara && u < |ns|
  {
    var from := if tried <= |ns| then tried else |ns|;
    AllEligibleFrom(ns, R, 0, from);
    var all, sel := EligibleFrom(ns, R, 0), Selected(ns, R, npara);
    assert forall k :: 0 <= k < |sel| ==> sel[k] == from + k;
    assert |sel| == if |ns| - from <= npara then |ns| - from else npara;
    forall u | tried <= u < tried + npara && u < |ns| ensures u in sel {
      assert sel[u - from] == u;
    }
  }

  lemma {:induction false} AllEligibleFrom(ns: seq<int>, R: nat, i: nat, from: nat)
    requires i <= |ns| && from <= |ns|
    requires forall u :: 0 <= u < |ns| ==> (Eligible(ns[u], R) <==> from <= u)
    ensures var all, first := EligibleFrom(ns, R, i), if i < from then from else i;
      |all| == |ns| - first && forall k :: 0 <= k < |all| ==> all[k] == first + k
    decreases |ns| - i
  {
    if i < |ns| {
      AllEligibleFrom(ns, R, i + 1, from);
    }
  }

  /** With R <= 1 a cycle takes ceil(n / npara) rounds and fetches every feed exactly once. */
  lemma OnceEach(n: nat, R: nat, npara: nat, rounds: seq<seq<Outcome>>)
    requires npara >= 1 && R <= 1 && ValidRun(n, R, npara, rounds)
    ensures |rounds| <= (n + npara - 1) / npara
    ensures Batch(n, R, npara, rounds) == [] <==> |rounds| == (n + npara - 1) / npara
    ensures Batch(n, R, npara, rounds) == [] ==>
      forall u :: 0 <= u < n ==> |UrlLog(n, R, npara, rounds, u)| == 1
  {
    OneAttemptInListOrder(n, R, npara, rounds);
    var outcomes := seq(|Batch(n, R, npara, rounds)|, _ => TimedOut);
    AttemptNext(Counters(n, R, npara, rounds), R, npara, Taken(|rounds|, npara), outcomes);
    CeilingIs(n, npara, |rounds|);
    if Batch(n, R, npara, rounds) == [] {
      CycleOverExactlyWhen(n, R, npara, rounds);
      forall u | 0 <= u < n ensures |UrlLog(n, R, npara, rounds, u)| == 1 {
        CounterIsHistory(n, R, npara, rounds, u);
        assert DoneWith(UrlLog(n, R, npara, rounds, u), R);
        FetchesBounded(UrlLog(n, R, npara, rounds, u), R);
      }
    }
  }

  lemma CeilingIs(n: nat, p: nat, k: nat)
    requires p >= 1 && (k > 0 ==> Taken(k - 1, p) < n)
    ensures k <= (n + p - 1) / p
    ensures Taken(k, p) >= n <==> k == (n + p - 1) / p
  {
    var q := (n + p - 1) / p;
    TakenIs(q, p);
    assert q * p <= n + p - 1 < q * p + p;
    if k > 0 {
      TakenMonotone(q, k - 1, p);
    }
    TakenMonotone(q, k, p);
    TakenMonotone(k, q, p);
    TakenMonotone(k + 1, q, p);
  }

  lemma {:induction false} TakenMonotone(a: nat, b: nat, p: nat)
    ensures a <= b ==> Taken(a, p) <= Taken(b, p)
  {
    if a < b {
      TakenMonotone(a, b - 1, p);
    }
  }

  // ---------------------------------------------------------------- endless cycles

  /** The first round times out everywhere, every later fetch succeeds. */
  lemma {:induction false} EndlessRun(n: nat, R: nat, npara: nat, length: nat) returns (rounds: seq<seq<Outcome>>)
    requires n >= 1 && npara >= 1 && R >= 2
    ensures ValidRun(n, R, npara, rounds) && |rounds| == length
    ensures Counters(n, R, npara, rounds)[0] == if length == 0 then -1 else 1
  {
    if length == 0 {
      rounds := [];
    } else {
      var front := EndlessRun(n, R, npara, length - 1);
      var ns, sel := Counters(n, R, npara, front), Batch(n, R, npara, front);
      FirstIsTaken(ns, R, npara);
      var o := if length == 1 then TimedOut else Finished(false);
      var outcomes := seq(|sel|, _ => o);
      OneMoreRound(n, R, npara, front, outcomes);
      RoundAt(ns, R, npara, outcomes, 0);
      rounds := front + [outcomes];
    }
  }

  lemma FirstIsTaken(ns: seq<int>, R: nat, npara: nat)
    requires npara >= 1 && |ns| > 0 && Eligible(ns[0], R)
    ensures 0 in Selected(ns, R, npara)
  {
    assert EligibleFrom(ns, R, 0)[0] == 0;
    assert Selected(ns, R, npara)[0] == 0;
  }

  ghost predicate EndsWithin(n: nat, R: nat, npara: nat, bound: nat)
  {
    forall rounds :: ValidRun(n, R, npara, rounds) ==> |rounds| <= bound
  }

  /** Every cycle ends, whatever the outcomes. */
  ghost predicate AlwaysEnds(n: nat, R: nat, npara: nat)
  {
    exists bound: nat :: EndsWithin(n, R, npara, bound)
  }

  /** A cycle is certain to end exactly if `dl_retries` is at most 1: a successful retry does not
      reset the counter, so from 2 on a feed that failed once can be fetched for ever. */
  lemma EndsExactlyWhen(n: nat, R: nat, npara: nat)
    requires n >= 1 && npara >= 1
    ensures AlwaysEnds(n, R, npara) <==> R <= 1
  {
    if R <= 1 {
      var bound: nat := (n + npara - 1) / npara;
      forall rounds | ValidRun(n, R, npara, rounds) ensures |rounds| <= bound {
        OnceEach(n, R, npara, rounds);
      }
      assert EndsWithin(n, R, npara, bound);
    } else {
      forall bound: nat ensures !EndsWithin(n, R, npara, bound) {
        var rounds := EndlessRun(n, R, npara, bound + 1);
      }
    }
  }
}
