/**
  The batch scheduler of src/httpfetch.c: the URL list's counters are an array, in list order, and
  a batch is a prefix of `ula`.  A `CURL *` is the number of its slot in `ce`.
*/
module FetchScheduler {
  import opened FetchRounds

  const DEFAULT_PARA: nat := 5

  // ---------------------------------------------------------------- the code

  class HttpData {
    const nHttpErr: array<int>
    const dlRetries: nat
    const parallelReload: int
    var npara: nat
    var ula: array<nat>
    var anp: nat
    var newEntry: bool
    var active: bool                     // data->cm != NULL
    ghost var rounds: seq<seq<Outcome>>  // the rounds finished in this cycle

    constructor (nHttpErr: array<int>, dlRetries: nat, parallelReload: int)
      ensures this.nHttpErr == nHttpErr && this.dlRetries == dlRetries && this.parallelReload == parallelReload
      ensures !active && fresh(ula) && (parallelReload >= 1 ==> Valid())
    {
      this.nHttpErr, this.dlRetries, this.parallelReload := nHttpErr, dlRetries, parallelReload;
      npara, anp, newEntry, active := 0, 0, false, false;
      ula := new nat[0];
      rounds := [];
    }

    /** Between calls of `handle_urls` a cycle is over or the batch behind `rounds` is in flight. */
    ghost predicate Valid()
      reads this, ula, nHttpErr
    {
      && parallelReload >= 1
      && (active ==>
            && npara == parallelReload && ula.Length == npara && 0 < anp <= npara
            && ValidRun(nHttpErr.Length, dlRetries, npara, rounds)
            && ula[..anp] == Batch(nHttpErr.Length, dlRetries, npara, rounds)
            && nHttpErr[..] == Loaded(Counters(nHttpErr.Length, dlRetries, npara, rounds), ula[..anp])
            && newEntry == AnyNew(rounds))
    }

    /** `http_fetch_init`: every feed is untried.  Without a positive setting there is room for five
        transfers, and `npara` stays what it was. */
    method FetchInit()
      modifies this, nHttpErr
      ensures active && npara == (if parallelReload > 0 then parallelReload else old(npara))
      ensures anp == 0 && !newEntry && rounds == []
      ensures fresh(ula) && ula.Length == if parallelReload > 0 then parallelReload else 5
      ensures nHttpErr[..] == Untried(nHttpErr.Length)
    {
      var room := DEFAULT_PARA;
      if parallelReload > 0 {
        npara := parallelReload;
        room := npara;
      }
      active := true;
      ula := new nat[room];
      var i := 0;
      while i < nHttpErr.Length
        modifies nHttpErr
        invariant i <= nHttpErr.Length
        invariant forall j :: 0 <= j < i ==> nHttpErr[j] == -1
      {
        nHttpErr[i] := -1;
        i := i + 1;
      }
      anp := 0;
      newEntry := false;
      rounds := [];
    }

    /** `load_new_handles`: the next batch, or the end of the cycle if nothing is eligible. */
    method LoadNewHandles()
      requires active && npara >= 1 && ula.Length == npara
      modifies this`anp, this`active, ula, nHttpErr
      ensures anp == |Selected(old(nHttpErr[..]), dlRetries, npara)| && active == (anp > 0)
      ensures ula[..anp] == Selected(old(nHttpErr[..]), dlRetries, npara)
      ensures nHttpErr[..] == Loaded(old(nHttpErr[..]), Selected(old(nHttpErr[..]), dlRetries, npara))
    {
      ghost var ns := nHttpErr[..];
      var tul := 0;
      anp := 0;
      while anp < npara && tul < nHttpErr.Length
        invariant active && anp <= npara && tul <= nHttpErr.Length
        invariant Chosen(ns, dlRetries, ula[..anp], tul, nHttpErr[..])
        decreases nHttpErr.Length - tul
      {
        var ended;
        tul, ended := LoadOneHandle(tul, ns, ula[..anp]);
        if ended {
          break;
        }
      }
      ChosenEnds(ns, dlRetries, ula[..anp], tul, nHttpErr[..], npara);
      if anp == 0 {
        active := false;
      }
    }

    /** One turn of that loop. */
    method LoadOneHandle(from: nat, ghost ns: seq<int>, ghost sel: seq<nat>) returns (tul: nat, ended: bool)
      requires anp < ula.Length && sel == ula[..anp]
      requires from < nHttpErr.Length == |ns| && Chosen(ns, dlRetries, sel, from, nHttpErr[..])
      modifies this`anp, ula, nHttpErr
      ensures from <= tul <= |ns|
      ensures if ended then tul == |ns| && anp == old(anp) else from < tul && anp == old(anp) + 1
      ensures anp <= ula.Length && Chosen(ns, dlRetries, ula[..anp], tul, nHttpErr[..])
    {
      ghost var cur := nHttpErr[..];
      tul := Advance(from);
      ChosenStep(ns, dlRetries, sel, from, tul, cur, nHttpErr[..]);
      if tul == nHttpErr.Length {
        return tul, true;
      }
      ula[anp] := tul;
      tul := tul + 1;
      anp := anp + 1;
      assert ula[..anp] == sel + [tul - 1];
      return tul, false;
    }

    /** The branch on the counter: stay on an eligible feed or walk on to the next one, and mark it
        as tried. */
    method Advance(from: nat) returns (tul: nat)
      requires from < nHttpErr.Length
      modifies nHttpErr
      ensures from <= tul <= nHttpErr.Length
      ensures forall u :: from <= u < tul ==> !Eligible(old(nHttpErr[u]), dlRetries)
      ensures tul == nHttpErr.Length ==> nHttpErr[..] == old(nHttpErr[..])
      ensures tul < nHttpErr.Length ==>
        && Eligible(old(nHttpErr[tul]), dlRetries)
        && nHttpErr[..] == old(nHttpErr[..])[tul := if old(nHttpErr[tul]) < 0 then 0 else old(nHttpErr[tul])]
    {
      tul := from;
      if nHttpErr[tul] < 0 {
        nHttpErr[tul] := 0;
      } else if nHttpErr[tul] == 0 || nHttpErr[tul] >= dlRetries {
        tul := tul + 1;
        while tul < nHttpErr.Length && (nHttpErr[tul] >= dlRetries || nHttpErr[tul] == 0)
          invariant from < tul <= nHttpErr.Length
          invariant forall u :: from <= u < tul ==> !Eligible(nHttpErr[u], dlRetries)
        {
          tul := tul + 1;
        }
        if tul == nHttpErr.Length {
          return;
        }
        if nHttpErr[tul] < 0 {
          nHttpErr[tul] := 0;
        }
      }
    }

    /** `finish_batch`: the handles report in any order, each once. */
    method FinishBatch(order: seq<nat>, outcomes: seq<Outcome>)
      requires anp <= ula.Length && |outcomes| == anp && IsOrder(order, anp)
      requires Increasing(ula[..anp]) && Positions(ula[..anp], nHttpErr.Length)
      modifies this`newEntry, nHttpErr
      ensures nHttpErr[..] == Settled(old(nHttpErr[..]), dlRetries, ula[..anp], outcomes)
      ensures newEntry == (old(newEntry) || Finished(true) in outcomes)
    {
      ghost var ns, sel := nHttpErr[..], ula[..anp];
      NothingSettled(ns, dlRetries, sel, outcomes);
      for k := 0 to |order|
        invariant nHttpErr[..] == SettledSome(ns, dlRetries, sel, outcomes, order[..k])
        invariant newEntry == (old(newEntry) || exists i :: i in order[..k] && outcomes[i] == Finished(true))
      {
        var idx := order[k];
        assert order[..k + 1] == order[..k] + [idx];
        SettleOne(ns, dlRetries, sel, outcomes, order[..k], idx);
        Report(ula[idx], outcomes[idx]);
      }
      assert order[..|order|] == order;
      EverythingSettled(ns, dlRetries, sel, outcomes, order);
    }

    /** What one message does. */
    method Report(u: nat, outcome: Outcome)
      requires u < nHttpErr.Length
      modifies this`newEntry, nHttpErr
      ensures nHttpErr[..] == old(nHttpErr[..])[u := AfterOutcome(old(nHttpErr[u]), dlRetries, outcome)]
      ensures newEntry == (old(newEntry) || outcome == Finished(true))
    {
      match outcome {
        case TimedOut =>
          if nHttpErr[u] < 0 {
            nHttpErr[u] := 1;
          } else {
            nHttpErr[u] := nHttpErr[u] + 1;
          }
        case OtherError =>
          nHttpErr[u] := dlRetries;
        case ParseFailed =>
          if nHttpErr[u] < 0 {
            nHttpErr[u] := 1;
          } else {
            nHttpErr[u] := nHttpErr[u] + 1;
          }
        case Finished(entry) =>
          newEntry := newEntry || entry;
      }
    }

    /** The rounds of the cycle that the next call works on. */
    ghost function Cycle(): seq<seq<Outcome>>
      reads this
    {
      if active then rounds else []
    }

    /** Between two rounds: the counters are those of the run so far. */
    ghost predicate Idle()
      reads this, nHttpErr
    {
      && parallelReload >= 1
      && active && npara == parallelReload && ula.Length == npara
      && ValidRun(nHttpErr.Length, dlRetries, npara, rounds)
      && nHttpErr[..] == Counters(nHttpErr.Length, dlRetries, npara, rounds)
      && newEntry == AnyNew(rounds)
    }

    /** The cycle runs over `n` feeds with these settings. */
    ghost predicate Runs(n: nat, R: nat, para: nat)
    {
      n == nHttpErr.Length && R == dlRetries && para == parallelReload
    }

    method LoadNextBatch(ghost n: nat, ghost R: nat, ghost para: nat)
      requires Idle() && Runs(n, R, para)
      modifies this`anp, this`active, ula, nHttpErr
      ensures Valid()
      ensures active <==> Batch(n, R, para, rounds) != []
    {
      LoadNewHandles();
    }

    method StartCycle(ghost n: nat, ghost R: nat, ghost para: nat)
      requires Valid() && n >= 1 && Runs(n, R, para)
      modifies this, nHttpErr
      ensures Valid() && active && rounds == [] && fresh(ula)
    {
      FetchInit();
      FirstBatch(n, R, para);
      LoadNextBatch(n, R, para);
    }

    method SettleRound(order: seq<nat>, outcomes: seq<Outcome>, ghost n: nat, ghost R: nat, ghost para: nat,
                       ghost before: seq<seq<Outcome>>)
      requires Valid() && active && rounds == before && Runs(n, R, para) && ValidRun(n, R, para, before)
      requires |outcomes| == |Batch(n, R, para, before)| && IsOrder(order, |outcomes|)
      modifies this`newEntry, this`rounds, nHttpErr
      ensures Idle() && rounds == before + [outcomes]
    {
      ghost var sel, ns := ula[..anp], nHttpErr[..];
      RoundEnds(n, R, para, before, outcomes, sel, ns);
      FinishBatch(order, outcomes);
      rounds := before + [outcomes];
    }

    /** `finish_batch` and the next batch. */
    method NextRound(order: seq<nat>, outcomes: seq<Outcome>, ghost n: nat, ghost R: nat, ghost para: nat,
                     ghost before: seq<seq<Outcome>>)
      requires Valid() && active && rounds == before && Runs(n, R, para) && ValidRun(n, R, para, before)
      requires |outcomes| == |Batch(n, R, para, before)| && IsOrder(order, |outcomes|)
      modifies this`newEntry, this`rounds, this`anp, this`active, ula, nHttpErr
      ensures Valid() && rounds == before + [outcomes] && ValidRun(n, R, para, before + [outcomes])
      ensures active <==> Batch(n, R, para, before + [outcomes]) != []
      ensures newEntry == AnyNew(before + [outcomes])
    {
      SettleRound(order, outcomes, n, R, para, before);
      LoadNextBatch(n, R, para);
    }

    /** `handle_urls`.  `done` says that no transfer is running any more; then the handles of the
        batch report their outcomes in some order.  A non-negative answer ends the cycle. */
    method HandleUrls(done: bool, order: seq<nat>, outcomes: seq<Outcome>, ghost n: nat, ghost R: nat, ghost para: nat,
                      ghost before: seq<seq<Outcome>>) returns (ret: int)
      requires Valid() && n >= 1 && Runs(n, R, para) && before == Cycle() && ValidRun(n, R, para, before)
      requires done ==> |outcomes| == |Batch(n, R, para, before)| && IsOrder(order, |outcomes|)
      modifies this, ula, nHttpErr
      ensures Valid() && (ula == old(ula) || fresh(ula))
      ensures rounds == before + if done then [outcomes] else []
      ensures ValidRun(n, R, para, rounds)
      ensures ret == -1 <==> active
      ensures active <==> Batch(n, R, para, rounds) != []
      ensures !active ==> ret == if AnyNew(rounds) then 1 else 0
    {
      if !active {
        StartCycle(n, R, para);
      }
      if done {
        NextRound(order, outcomes, n, R, para, before);
      } else {
        assert active && rounds == before && ula[..anp] == Batch(n, R, para, before);
      }
      ret := if active then -1 else if newEntry then 1 else 0;
    }
  }

  lemma RoundEnds(n: nat, R: nat, npara: nat, rounds: seq<seq<Outcome>>, outcomes: seq<Outcome>,
                  sel: seq<nat>, ns: seq<int>)
    requires npara >= 1 && ValidRun(n, R, npara, rounds) && sel == Batch(n, R, npara, rounds) && sel != []
    requires |outcomes| == |sel| && ns == Loaded(Counters(n, R, npara, rounds), sel)
    ensures Increasing(sel) && Positions(sel, n)
    ensures ValidRun(n, R, npara, rounds + [outcomes])
    ensures Counters(n, R, npara, rounds + [outcomes]) == Settled(ns, R, sel, outcomes)
    ensures AnyNew(rounds + [outcomes]) <==> AnyNew(rounds) || Finished(true) in outcomes
  {
    OneMoreRound(n, R, npara, rounds, outcomes);
    SelectedExact(Counters(n, R, npara, rounds), R, npara);
    assert forall k :: 0 <= k < |sel| ==> sel[k] in sel;
  }

  /** The first batch of a cycle over a non-empty list is not empty. */
  lemma FirstBatch(n: nat, R: nat, npara: nat)
    requires n >= 1 && npara >= 1
    ensures ValidRun(n, R, npara, []) && Batch(n, R, npara, []) == Selected(Untried(n), R, npara) != []
    ensures !AnyNew([])
  {
    SelectedExact(Untried(n), R, npara);
    assert Eligible(Untried(n)[0], R);
  }

  /** The counters when the handles in `done` have reported. */
  ghost function SettledSome(ns: seq<int>, R: nat, sel: seq<nat>, outcomes: seq<Outcome>, done: seq<nat>): seq<int>
    requires |outcomes| == |sel|
  {
    seq(|ns|, u requires 0 <= u < |ns| =>
      if u in sel && PositionOf(sel, u) in done then AfterOutcome(ns[u], R, outcomes[PositionOf(sel, u)]) else ns[u])
  }

  lemma NothingSettled(ns: seq<int>, R: nat, sel: seq<nat>, outcomes: seq<Outcome>)
    requires |outcomes| == |sel|
    ensures SettledSome(ns, R, sel, outcomes, []) == ns
  {
  }

  lemma SettleOne(ns: seq<int>, R: nat, sel: seq<nat>, outcomes: seq<Outcome>, done: seq<nat>, idx: nat)
    requires |outcomes| == |sel| && Increasing(sel) && Positions(sel, |ns|)
    requires idx < |sel| && idx !in done
    ensures var some := SettledSome(ns, R, sel, outcomes, done);
      && some[sel[idx]] == ns[sel[idx]]
      && SettledSome(ns, R, sel, outcomes, done + [idx]) ==
         some[sel[idx] := AfterOutcome(ns[sel[idx]], R, outcomes[idx])]
  {
    assert sel[idx] in sel;
    assert forall u :: u in sel ==> (PositionOf(sel, u) == idx <==> u == sel[idx]) by {
      forall u | u in sel ensures PositionOf(sel, u) == idx <==> u == sel[idx] {
        var i := PositionOf(sel, u);
        assert i < idx || i == idx || i > idx;
      }
    }
  }

  lemma EverythingSettled(ns: seq<int>, R: nat, sel: seq<nat>, outcomes: seq<Outcome>, order: seq<nat>)
    requires |outcomes| == |sel| && IsOrder(order, |sel|)
    ensures SettledSome(ns, R, sel, outcomes, order) == Settled(ns, R, sel, outcomes)
    ensures Finished(true) in outcomes <==> exists i :: i in order && outcomes[i] == Finished(true)
  {
    if Finished(true) in outcomes {
      var i :| 0 <= i < |outcomes| && outcomes[i] == Finished(true);
      assert i in order;
    }
  }

  ghost predicate Positions(sel: seq<nat>, n: nat) { forall k :: 0 <= k < |sel| ==> sel[k] < n }

  /** Every handle number below `n` occurs once. */
  ghost predicate IsOrder(order: seq<nat>, n: nat)
  {
    && |order| == n
    && (forall i :: 0 <= i < n ==> i in order)
    && (forall k :: 0 <= k < n ==> order[k] < n)
    && (forall a, b :: 0 <= a < b < n ==> order[a] != order[b])
  }

  lemma SkipIneligible(ns: seq<int>, R: nat, i: nat, t: nat)
    requires i <= t <= |ns| && forall u :: i <= u < t ==> !Eligible(ns[u], R)
    ensures EligibleFrom(ns, R, i) == EligibleFrom(ns, R, t)
    decreases t - i
  {
    if i < t {
      SkipIneligible(ns, R, i + 1, t);
    }
  }

  /** The state of `load_new_handles`: `sel` is chosen, the list is scanned up to `tul`. */
  ghost predicate Chosen(ns: seq<int>, R: nat, sel: seq<nat>, tul: nat, cur: seq<int>)
    requires tul <= |ns|
  {
    && EligibleFrom(ns, R, 0) == sel + EligibleFrom(ns, R, tul)
    && (forall k :: 0 <= k < |sel| ==> sel[k] < tul)
    && cur == Loaded(ns, sel)
  }

  lemma ChosenStep(ns: seq<int>, R: nat, sel: seq<nat>, from: nat, tul: nat, cur: seq<int>, cur': seq<int>)
    requires from <= tul <= |ns| && Chosen(ns, R, sel, from, cur)
    requires forall u :: from <= u < tul ==> !Eligible(cur[u], R)
    requires tul == |ns| ==> cur' == cur
    requires tul < |ns| ==> Eligible(cur[tul], R) && cur' == cur[tul := if cur[tul] < 0 then 0 else cur[tul]]
    ensures tul == |ns| ==> Chosen(ns, R, sel, tul, cur')
    ensures tul < |ns| ==> Chosen(ns, R, sel + [tul], tul + 1, cur')
  {
    forall u | from <= u < |ns| ensures u !in sel && cur[u] == ns[u] {
    }
    SkipIneligible(ns, R, from, tul);
    if tul < |ns| {
      TakeEligible(ns, R, sel, tul);
      LoadOne(ns, sel, tul);
    }
  }

  lemma TakeEligible(ns: seq<int>, R: nat, sel: seq<nat>, tul: nat)
    requires tul < |ns| && Eligible(ns[tul], R)
    ensures sel + EligibleFrom(ns, R, tul) == (sel + [tul]) + EligibleFrom(ns, R, tul + 1)
  {
    assert EligibleFrom(ns, R, tul) == [tul] + EligibleFrom(ns, R, tul + 1);
  }

  lemma LoadOne(ns: seq<int>, sel: seq<nat>, u: nat)
    requires u < |ns| && u !in sel
    ensures Loaded(ns, sel + [u]) == Loaded(ns, sel)[u := if ns[u] < 0 then 0 else ns[u]]
  {
  }

  lemma ChosenEnds(ns: seq<int>, R: nat, sel: seq<nat>, tul: nat, cur: seq<int>, npara: nat)
    requires tul <= |ns| && Chosen(ns, R, sel, tul, cur)
    requires |sel| == npara || (|sel| <= npara && tul == |ns|)
    ensures sel == Selected(ns, R, npara)
  {
  }

}
