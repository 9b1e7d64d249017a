/**
  Whole refresh cycles through `handle_urls`: what the caller is told after each batch.
*/
module FetchRuns {
  import opened FetchRounds
  import opened FetchScheduler
  import opened FetchCycle

  /** The answer of the call that finishes the last of these rounds. */
  ghost function AnswerAfter(n: nat, R: nat, npara: nat, rounds: seq<seq<Outcome>>): int
    requires ValidRun(n, R, npara, rounds)
  {
    if !AllDone(n, R, npara, rounds) then -1 else if AnyNew(rounds) then 1 else 0
  }

  lemma {:induction false} RunPrefix(n: nat, R: nat, npara: nat, rounds: seq<seq<Outcome>>, i: nat)
    requires ValidRun(n, R, npara, rounds) && i <= |rounds|
    ensures ValidRun(n, R, npara, rounds[..i])
    ensures i < |rounds| ==>
      Batch(n, R, npara, rounds[..i]) != [] && |rounds[i]| == |Batch(n, R, npara, rounds[..i])|
    decreases |rounds|
  {
    if i == |rounds| {
      assert rounds[..i] == rounds;
    } else {
      var front := rounds[..|rounds| - 1];
      LastRound(n, R, npara, rounds);
      RunPrefix(n, R, npara, front, i);
      assert front[..i] == rounds[..i];
    }
  }

  /** What the calls of a run answer. */
  ghost function AnswersOf(n: nat, R: nat, npara: nat, rounds: seq<seq<Outcome>>): seq<int>
    requires ValidRun(n, R, npara, rounds)
    decreases |rounds|
  {
    if rounds == [] then []
    else AnswersOf(n, R, npara, rounds[..|rounds| - 1]) + [AnswerAfter(n, R, npara, rounds)]
  }

  ghost predicate AnswerIs(n: nat, R: nat, npara: nat, rounds: seq<seq<Outcome>>, k: nat, answer: int)
    requires k < |rounds|
  {
    ValidRun(n, R, npara, rounds[..k + 1]) && answer == AnswerAfter(n, R, npara, rounds[..k + 1])
  }

  lemma {:induction false} AnswersAt(n: nat, R: nat, npara: nat, rounds: seq<seq<Outcome>>, k: nat)
    requires ValidRun(n, R, npara, rounds) && k < |rounds|
    ensures |AnswersOf(n, R, npara, rounds)| == |rounds|
    ensures AnswerIs(n, R, npara, rounds, k, AnswersOf(n, R, npara, rounds)[k])
    decreases |rounds|
  {
    var front := rounds[..|rounds| - 1];
    if k < |front| {
      AnswersAt(n, R, npara, front, k);
      assert front[..k + 1] == rounds[..k + 1];
    } else {
      assert rounds[..k + 1] == rounds;
      if front != [] {
        AnswersAt(n, R, npara, front, 0);
      }
    }
  }

  lemma AnswersAre(n: nat, R: nat, npara: nat, rounds: seq<seq<Outcome>>, answers: seq<int>)
    requires ValidRun(n, R, npara, rounds) && answers == AnswersOf(n, R, npara, rounds)
    ensures |answers| == |rounds|
    ensures forall k :: 0 <= k < |rounds| ==> AnswerIs(n, R, npara, rounds, k, answers[k])
  {
    if rounds != [] {
      AnswersAt(n, R, npara, rounds, 0);
    }
    forall k | 0 <= k < |rounds| ensures AnswerIs(n, R, npara, rounds, k, answers[k]) {
      AnswersAt(n, R, npara, rounds, k);
    }
  }

  lemma NextAnswer(n: nat, R: nat, npara: nat, rounds: seq<seq<Outcome>>, i: nat)
    requires ValidRun(n, R, npara, rounds) && i < |rounds|
    ensures ValidRun(n, R, npara, rounds[..i]) && ValidRun(n, R, npara, rounds[..i + 1])
    ensures rounds[..i + 1] == rounds[..i] + [rounds[i]]
    ensures AnswersOf(n, R, npara, rounds[..i + 1]) ==
      AnswersOf(n, R, npara, rounds[..i]) + [AnswerAfter(n, R, npara, rounds[..i + 1])]
  {
    RunPrefix(n, R, npara, rounds, i);
    RunPrefix(n, R, npara, rounds, i + 1);
    assert rounds[..i + 1][..i] == rounds[..i];
  }

  /** The cycle stands behind these rounds. */
  ghost predicate Standing(data: HttpData, n: nat, R: nat, npara: nat, rounds: seq<seq<Outcome>>)
    reads data, data.ula, data.nHttpErr
  {
    && data.Valid() && data.Runs(n, R, npara)
    && ValidRun(n, R, npara, rounds)
    && (Batch(n, R, npara, rounds) != [] ==> data.Cycle() == rounds)
  }

  /** `handle_urls` when the batch behind `before` has finished. */
  method FinishRound(data: HttpData, n: nat, R: nat, npara: nat, ghost before: seq<seq<Outcome>>,
                     order: seq<nat>, outcomes: seq<Outcome>) returns (answer: int)
    requires n >= 1 && npara >= 1 && Standing(data, n, R, npara, before)
    requires Batch(n, R, npara, before) != [] && |outcomes| == |Batch(n, R, npara, before)|
    requires IsOrder(order, |outcomes|)
    modifies data, data.ula, data.nHttpErr
    ensures data.ula == old(data.ula) || fresh(data.ula)
    ensures Standing(data, n, R, npara, before + [outcomes])
    ensures answer == AnswerAfter(n, R, npara, before + [outcomes])
  {
    answer := data.HandleUrls(true, order, outcomes, n, R, npara, before);
    CycleOverExactlyWhen(n, R, npara, before + [outcomes]);
  }

  /** `handle_urls`, called whenever a batch has finished, from the start of a cycle: for every run
      and every order of reports it answers -1 until every feed was tried and is done with, and then
      whether any fetch of the cycle brought a new entry. */
  method RunCycle(n: nat, R: nat, npara: nat, orders: seq<seq<nat>>, rounds: seq<seq<Outcome>>)
    returns (answers: seq<int>)
    requires n >= 1 && npara >= 1 && ValidRun(n, R, npara, rounds)
    requires |orders| == |rounds| && forall k :: 0 <= k < |rounds| ==> IsOrder(orders[k], |rounds[k]|)
    ensures |answers| == |rounds|
    ensures forall k :: 0 <= k < |rounds| ==> AnswerIs(n, R, npara, rounds, k, answers[k])
  {
    var counters := new int[n](_ => 0);
    var data := new HttpData(counters, R, npara);
    answers := RunFrom(data, n, R, npara, orders, rounds);
    AnswersAre(n, R, npara, rounds, answers);
  }

  method RunFrom(data: HttpData, n: nat, R: nat, npara: nat, orders: seq<seq<nat>>, rounds: seq<seq<Outcome>>)
    returns (answers: seq<int>)
    requires n >= 1 && npara >= 1 && Standing(data, n, R, npara, []) && ValidRun(n, R, npara, rounds)
    requires |orders| == |rounds| && forall k :: 0 <= k < |rounds| ==> IsOrder(orders[k], |rounds[k]|)
    modifies data, data.ula, data.nHttpErr
    ensures answers == AnswersOf(n, R, npara, rounds)
  {
    answers := [];
    for i := 0 to |rounds|
      invariant data.ula == old(data.ula) || fresh(data.ula)
      invariant Standing(data, n, R, npara, rounds[..i])
      invariant answers == AnswersOf(n, R, npara, rounds[..i])
    {
      RunPrefix(n, R, npara, rounds, i);
      NextAnswer(n, R, npara, rounds, i);
      var answer := FinishRound(data, n, R, npara, rounds[..i], orders[i], rounds[i]);
      answers := answers + [answer];
    }
    assert rounds[..|rounds|] == rounds;
  }
}
