/**
  The rounds of src/httpfetch.c as functions of the counters `n_httperr`, in list order: which
  feeds a batch takes, what its outcomes do to the counters, and what a run of rounds leads to.

  curl is reduced to one outcome per handle of a batch.
*/
module FetchRounds {
  datatype Outcome =
    | Finished(newEntry: bool)  // fetched and parsed; the flag is the result of xmlproc_update_cache
    | ParseFailed
    | TimedOut
    | OtherError

  // ---------------------------------------------------------------- one batch

  /** Not tried in this cycle, or failed softly fewer than `R` times. */
  predicate Eligible(n: int, R: nat) { n < 0 || 0 < n < R }

  /** The eligible positions from `i` on, in list order. */
  function EligibleFrom(ns: seq<int>, R: nat, i: nat): (sel: seq<nat>)
    requires i <= |ns|
    ensures |sel| <= |ns| - i
    ensures forall k :: 0 <= k < |sel| ==> i <= sel[k] < |ns|
    decreases |ns| - i
  {
    if i == |ns| then []
    else (if Eligible(ns[i], R) then [i] else []) + EligibleFrom(ns, R, i + 1)
  }

  /** The batch: the first `npara` eligible positions. */
  function Selected(ns: seq<int>, R: nat, npara: nat): seq<nat>
  {
    var all := EligibleFrom(ns, R, 0);
    if |all| <= npara then all else all[..npara]
  }

  /** Loading a batch marks the untried feeds in it as tried. */
  function Loaded(ns: seq<int>, sel: seq<nat>): (r: seq<int>)
    ensures |r| == |ns|
  {
    seq(|ns|, u requires 0 <= u < |ns| => if u in sel && ns[u] < 0 then 0 else ns[u])
  }

  function AfterOutcome(n: int, R: nat, o: Outcome): int
  {
    match o
    case Finished(_) => n
    case ParseFailed => if n < 0 then 1 else n + 1
    case TimedOut => if n < 0 then 1 else n + 1
    case OtherError => R
  }

  function PositionOf(sel: seq<nat>, u: nat): (i: nat)
    requires u in sel
    ensures i < |sel| && sel[i] == u
  {
    if sel[0] == u then 0 else 1 + PositionOf(sel[1..], u)
  }

  /** The counters after every handle of the batch has reported. */
  function Settled(ns: seq<int>, R: nat, sel: seq<nat>, outcomes: seq<Outcome>): (r: seq<int>)
    requires |outcomes| == |sel|
    ensures |r| == |ns|
  {
    seq(|ns|, u requires 0 <= u < |ns| =>
      if u in sel then AfterOutcome(ns[u], R, outcomes[PositionOf(sel, u)]) else ns[u])
  }

  /** Load, transfer and finish: from the counters before `load_new_handles` to those behind
      `finish_batch`. */
  function Round(ns: seq<int>, R: nat, npara: nat, outcomes: seq<Outcome>): (r: seq<int>)
    requires |outcomes| == |Selected(ns, R, npara)|
    ensures |r| == |ns|
  {
    var sel := Selected(ns, R, npara);
    Settled(Loaded(ns, sel), R, sel, outcomes)
  }

  predicate Increasing(sel: seq<nat>) { forall a, b :: 0 <= a < b < |sel| ==> sel[a] < sel[b] }

  lemma {:induction false} EligibleFromExact(ns: seq<int>, R: nat, i: nat)
    requires i <= |ns|
    ensures Increasing(EligibleFrom(ns, R, i))
    ensures forall u :: u in EligibleFrom(ns, R, i) <==> i <= u < |ns| && Eligible(ns[u], R)
    decreases |ns| - i
  {
    if i < |ns| {
      EligibleFromExact(ns, R, i + 1);
    }
  }

  /** Only eligible feeds are taken, and some feed is taken if any is eligible. */
  lemma SelectedEligible(ns: seq<int>, R: nat, npara: nat)
    requires npara >= 1
    ensures forall u :: u in Selected(ns, R, npara) ==> u < |ns| && Eligible(ns[u], R)
    ensures Selected(ns, R, npara) == [] <==> forall u :: 0 <= u < |ns| ==> !Eligible(ns[u], R)
  {
    EligibleFromExact(ns, R, 0);
    var sel, all := Selected(ns, R, npara), EligibleFrom(ns, R, 0);
    forall u | u in sel ensures u in all {
      var k :| 0 <= k < |sel| && sel[k] == u;
      assert all[k] == u;
    }
    assert sel == [] <==> all == [];
    if all != [] {
      assert all[0] in all;
    }
  }

  /** The batch is the first min(npara, count) eligible feeds in list order, none of them twice; it
      is empty exactly when no feed is eligible. */
  lemma SelectedExact(ns: seq<int>, R: nat, npara: nat)
    requires npara >= 1
    ensures var sel, all := Selected(ns, R, npara), EligibleFrom(ns, R, 0);
      && Increasing(sel) && sel <= all
      && |sel| == (if |all| < npara then |all| else npara)
      && (forall u :: u in sel ==> u < |ns| && Eligible(ns[u], R))
      && (forall u :: 0 <= u < |ns| && Eligible(ns[u], R) && u !in sel ==> |sel| == npara && sel[npara - 1] < u)
      && (sel == [] <==> forall u :: 0 <= u < |ns| ==> !Eligible(ns[u], R))
  {
    SelectedEligible(ns, R, npara);
    EligibleFromExact(ns, R, 0);
    var sel, all := Selected(ns, R, npara), EligibleFrom(ns, R, 0);
    assert forall k :: 0 <= k < |sel| ==> sel[k] == all[k];
    forall u | 0 <= u < |ns| && Eligible(ns[u], R) && u !in sel ensures |sel| == npara && sel[npara - 1] < u {
      NotSelectedIsLater(all, npara, u);
    }
  }

  lemma NotSelectedIsLater(all: seq<nat>, npara: nat, u: nat)
    requires npara >= 1 && Increasing(all) && u in all
    requires u !in if |all| <= npara then all else all[..npara]
    ensures |all| > npara && all[npara - 1] < u
  {
    var k :| 0 <= k < |all| && all[k] == u;
    var sel := if |all| <= npara then all else all[..npara];
    assert forall j :: 0 <= j < |sel| ==> sel[j] == all[j] && sel[j] in sel;
  }

  // ---------------------------------------------------------------- runs

  function Untried(n: nat): seq<int> { seq(n, _ => -1) }

  /** A run of rounds over `n` feeds: every round has a batch and an outcome for each handle. */
  ghost predicate ValidRun(n: nat, R: nat, npara: nat, rounds: seq<seq<Outcome>>)
    decreases |rounds|, 0
  {
    rounds == [] ||
    (var front := rounds[..|rounds| - 1];
     && ValidRun(n, R, npara, front)
     && Selected(Counters(n, R, npara, front), R, npara) != []
     && |rounds[|rounds| - 1]| == |Selected(Counters(n, R, npara, front), R, npara)|)
  }

  /** The counters after a run that starts with every feed untried. */
  ghost function Counters(n: nat, R: nat, npara: nat, rounds: seq<seq<Outcome>>): (ns: seq<int>)
    requires ValidRun(n, R, npara, rounds)
    ensures |ns| == n
    decreases |rounds|, 1
  {
    if rounds == [] then Untried(n)
    else Round(Counters(n, R, npara, rounds[..|rounds| - 1]), R, npara, rounds[|rounds| - 1])
  }

  /** The batch that follows a run. */
  ghost function Batch(n: nat, R: nat, npara: nat, rounds: seq<seq<Outcome>>): seq<nat>
    requires ValidRun(n, R, npara, rounds)
  {
    Selected(Counters(n, R, npara, rounds), R, npara)
  }

  /** Some fetch of the run brought a new entry. */
  ghost predicate AnyNew(rounds: seq<seq<Outcome>>)
  {
    exists k :: 0 <= k < |rounds| && Finished(true) in rounds[k]
  }

  lemma OneMoreRound(n: nat, R: nat, npara: nat, rounds: seq<seq<Outcome>>, outcomes: seq<Outcome>)
    requires ValidRun(n, R, npara, rounds)
    requires Batch(n, R, npara, rounds) != [] && |outcomes| == |Batch(n, R, npara, rounds)|
    ensures ValidRun(n, R, npara, rounds + [outcomes])
    ensures Counters(n, R, npara, rounds + [outcomes]) == Round(Counters(n, R, npara, rounds), R, npara, outcomes)
    ensures AnyNew(rounds + [outcomes]) <==> AnyNew(rounds) || Finished(true) in outcomes
  {
    var more := rounds + [outcomes];
    assert more[..|more| - 1] == rounds && more[|more| - 1] == outcomes;
    if AnyNew(rounds) {
      var k :| 0 <= k < |rounds| && Finished(true) in rounds[k];
      assert Finished(true) in more[k];
    }
    if Finished(true) in outcomes {
      assert Finished(true) in more[|rounds|];
    }
    if AnyNew(more) {
      var k :| 0 <= k < |more| && Finished(true) in more[k];
      assert k < |rounds| ==> Finished(true) in rounds[k];
    }
  }
}
