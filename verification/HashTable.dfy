/**
  The open-addressing table with tombstones of src/hash.c.

  A `var_t **` array of 32 slots is an `array<Slot>`; the address of the static `deleted`
  marker is `Deleted`.  The hash function is a parameter, so every statement holds for any
  pattern of collisions.
*/
module HashTable {
  import opened Options

  const INITIAL_LOCTAB_SIZE: nat := 32
  const TWO_32: nat := 0x1_0000_0000

  type uint32 = n: int | 0 <= n < TWO_32
  type HashFunction = string -> uint32

  datatype Slot<V> = Null | Deleted | Live(name: string, value: Option<V>)

  /** The slot examined at step `i`: `i + k` is computed in 32 bits before it is reduced. */
  function Probe(k: uint32, i: nat, size: nat): nat
    requires size > 0
  {
    ((i + k) % TWO_32) % size
  }

  /** Every slot passed before step `i` on the way from `k`'s home is in use or was used. */
  ghost predicate NoNullBefore<V>(s: seq<Slot<V>>, k: uint32, i: nat)
    requires |s| == INITIAL_LOCTAB_SIZE
  {
    forall j :: 0 <= j < i ==> !s[Probe(k, j, |s|)].Null?
  }

  /** A live slot is where a probe for its own name will find it. */
  ghost predicate Placed<V>(s: seq<Slot<V>>, hash: HashFunction, p: nat)
    requires |s| == INITIAL_LOCTAB_SIZE && p < |s| && s[p].Live?
  {
    exists i: nat :: i < |s| && Probe(hash(s[p].name), i, |s|) == p && NoNullBefore(s, hash(s[p].name), i)
  }

  ghost predicate Distinct<V>(s: seq<Slot<V>>)
  {
    forall p, q :: 0 <= p < q < |s| && s[p].Live? && s[q].Live? ==> s[p].name != s[q].name
  }

  ghost predicate WellFormed<V>(s: seq<Slot<V>>, hash: HashFunction)
  {
    && |s| == INITIAL_LOCTAB_SIZE
    && Distinct(s)
    && forall p :: 0 <= p < |s| && s[p].Live? ==> Placed(s, hash, p)
  }

  ghost predicate Stores<V>(s: seq<Slot<V>>, m: map<string, Option<V>>)
  {
    && (forall p :: 0 <= p < |s| && s[p].Live? ==> s[p].name in m && m[s[p].name] == s[p].value)
    && (forall n :: n in m ==> exists p :: 0 <= p < |s| && s[p].Live? && s[p].name == n)
  }

  ghost predicate AllLive<V>(s: seq<Slot<V>>)
  {
    forall p :: 0 <= p < |s| ==> s[p].Live?
  }

  /** A name may be looked up, set or unset without `find_hash` answering -1. */
  predicate Admits<V>(m: map<string, Option<V>>, name: string)
  {
    name in m || |m| < INITIAL_LOCTAB_SIZE
  }

  // ---------------------------------------------------------------- probing

  /** The 32-bit wrap of `i + k` is invisible because 32 divides 2^32. */
  lemma ProbeIgnoresWrap(k: uint32, i: nat)
    ensures Probe(k, i, INITIAL_LOCTAB_SIZE) == (k + i) % INITIAL_LOCTAB_SIZE
  {
    var q := (i + k) / TWO_32;
    assert i + k == q * TWO_32 + (i + k) % TWO_32;
    assert i + k == 32 * (q * 0x800_0000) + (i + k) % TWO_32;
  }

  /** Thirty-two consecutive steps visit every slot. */
  lemma ProbeReaches(k: uint32, p: nat) returns (i: nat)
    requires p < INITIAL_LOCTAB_SIZE
    ensures i < INITIAL_LOCTAB_SIZE && Probe(k, i, INITIAL_LOCTAB_SIZE) == p
  {
    i := (p + INITIAL_LOCTAB_SIZE - k % INITIAL_LOCTAB_SIZE) % INITIAL_LOCTAB_SIZE;
    ProbeIgnoresWrap(k, i);
  }

  // ---------------------------------------------------------------- capacity

  function LiveNames<V>(s: seq<Slot<V>>): (names: set<string>)
    ensures forall n :: n in names <==> exists p :: 0 <= p < |s| && s[p].Live? && s[p].name == n
  {
    if s == [] then {}
    else
      var last := s[|s| - 1];
      var front := s[..|s| - 1];
      assert forall p :: 0 <= p < |front| ==> front[p] == s[p];
      if last.Live? then LiveNames(front) + {last.name} else LiveNames(front)
  }

  lemma {:induction false} LiveNamesCount<V>(s: seq<Slot<V>>)
    requires Distinct(s)
    ensures |LiveNames(s)| <= |s|
    ensures |LiveNames(s)| == |s| <==> AllLive(s)
  {
    if s != [] {
      var front, last := s[..|s| - 1], s[|s| - 1];
      assert forall p :: 0 <= p < |front| ==> front[p] == s[p];
      LiveNamesCount(front);
      AllLiveStep(s);
      if last.Live? {
        assert last.name !in LiveNames(front);
      }
    }
  }

  lemma AllLiveStep<V>(s: seq<Slot<V>>)
    requires s != []
    ensures AllLive(s) <==> AllLive(s[..|s| - 1]) && s[|s| - 1].Live?
  {
    var front := s[..|s| - 1];
    assert forall p :: 0 <= p < |front| ==> front[p] == s[p];
    if AllLive(front) && s[|s| - 1].Live? {
      forall p | 0 <= p < |s| ensures s[p].Live? {
        assert p < |front| ==> s[p] == front[p];
      }
    }
  }

  /** The table is full of live slots exactly when it stores 32 names. */
  lemma FullIffThirtyTwo<V>(s: seq<Slot<V>>, hash: HashFunction, m: map<string, Option<V>>)
    requires WellFormed(s, hash) && Stores(s, m)
    ensures |m| <= INITIAL_LOCTAB_SIZE
    ensures AllLive(s) <==> |m| == INITIAL_LOCTAB_SIZE
  {
    LiveNamesCount(s);
    assert m.Keys == LiveNames(s);
  }

  // ---------------------------------------------------------------- the table

  class VarTable<V> {
    const hash: HashFunction
    var tab: array<Slot<V>>
    var size: nat
    var cap: int
    ghost var vars: map<string, Option<V>>

    ghost predicate Valid()
      reads this, tab
    {
      && size == tab.Length
      && cap <= 0
      && WellFormed(tab[..], hash)
      && Stores(tab[..], vars)
    }

    /** `init_urltag_table` and `init_uikey_table`. */
    constructor (hash: HashFunction)
      ensures Valid() && fresh(tab)
      ensures vars == map[] && this.hash == hash
    {
      this.hash := hash;
      tab := new Slot<V>[INITIAL_LOCTAB_SIZE](_ => Null);
      size := INITIAL_LOCTAB_SIZE;
      cap := 0;
      vars := map[];
    }

    /** -1 exactly when the name is absent and no slot is free; otherwise the live slot of the
        name, or else the first slot on its probe sequence that is not live. */
    method FindHash(name: string, k: uint32) returns (ret: int)
      requires Valid() && k == hash(name)
      ensures -1 <= ret < tab.Length
      ensures ret == -1 <==> !Admits(vars, name)
      ensures ret >= 0 ==> (tab[ret].Live? <==> name in vars)
      ensures ret >= 0 && name in vars ==> tab[ret].name == name && tab[ret].value == vars[name]
      ensures ret >= 0 && name !in vars ==>
        exists i: nat :: i < tab.Length && Probe(k, i, tab.Length) == ret &&
          forall j :: 0 <= j < i ==> tab[Probe(k, j, tab.Length)].Live?
    {
      ret := -1;
      ghost var at: nat := 0;
      FullIffThirtyTwo(tab[..], hash, vars);
      for i := 0 to size
        invariant forall j :: 0 <= j < i ==> !tab[Probe(k, j, tab.Length)].Null?
        invariant forall j :: 0 <= j < i && tab[Probe(k, j, tab.Length)].Live? ==>
          tab[Probe(k, j, tab.Length)].name != name
        invariant ret == -1 ==> forall j :: 0 <= j < i ==> tab[Probe(k, j, tab.Length)].Live?
        invariant ret != -1 ==> at < i && Probe(k, at, tab.Length) == ret && tab[ret].Deleted?
        invariant ret != -1 ==> forall j :: 0 <= j < at ==> tab[Probe(k, j, tab.Length)].Live?
        invariant -1 <= ret < tab.Length
      {
        var index := Probe(k, i, size);
        if tab[index].Deleted? {
          if ret < 0 {
            ret := index;
            at := i;
          }
          continue;
        }
        if tab[index].Null? {
          if ret < 0 {
            ret := index;
            at := i;
          }
          NullEndsSearch(name, k, i);
          assert !tab[ret].Live?;
          return;
        }
        if tab[index].name == name {
          return index;
        }
      }
      ExhaustedSearch(name, k);
      if ret == -1 {
        forall p | 0 <= p < tab.Length ensures tab[p].Live? {
          var j := ProbeReaches(k, p);
        }
        assert AllLive(tab[..]);
      }
    }

    /** A NULL slot on the probe sequence means that the name is not stored. */
    lemma NullEndsSearch(name: string, k: uint32, i: nat)
      requires Valid() && k == hash(name) && i < tab.Length
      requires tab[Probe(k, i, tab.Length)].Null?
      requires forall j :: 0 <= j < i && tab[Probe(k, j, tab.Length)].Live? ==>
        tab[Probe(k, j, tab.Length)].name != name
      ensures name !in vars && Admits(vars, name)
    {
      var s := tab[..];
      FullIffThirtyTwo(s, hash, vars);
      assert !s[Probe(k, i, |s|)].Live?;
      forall p | 0 <= p < |s| && s[p].Live? ensures s[p].name != name {
        assert Placed(s, hash, p);
        var k' := hash(s[p].name);
        var i': nat :| i' < |s| && Probe(k', i', |s|) == p && NoNullBefore(s, k', i');
        assert k' == k ==> i' < i;
      }
    }

    lemma ExhaustedSearch(name: string, k: uint32)
      requires Valid() && k == hash(name)
      requires forall j :: 0 <= j < tab.Length && tab[Probe(k, j, tab.Length)].Live? ==>
        tab[Probe(k, j, tab.Length)].name != name
      ensures name !in vars
    {
      forall p | 0 <= p < tab.Length && tab[p].Live? ensures tab[..][p].name != name {
        var j := ProbeReaches(k, p);
      }
    }

    /** `set_hash_var`.  The growth branch is dead: `cap` is only ever decremented. */
    method Set(name: string, value: Option<V>)
      requires Valid() && Admits(vars, name)
      modifies this, tab
      ensures Valid() && tab == old(tab)
      ensures vars == old(vars)[name := value]
    {
      if cap > (size / 4) * 3 {
        assert false;
      }
      var k := hash(name);
      var index := FindHash(name, k);
      ghost var before := tab[..];
      if tab[index].Null? || tab[index].Deleted? {
        tab[index] := Live(name, None);
      }
      if tab[index].Null? {
        assert false;  // the slot was filled just above, so `cap` is never raised
      }
      tab[index] := Live(tab[index].name, value);
      vars := vars[name := value];
      SetKeepsWellFormed(before, hash, old(vars), name, value, index);
      assert tab[..] == before[index := Live(name, value)];
    }

    /** `unset_hash_var`. */
    method Unset(name: string)
      requires Valid() && Admits(vars, name)
      modifies this, tab
      ensures Valid() && tab == old(tab)
      ensures vars == old(vars) - {name}
    {
      var k := hash(name);
      var index := FindHash(name, k);
      if tab[index].Null? || tab[index].Deleted? {
        assert vars - {name} == vars;
        return;
      }
      ghost var before := tab[..];
      cap := cap - 1;
      tab[index] := Deleted;
      vars := vars - {name};
      UnsetKeepsWellFormed(before, hash, old(vars), index);
      assert tab[..] == before[index := Deleted];
    }

    /** `get_hash_var`, NULL names included. */
    method Get(name: Option<string>) returns (value: Option<V>)
      requires Valid() && (name.Some? ==> Admits(vars, name.value))
      ensures value == if name.Some? && name.value in vars then vars[name.value] else None
    {
      if name.None? {
        return None;
      }
      var k := hash(name.value);
      var index := FindHash(name.value, k);
      if tab[index].Null? || tab[index].Deleted? {
        return None;
      }
      return tab[index].value;
    }

    /** `next_hash_pair`: the first live slot at or after `offset`, or NULL with the offset left
        where it was. */
    method NextPair(offset: int) returns (value: Option<V>, name: Option<string>, next: int)
      requires Valid()
      ensures name.None? ==> value == None && next == (if offset < 0 then 0 else offset)
      ensures name.None? ==> forall p :: 0 <= p < tab.Length && offset <= p ==> !tab[p].Live?
      ensures name.Some? ==>
        0 < next <= tab.Length && offset < next && tab[next - 1] == Live(name.value, value)
      ensures name.Some? ==> forall p :: 0 <= p < next - 1 && offset <= p ==> !tab[p].Live?
    {
      next := offset;
      if offset < 0 {
        next := 0;
      }
      var i := next;
      while i < size
        invariant next <= i
        invariant forall p :: next <= p < i && p < tab.Length ==> !tab[p].Live?
      {
        if tab[i].Live? {
          return tab[i].value, Some(tab[i].name), i + 1;
        }
        i := i + 1;
      }
      return None, None, next;
    }
  }

  lemma SetKeepsWellFormed<V>(s: seq<Slot<V>>, hash: HashFunction, m: map<string, Option<V>>,
                              name: string, value: Option<V>, index: nat)
    requires WellFormed(s, hash) && Stores(s, m) && index < |s|
    requires s[index].Live? <==> name in m
    requires name in m ==> s[index].name == name
    requires name !in m ==>
      exists i: nat :: i < |s| && Probe(hash(name), i, |s|) == index &&
        forall j :: 0 <= j < i ==> s[Probe(hash(name), j, |s|)].Live?
    ensures WellFormed(s[index := Live(name, value)], hash)
    ensures Stores(s[index := Live(name, value)], m[name := value])
  {
    var t := s[index := Live(name, value)];
    forall p | 0 <= p < |t| && t[p].Live? ensures Placed(t, hash, p) {
      if p == index && name !in m {
        var i: nat :| i < |s| && Probe(hash(name), i, |s|) == index &&
          forall j :: 0 <= j < i ==> s[Probe(hash(name), j, |s|)].Live?;
        assert NoNullBefore(t, hash(name), i);
      } else {
        assert Placed(s, hash, p);
        var i: nat :| i < |s| && Probe(hash(s[p].name), i, |s|) == p && NoNullBefore(s, hash(s[p].name), i);
        assert NoNullBefore(t, hash(t[p].name), i);
      }
    }
    var m' := m[name := value];
    forall n | n in m' ensures exists p :: 0 <= p < |t| && t[p].Live? && t[p].name == n {
      if n == name {
        assert t[index].name == n;
      } else {
        var p :| 0 <= p < |s| && s[p].Live? && s[p].name == n;
        assert t[p].name == n;
      }
    }
  }

  lemma UnsetKeepsWellFormed<V>(s: seq<Slot<V>>, hash: HashFunction, m: map<string, Option<V>>, index: nat)
    requires WellFormed(s, hash) && Stores(s, m) && index < |s| && s[index].Live?
    ensures WellFormed(s[index := Deleted], hash)
    ensures Stores(s[index := Deleted], m - {s[index].name})
  {
    var t := s[index := Deleted];
    forall p | 0 <= p < |t| && t[p].Live? ensures Placed(t, hash, p) {
      assert Placed(s, hash, p);
      var i: nat :| i < |s| && Probe(hash(s[p].name), i, |s|) == p && NoNullBefore(s, hash(s[p].name), i);
      assert NoNullBefore(t, hash(t[p].name), i);
    }
    var m' := m - {s[index].name};
    forall n | n in m' ensures exists p :: 0 <= p < |t| && t[p].Live? && t[p].name == n {
      var p :| 0 <= p < |s| && s[p].Live? && s[p].name == n;
      assert t[p].name == n;
    }
  }

  // ---------------------------------------------------------------- enumeration

  /** The live slots in table order: what repeated `next_hash_pair` calls meet. */
  function LivePairs<V>(s: seq<Slot<V>>): seq<(string, Option<V>)>
  {
    if s == [] then []
    else
      var last := s[|s| - 1];
      LivePairs(s[..|s| - 1]) + if last.Live? then [(last.name, last.value)] else []
  }

  lemma {:induction false} SkipDead<V>(s: seq<Slot<V>>, a: nat, b: nat)
    requires a <= b <= |s|
    requires forall q :: a <= q < b ==> !s[q].Live?
    ensures LivePairs(s[..b]) == LivePairs(s[..a])
    decreases b
  {
    if a < b {
      assert s[..b][..b - 1] == s[..b - 1];
      SkipDead(s, a, b - 1);
    }
  }

  lemma NextLive<V>(s: seq<Slot<V>>, off: nat, p: nat)
    requires off <= p < |s| && s[p].Live?
    requires forall q :: off <= q < p ==> !s[q].Live?
    ensures LivePairs(s[..p + 1]) == LivePairs(s[..off]) + [(s[p].name, s[p].value)]
  {
    SkipDead(s, off, p);
    assert s[..p + 1][..p] == s[..p];
  }

  ghost predicate HasPair<V>(s: seq<Slot<V>>, n: string, v: Option<V>)
  {
    exists p :: 0 <= p < |s| && s[p] == Live(n, v)
  }

  lemma {:induction false} LivePairsMember<V>(s: seq<Slot<V>>, n: string, v: Option<V>)
    ensures (n, v) in LivePairs(s) <==> HasPair(s, n, v)
  {
    if s != [] {
      var front, last := s[..|s| - 1], s[|s| - 1];
      LivePairsMember(front, n, v);
      assert forall p :: 0 <= p < |front| ==> front[p] == s[p];
      assert HasPair(s, n, v) <==> HasPair(front, n, v) || last == Live(n, v);
    }
  }

  lemma {:induction false} LivePairsDistinct<V>(s: seq<Slot<V>>)
    requires Distinct(s)
    ensures forall i, j :: 0 <= i < j < |LivePairs(s)| ==> LivePairs(s)[i].0 != LivePairs(s)[j].0
  {
    if s != [] {
      var front, last := s[..|s| - 1], s[|s| - 1];
      assert forall p :: 0 <= p < |front| ==> front[p] == s[p];
      LivePairsDistinct(front);
      forall i | 0 <= i < |LivePairs(front)| && last.Live? ensures LivePairs(front)[i].0 != last.name {
        var (n, v) := LivePairs(front)[i];
        LivePairsMember(front, n, v);
        assert HasPair(front, n, v);
      }
    }
  }

  /** The enumeration of a table is the map it stores, each name once. */
  lemma LivePairsExact<V>(s: seq<Slot<V>>, m: map<string, Option<V>>)
    requires Distinct(s) && Stores(s, m)
    ensures forall i, j :: 0 <= i < j < |LivePairs(s)| ==> LivePairs(s)[i].0 != LivePairs(s)[j].0
    ensures forall n, v :: (n, v) in LivePairs(s) <==> n in m && m[n] == v
  {
    LivePairsDistinct(s);
    forall n, v ensures (n, v) in LivePairs(s) <==> n in m && m[n] == v {
      LivePairsMember(s, n, v);
    }
  }

  // ---------------------------------------------------------------- runs

  datatype Op<V> = SetOp(name: string, value: Option<V>) | UnsetOp(name: string) | GetOp(name: string)

  /** What a finite map does with one operation. */
  function MapAfter<V>(m: map<string, Option<V>>, op: Op<V>): map<string, Option<V>>
  {
    match op
    case SetOp(n, v) => m[n := v]
    case UnsetOp(n) => m - {n}
    case GetOp(_) => m
  }

  function MapAfterAll<V>(ops: seq<Op<V>>): map<string, Option<V>>
  {
    if ops == [] then map[] else MapAfter(MapAfterAll(ops[..|ops| - 1]), ops[|ops| - 1])
  }

  /** No operation of the run meets 32 other live names. */
  ghost predicate WithinCapacity<V>(ops: seq<Op<V>>)
  {
    forall i :: 0 <= i < |ops| ==> Admits(MapAfterAll(ops[..i]), ops[i].name)
  }

  /** The last value set for the name and not unset since. */
  function LastSet<V>(ops: seq<Op<V>>, name: string): Option<V>
  {
    if ops == [] then None
    else
      var op := ops[|ops| - 1];
      if op.SetOp? && op.name == name then op.value
      else if op.UnsetOp? && op.name == name then None
      else LastSet(ops[..|ops| - 1], name)
  }

  lemma {:induction false} MapHoldsLastSet<V>(ops: seq<Op<V>>, name: string)
    ensures (if name in MapAfterAll(ops) then MapAfterAll(ops)[name] else None) == LastSet(ops, name)
  {
    if ops != [] {
      MapHoldsLastSet(ops[..|ops| - 1], name);
    }
  }

  /** The answer to the last call of a run. */
  function Answer<V>(ops: seq<Op<V>>): Option<V>
    requires ops != []
  {
    var op := ops[|ops| - 1];
    if op.GetOp? then LastSet(ops[..|ops| - 1], op.name) else None
  }

  method RunOp<V>(t: VarTable<V>, op: Op<V>) returns (result: Option<V>)
    requires t.Valid() && Admits(t.vars, op.name)
    modifies t, t.tab
    ensures t.Valid() && t.tab == old(t.tab)
    ensures t.vars == MapAfter(old(t.vars), op)
    ensures result == if op.GetOp? && op.name in old(t.vars) then old(t.vars)[op.name] else None
  {
    result := None;
    match op {
      case SetOp(n, v) => t.Set(n, v);
      case UnsetOp(n) => t.Unset(n);
      case GetOp(n) => result := t.Get(Some(n));
    }
  }

  /** What each call of a run answers. */
  function Answers<V>(ops: seq<Op<V>>): seq<Option<V>>
  {
    if ops == [] then [] else Answers(ops[..|ops| - 1]) + [Answer(ops)]
  }

  lemma {:induction false} AnswerAt<V>(ops: seq<Op<V>>, i: nat)
    requires i < |ops|
    ensures |Answers(ops)| == |ops| && Answers(ops)[i] == Answer(ops[..i + 1])
  {
    var front := ops[..|ops| - 1];
    if i < |front| {
      AnswerAt(front, i);
      assert front[..i + 1] == ops[..i + 1];
    } else {
      assert ops[..i + 1] == ops;
      if front != [] {
        AnswerAt(front, 0);
      }
    }
  }

  lemma OneMoreCall<V>(ops: seq<Op<V>>, i: nat)
    requires WithinCapacity(ops) && i < |ops|
    ensures Admits(MapAfterAll(ops[..i]), ops[i].name)
    ensures MapAfterAll(ops[..i + 1]) == MapAfter(MapAfterAll(ops[..i]), ops[i])
    ensures Answers(ops[..i + 1]) == Answers(ops[..i]) +
      [if ops[i].GetOp? && ops[i].name in MapAfterAll(ops[..i]) then MapAfterAll(ops[..i])[ops[i].name] else None]
  {
    assert ops[..i + 1][..i] == ops[..i];
    MapHoldsLastSet(ops[..i], ops[i].name);
  }

  /** Any run of calls on a new table, for any hash function: a call answers NULL unless it is a
      `get`, and then it answers with the last value set for the name and not unset since. */
  method RunTable<V>(hash: HashFunction, ops: seq<Op<V>>) returns (results: seq<Option<V>>)
    requires WithinCapacity(ops)
    ensures |results| == |ops|
    ensures forall i :: 0 <= i < |ops| ==> results[i] == Answer(ops[..i + 1])
  {
    var t := new VarTable<V>(hash);
    results := RunOps(t, ops);
    if ops != [] {
      AnswerAt(ops, 0);
    }
    forall i | 0 <= i < |ops| ensures results[i] == Answer(ops[..i + 1]) {
      AnswerAt(ops, i);
    }
  }

  method RunOps<V>(t: VarTable<V>, ops: seq<Op<V>>) returns (results: seq<Option<V>>)
    requires t.Valid() && t.vars == map[] && WithinCapacity(ops)
    modifies t, t.tab
    ensures results == Answers(ops)
  {
    results := [];
    for i := 0 to |ops|
      invariant t.Valid() && t.tab == old(t.tab)
      invariant t.vars == MapAfterAll(ops[..i])
      invariant results == Answers(ops[..i])
    {
      OneMoreCall(ops, i);
      var r := RunOp(t, ops[i]);
      results := results + [r];
    }
    assert ops[..|ops|] == ops;
  }
}
