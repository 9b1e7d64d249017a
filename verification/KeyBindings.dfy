/**
  The key bindings of src/ui/keys.c: a hash table whose names are key codes printed in
  hexadecimal.  Running a handler is a foreign call; here `process_key` answers which handler it
  dispatches to.
*/
module KeyBindings {
  import opened Options
  import opened HashTable

  type int32 = n: int | -0x8000_0000 <= n < 0x8000_0000

  datatype Handler =
    | Exit | Next | Prev | Select | Download | HighItem | MidItem | LowItem
    | RefreshAll | CatchupFeed | CatchupAll | ToggleRead | RedrawScreen | PrintKeyPairs

  // ---------------------------------------------------------------- printing key codes

  /** The argument of `%x`: a negative int is taken modulo 2^32. */
  function AsUnsigned(c: int32): uint32
  {
    if c < 0 then c + TWO_32 else c
  }

  /** Storing a long in a 32-bit `tchar_t`. */
  function AsSigned(n: int): int32
  {
    var low := n % TWO_32;
    if low < 0x8000_0000 then low else low - TWO_32
  }

  function HexDigit(d: nat): char
    requires d < 16
  {
    "0123456789abcdef"[d]
  }

  function HexValue(ch: char): Option<nat>
  {
    if '0' <= ch <= '9' then Some(ch as nat - '0' as nat)
    else if 'a' <= ch <= 'f' then Some(ch as nat - 'a' as nat + 10)
    else if 'A' <= ch <= 'F' then Some(ch as nat - 'A' as nat + 10)
    else None
  }

  /** `snprintf(s, 17, "%x", c)`. */
  function PrintHex(n: nat): string
  {
    if n < 16 then [HexDigit(n)] else PrintHex(n / 16) + [HexDigit(n % 16)]
  }

  /** `strtol(s, NULL, 16)` on a string without sign or prefix: digits up to the first other
      character, most significant first. */
  function ParseHex(s: string, acc: nat := 0): nat
    decreases |s|
  {
    if s == [] || HexValue(s[0]).None? then acc else ParseHex(s[1..], 16 * acc + HexValue(s[0]).value)
  }

  function KeyName(c: int32): string
  {
    PrintHex(AsUnsigned(c))
  }

  function NameKey(s: string): int32
  {
    AsSigned(ParseHex(s))
  }

  lemma HexDigitValue(d: nat)
    requires d < 16
    ensures HexValue(HexDigit(d)) == Some(d)
  {
    var s := "0123456789abcdef";
    if d < 10 {
      assert s[d] as nat == '0' as nat + d;
    } else {
      assert s[d] as nat == 'a' as nat + d - 10;
    }
  }

  lemma {:induction false} ParseHexAppend(s: string, d: nat, acc: nat)
    requires d < 16
    requires forall i :: 0 <= i < |s| ==> HexValue(s[i]).Some?
    ensures ParseHex(s + [HexDigit(d)], acc) == 16 * ParseHex(s, acc) + d
    decreases |s|
  {
    HexDigitValue(d);
    var t := s + [HexDigit(d)];
    if s == [] {
      assert t[1..] == [];
    } else {
      assert t[1..] == s[1..] + [HexDigit(d)];
      ParseHexAppend(s[1..], d, 16 * acc + HexValue(s[0]).value);
    }
  }

  lemma {:induction false} PrintThenParse(n: nat)
    ensures forall i :: 0 <= i < |PrintHex(n)| ==> HexValue(PrintHex(n)[i]).Some?
    ensures ParseHex(PrintHex(n)) == n
  {
    if n < 16 {
      HexDigitValue(n);
    } else {
      PrintThenParse(n / 16);
      HexDigitValue(n % 16);
      ParseHexAppend(PrintHex(n / 16), n % 16, 0);
    }
  }

  /** The 17 bytes of the name buffer hold every key code and its NUL. */
  lemma {:induction false} PrintFits(n: nat, digits: nat)
    requires 1 <= digits && n < Pow16(digits)
    ensures |PrintHex(n)| <= digits
  {
    if n >= 16 {
      assert digits > 1;
      PrintFits(n / 16, digits - 1);
    }
  }

  function Pow16(e: nat): nat { if e == 0 then 1 else 16 * Pow16(e - 1) }

  lemma Pow16Eight()
    ensures Pow16(8) == TWO_32
  {
    assert Pow16(1) == 16;
    assert Pow16(2) == 0x100;
    assert Pow16(3) == 0x1000;
    assert Pow16(4) == 0x1_0000;
    assert Pow16(5) == 0x10_0000;
    assert Pow16(6) == 0x100_0000;
    assert Pow16(7) == 0x1000_0000;
  }

  /** Printing a key code and reading it back is the identity, for negative codes too. */
  lemma KeyNameRoundTrip(c: int32)
    ensures NameKey(KeyName(c)) == c
    ensures |KeyName(c)| <= 8
  {
    PrintThenParse(AsUnsigned(c));
    KeyNameFits(c);
  }

  lemma KeyNameFits(c: int32)
    ensures |KeyName(c)| <= 8
  {
    Pow16Eight();
    PrintFits(AsUnsigned(c), 8);
  }

  /** Lower-case hexadecimal, and eight digits for a negative code. */
  lemma KeyNameExamples()
    ensures KeyName('q' as int32) == "71" && KeyName('j' as int32) == "6a" && KeyName(-1) == "ffffffff"
  {
    NextDigit(7, 1);
    NextDigit(6, 10);
    NextDigit(0xf, 15);
    NextDigit(0xff, 15);
    NextDigit(0xfff, 15);
    NextDigit(0xffff, 15);
    NextDigit(0xf_ffff, 15);
    NextDigit(0xff_ffff, 15);
    NextDigit(0xfff_ffff, 15);
    assert PrintHex(0xf) == "f" && PrintHex(7) == "7" && PrintHex(6) == "6";
  }

  lemma NextDigit(n: nat, d: nat)
    requires n > 0 && d < 16
    ensures PrintHex(16 * n + d) == PrintHex(n) + [HexDigit(d)]
  {
  }

  lemma KeyNamesDiffer(c: int32, c': int32)
    requires c != c'
    ensures KeyName(c) != KeyName(c')
  {
    KeyNameRoundTrip(c);
    KeyNameRoundTrip(c');
  }

  // ---------------------------------------------------------------- the bindings

  /** The table's names are exactly the printed key codes of `keys`. */
  ghost predicate Encodes(vars: map<string, Option<Handler>>, keys: map<int32, Handler>)
  {
    && (forall c :: c in keys ==> KeyName(c) in vars && vars[KeyName(c)] == Some(keys[c]))
    && (forall n :: n in vars ==> NameKey(n) in keys && n == KeyName(NameKey(n)))
  }

  lemma EncodesLookup(vars: map<string, Option<Handler>>, keys: map<int32, Handler>, c: int32)
    requires Encodes(vars, keys)
    ensures KeyName(c) in vars <==> c in keys
  {
    KeyNameRoundTrip(c);
  }

  lemma EncodesBind(vars: map<string, Option<Handler>>, keys: map<int32, Handler>, c: int32, h: Handler)
    requires Encodes(vars, keys)
    ensures Encodes(vars[KeyName(c) := Some(h)], keys[c := h])
  {
    KeyNameRoundTrip(c);
    forall c' | c' in keys && c' != c ensures KeyName(c') != KeyName(c) {
      KeyNamesDiffer(c, c');
    }
  }

  lemma EncodesUnbind(vars: map<string, Option<Handler>>, keys: map<int32, Handler>, c: int32)
    requires Encodes(vars, keys)
    ensures Encodes(vars - {KeyName(c)}, keys - {c})
  {
    KeyNameRoundTrip(c);
    forall c' | c' in keys && c' != c ensures KeyName(c') != KeyName(c) {
      KeyNamesDiffer(c, c');
    }
  }

  lemma AdmitsKey(vars: map<string, Option<Handler>>, keys: map<int32, Handler>, c: int32)
    requires Encodes(vars, keys)
    ensures Admits(vars, KeyName(c)) <==> c in keys || |keys| < INITIAL_LOCTAB_SIZE
    ensures KeyName(c) in vars <==> c in keys
  {
    EncodesLookup(vars, keys, c);
    EncodesSize(vars, keys);
  }

  /** A printed table and its key map have the same size. */
  lemma EncodesSize(vars: map<string, Option<Handler>>, keys: map<int32, Handler>)
    requires Encodes(vars, keys)
    ensures |vars| == |keys|
    decreases |keys|
  {
    if keys.Keys == {} {
      assert vars.Keys == {};
    } else {
      var c :| c in keys.Keys;
      EncodesUnbind(vars, keys, c);
      EncodesSize(vars - {KeyName(c)}, keys - {c});
      assert (keys - {c}).Keys == keys.Keys - {c};
      assert (vars - {KeyName(c)}).Keys == vars.Keys - {KeyName(c)};
    }
  }

  const DEFAULT_KEYS: seq<(int32, Handler)> := [
    ('q' as int32, Exit), ('j' as int32, Next), ('k' as int32, Prev), ('L' as int32, LowItem),
    ('M' as int32, MidItem), ('H' as int32, HighItem), ('o' as int32, Select), ('D' as int32, Download),
    ('R' as int32, RefreshAll), ('A' as int32, CatchupFeed), ('C' as int32, CatchupAll),
    ('N' as int32, ToggleRead), ('W' as int32, RedrawScreen), ('?' as int32, PrintKeyPairs)]

  function BindAll(pairs: seq<(int32, Handler)>): map<int32, Handler>
  {
    if pairs == [] then map[]
    else BindAll(pairs[..|pairs| - 1])[pairs[|pairs| - 1].0 := pairs[|pairs| - 1].1]
  }

  /** The key of an operation before any configuration. */
  function DefaultKey(h: Handler): char
  {
    match h
    case Exit => 'q' case Next => 'j' case Prev => 'k' case LowItem => 'L' case MidItem => 'M'
    case HighItem => 'H' case Select => 'o' case Download => 'D' case RefreshAll => 'R' case CatchupFeed => 'A'
    case CatchupAll => 'C' case ToggleRead => 'N' case RedrawScreen => 'W' case PrintKeyPairs => '?'
  }

  function DefaultPosition(h: Handler): nat
  {
    match h
    case Exit => 0 case Next => 1 case Prev => 2 case LowItem => 3 case MidItem => 4 case HighItem => 5
    case Select => 6 case Download => 7 case RefreshAll => 8 case CatchupFeed => 9 case CatchupAll => 10
    case ToggleRead => 11 case RedrawScreen => 12 case PrintKeyPairs => 13
  }

  lemma DefaultKeysDo(h: Handler)
    ensures Lookup(BindAll(DEFAULT_KEYS), DefaultKey(h) as int32) == Some(h)
  {
    DefaultKeysDiffer();
    DefaultKeyAt(h);
    BoundInAll(DEFAULT_KEYS, DefaultPosition(h));
  }

  lemma DefaultKeyAt(h: Handler)
    ensures DefaultPosition(h) < |DEFAULT_KEYS| && DEFAULT_KEYS[DefaultPosition(h)] == (DefaultKey(h) as int32, h)
  {
  }

  lemma DefaultKeysDiffer()
    ensures KeysDiffer(DEFAULT_KEYS)
  {
  }

  /** If no two pairs name the same key, every pair is bound. */
  lemma {:induction false} BoundInAll(pairs: seq<(int32, Handler)>, i: nat)
    requires i < |pairs| && KeysDiffer(pairs)
    ensures Lookup(BindAll(pairs), pairs[i].0) == Some(pairs[i].1)
  {
    var front := pairs[..|pairs| - 1];
    if i < |front| {
      BoundInAll(front, i);
      assert pairs[i].0 != pairs[|pairs| - 1].0;
    }
  }

  lemma {:induction false} BindAllSize(pairs: seq<(int32, Handler)>)
    ensures |BindAll(pairs)| <= |pairs|
  {
    if pairs != [] {
      var front, last := pairs[..|pairs| - 1], pairs[|pairs| - 1];
      BindAllSize(front);
      assert BindAll(pairs).Keys == BindAll(front).Keys + {last.0};
    }
  }

  class KeyMap {
    var table: VarTable<Handler>
    ghost var keys: map<int32, Handler>

    ghost predicate Valid()
      reads this, table, table.tab
    {
      table.Valid() && Encodes(table.vars, keys)
    }

    /** The table has room for this key: it is bound, or fewer than 32 keys are. */
    ghost predicate Admitted(c: int32)
      reads this
    {
      c in keys || |keys| < INITIAL_LOCTAB_SIZE
    }

    /** `bind_defaults`. */
    constructor (hash: HashFunction)
      ensures Valid() && fresh(table) && fresh(table.tab)
      ensures keys == BindAll(DEFAULT_KEYS)
    {
      table := new VarTable<Handler>(hash);
      keys := map[];
      new;
      BindEach(DEFAULT_KEYS);
    }

    method BindEach(pairs: seq<(int32, Handler)>)
      requires Valid() && keys == map[] && |pairs| <= INITIAL_LOCTAB_SIZE
      modifies this, table, table.tab
      ensures Valid() && table == old(table) && table.tab == old(table.tab)
      ensures keys == BindAll(pairs)
    {
      for i := 0 to |pairs|
        invariant Valid() && table == old(table) && table.tab == old(table.tab)
        invariant keys == BindAll(pairs[..i])
      {
        BindAllSize(pairs[..i]);
        BindKey(pairs[i].0, pairs[i].1);
        assert pairs[..i + 1][..i] == pairs[..i];
      }
      assert pairs[..|pairs|] == pairs;
    }

    method BindKey(c: int32, handler: Handler)
      requires Valid() && Admitted(c)
      modifies this`keys, table, table.tab
      ensures Valid() && table == old(table) && table.tab == old(table.tab)
      ensures keys == old(keys)[c := handler]
    {
      AdmitsKey(table.vars, keys, c);
      EncodesBind(table.vars, keys, c, handler);
      Store(KeyName(c), handler, keys[c := handler]);
    }

    /** `set_hash_var` under a printed key code. */
    method Store(name: string, handler: Handler, ghost bound: map<int32, Handler>)
      requires table.Valid() && Admits(table.vars, name)
      requires Encodes(table.vars[name := Some(handler)], bound)
      modifies this`keys, table, table.tab
      ensures Valid() && table == old(table) && table.tab == old(table.tab) && keys == bound
    {
      table.Set(name, Some(handler));
      keys := bound;
    }

    method UnbindKey(c: int32)
      requires Valid() && Admitted(c)
      modifies this, table, table.tab
      ensures Valid() && table == old(table) && table.tab == old(table.tab)
      ensures keys == old(keys) - {c}
    {
      AdmitsKey(table.vars, keys, c);
      EncodesUnbind(table.vars, keys, c);
      Forget(KeyName(c), keys - {c});
    }

    /** `unset_hash_var` of a printed key code. */
    method Forget(name: string, ghost left: map<int32, Handler>)
      requires table.Valid() && Admits(table.vars, name)
      requires Encodes(table.vars - {name}, left)
      modifies this`keys, table, table.tab
      ensures Valid() && table == old(table) && table.tab == old(table.tab) && keys == left
    {
      table.Unset(name);
      keys := left;
    }

    /** The slot of a key, without asking whether there is one. */
    method FindKey(c: int32) returns (index: int)
      requires Valid()
      ensures index == -1 <==> c !in keys && |keys| == INITIAL_LOCTAB_SIZE
    {
      AdmitsKey(table.vars, keys, c);
      FullIffThirtyTwo(table.tab[..], table.hash, table.vars);
      EncodesSize(table.vars, keys);
      index := table.FindHash(KeyName(c), table.hash(KeyName(c)));
    }

    /** The handler `process_key` calls, or None for KH_RET_NO_HANDLER. */
    method ProcessKey(c: int32) returns (handler: Option<Handler>)
      requires Valid() && Admitted(c)
      ensures handler == if c in keys then Some(keys[c]) else None
    {
      AdmitsKey(table.vars, keys, c);
      handler := table.Get(Some(KeyName(c)));
    }

    /** The bindings met by the help screen and the footer: every one, exactly once. */
    method Bindings() returns (pairs: seq<(int32, Handler)>)
      requires Valid()
      ensures KeysDiffer(pairs)
      ensures forall c, h :: (c, h) in pairs <==> c in keys && keys[c] == h
      ensures InTableOrder(pairs)
    {
      var entries := Walk(table);
      LivePairsExact(table.tab[..], table.vars);
      pairs := Decode(entries);
      DecodedPairs(table.vars, keys, entries, pairs);
    }

    /** One pair per live slot, in the order of the slots. */
    ghost predicate InTableOrder(pairs: seq<(int32, Handler)>)
      reads table, table.tab, this`table
    {
      && |pairs| == |LivePairs(table.tab[..])|
      && forall i :: 0 <= i < |pairs| ==> Decoded(LivePairs(table.tab[..])[i], pairs[i])
    }

    /** The keys shown in the footer by `set_foot_help_string`: a blank for an operation that no
        key is bound to. */
    method FootHelpKeys() returns (exitKey: int32, helpKey: int32)
      requires Valid()
      ensures if Exit in keys.Values then exitKey in keys && keys[exitKey] == Exit else exitKey == ' ' as int32
      ensures if PrintKeyPairs in keys.Values then helpKey in keys && keys[helpKey] == PrintKeyPairs
              else helpKey == ' ' as int32
    {
      var pairs := Bindings();
      exitKey, helpKey := ScanFooter(pairs);
      FooterKeyMeaning(pairs, keys, Exit, exitKey);
      FooterKeyMeaning(pairs, keys, PrintKeyPairs, helpKey);
    }

    /** What `handle_print_key_pairs` writes: one line per binding whose handler it finds, in the
        order of the slots. */
    method HelpLines(names: seq<(string, Option<Handler>)>)
      returns (lines: seq<(int32, string)>, ghost pairs: seq<(int32, Handler)>)
      requires Valid()
      ensures InTableOrder(pairs) && lines == HelpFor(names, pairs)
      ensures KeysDiffer(lines) && InOrderOf(lines, pairs)
      ensures forall c, n :: (c, n) in lines <==> c in keys && Listed(names, keys[c]) == Some(n)
    {
      var bound := Bindings();
      pairs := bound;
      lines := ScanHelp(names, bound);
      HelpForMembers(names, pairs, keys);
      HelpForOnce(names, pairs);
      ghost var at := HelpForOrder(names, pairs);
    }
  }

  /** The loop over `next_uikey_pair` from offset 0 until it answers NULL. */
  method Walk(table: VarTable<Handler>) returns (entries: seq<(string, Option<Handler>)>)
    requires table.Valid() && None !in table.vars.Values
    ensures entries == LivePairs(table.tab[..])
  {
    entries := [];
    var off := 0;
    while true
      invariant 0 <= off <= table.tab.Length
      invariant entries == LivePairs(table.tab[..off])
      decreases table.tab.Length - off
    {
      var p, name, next := table.NextPair(off);
      if p.None? {
        assert name.Some? ==> name.value in table.vars && table.vars[name.value] == None;
        SkipDead(table.tab[..], off, table.tab.Length);
        assert table.tab[..][..table.tab.Length] == table.tab[..];
        assert table.tab[..][..off] == table.tab[..off];
        return;
      }
      NextLive(table.tab[..], off, next - 1);
      assert table.tab[..][..next] == table.tab[..next];
      assert table.tab[..][..off] == table.tab[..off];
      entries := entries + [(name.value, p)];
      off := next;
    }
  }

  /** Each name is read back with `strtol(name, NULL, 16)`. */
  function Decode(entries: seq<(string, Option<Handler>)>): (pairs: seq<(int32, Handler)>)
    requires forall i :: 0 <= i < |entries| ==> entries[i].1.Some?
    ensures |pairs| == |entries|
    ensures forall i :: 0 <= i < |pairs| ==> Decoded(entries[i], pairs[i])
  {
    seq(|entries|, i requires 0 <= i < |entries| => (NameKey(entries[i].0), entries[i].1.value))
  }

  method ScanFooter(pairs: seq<(int32, Handler)>) returns (exitKey: int32, helpKey: int32)
    ensures FooterKey(pairs, Exit, exitKey)
    ensures FooterKey(pairs, PrintKeyPairs, helpKey)
  {
    exitKey, helpKey := ' ' as int32, ' ' as int32;
    for i := 0 to |pairs|
      invariant FooterKey(pairs[..i], Exit, exitKey)
      invariant FooterKey(pairs[..i], PrintKeyPairs, helpKey)
    {
      assert pairs[..i + 1] == pairs[..i] + [pairs[i]];
      match pairs[i].1 {
        case Exit => exitKey := pairs[i].0;
        case PrintKeyPairs => helpKey := pairs[i].0;
        case _ =>
      }
    }
    assert pairs[..|pairs|] == pairs;
  }

  method ScanHelp(names: seq<(string, Option<Handler>)>, pairs: seq<(int32, Handler)>)
    returns (lines: seq<(int32, string)>)
    ensures lines == HelpFor(names, pairs)
  {
    lines := [];
    for k := 0 to |pairs|
      invariant lines == HelpFor(names, pairs[..k])
    {
      assert pairs[..k + 1][..k] == pairs[..k];
      var i := 0;
      while i < |names| && names[i].1.Some? && names[i].1.value != pairs[k].1
        invariant 0 <= i <= |names|
        invariant Listed(names, pairs[k].1) == Listed(names[i..], pairs[k].1)
      {
        i := i + 1;
      }
      if i < |names| && names[i].1.Some? {
        lines := lines + [(pairs[k].0, names[i].0)];
      }
    }
    assert pairs[..|pairs|] == pairs;
  }

  function HelpFor(names: seq<(string, Option<Handler>)>, pairs: seq<(int32, Handler)>): seq<(int32, string)>
  {
    if pairs == [] then []
    else
      var (c, h) := pairs[|pairs| - 1];
      var name := Listed(names, h);
      HelpFor(names, pairs[..|pairs| - 1]) + if name.Some? then [(c, name.value)] else []
  }

  lemma {:induction false} HelpForPairs(names: seq<(string, Option<Handler>)>, pairs: seq<(int32, Handler)>)
    ensures forall l :: l in HelpFor(names, pairs) <==>
      exists p :: p in pairs && p.0 == l.0 && Listed(names, p.1) == Some(l.1)
  {
    if pairs != [] {
      HelpForPairs(names, pairs[..|pairs| - 1]);
      assert pairs == pairs[..|pairs| - 1] + [pairs[|pairs| - 1]];
    }
  }

  ghost predicate KeysDiffer<T>(lines: seq<(int32, T)>)
  {
    forall i, j :: 0 <= i < j < |lines| ==> lines[i].0 != lines[j].0
  }

  lemma {:induction false} HelpForOnce(names: seq<(string, Option<Handler>)>, pairs: seq<(int32, Handler)>)
    requires KeysDiffer(pairs)
    ensures KeysDiffer(HelpFor(names, pairs))
  {
    if pairs != [] {
      var front, c := pairs[..|pairs| - 1], pairs[|pairs| - 1].0;
      HelpForOnce(names, front);
      HelpForPairs(names, front);
      var lines := HelpFor(names, front);
      forall i | 0 <= i < |lines| ensures lines[i].0 != c {
        assert lines[i] in lines;
        var p :| p in front && p.0 == lines[i].0;
        var k :| 0 <= k < |front| && front[k] == p;
        assert pairs[k] == p;
      }
    }
  }

  /** The lines of the help screen are the lines of some of the pairs, in their order. */
  ghost predicate InOrderOf<S, T>(lines: seq<(int32, S)>, pairs: seq<(int32, T)>)
  {
    exists at: seq<nat> :: PlacedAt(lines, pairs, at)
  }

  ghost predicate PlacedAt<S, T>(lines: seq<(int32, S)>, pairs: seq<(int32, T)>, at: seq<nat>)
  {
    && |at| == |lines|
    && (forall i :: 0 <= i < |at| ==> at[i] < |pairs| && pairs[at[i]].0 == lines[i].0)
    && (forall i, j :: 0 <= i < j < |at| ==> at[i] < at[j])
  }

  lemma {:induction false} HelpForOrder(names: seq<(string, Option<Handler>)>, pairs: seq<(int32, Handler)>)
    returns (at: seq<nat>)
    ensures PlacedAt(HelpFor(names, pairs), pairs, at)
  {
    at := [];
    if pairs != [] {
      var front, last := pairs[..|pairs| - 1], pairs[|pairs| - 1];
      var before := HelpForOrder(names, front);
      PlacedBefore(HelpFor(names, front), pairs, before);
      var name := Listed(names, last.1);
      if name.Some? {
        at := OneMorePlaced(HelpFor(names, front), pairs, before, (last.0, name.value));
      } else {
        at := before;
        assert HelpFor(names, pairs) == HelpFor(names, front);
      }
    }
  }

  lemma PlacedBefore<S, T>(lines: seq<(int32, S)>, pairs: seq<(int32, T)>, at: seq<nat>)
    requires pairs != [] && PlacedAt(lines, pairs[..|pairs| - 1], at)
    ensures PlacedAt(lines, pairs, at) && forall i :: 0 <= i < |at| ==> at[i] < |pairs| - 1
  {
  }

  lemma OneMorePlaced<S, T>(lines: seq<(int32, S)>, pairs: seq<(int32, T)>, at: seq<nat>, line: (int32, S))
    returns (at': seq<nat>)
    requires pairs != [] && PlacedAt(lines, pairs, at) && forall i :: 0 <= i < |at| ==> at[i] < |pairs| - 1
    requires line.0 == pairs[|pairs| - 1].0
    ensures PlacedAt(lines + [line], pairs, at')
  {
    at' := at + [|pairs| - 1];
  }

  lemma HelpForMembers(names: seq<(string, Option<Handler>)>, pairs: seq<(int32, Handler)>, keys: map<int32, Handler>)
    requires forall c, h :: (c, h) in pairs <==> c in keys && keys[c] == h
    ensures forall c, n :: (c, n) in HelpFor(names, pairs) <==> c in keys && Listed(names, keys[c]) == Some(n)
  {
    HelpForPairs(names, pairs);
    forall c, n ensures (c, n) in HelpFor(names, pairs) <==> c in keys && Listed(names, keys[c]) == Some(n) {
      if c in keys && Listed(names, keys[c]) == Some(n) {
        var p := (c, keys[c]);
        assert p in pairs && p.0 == (c, n).0;
      }
      if (c, n) in HelpFor(names, pairs) {
        var p :| p in pairs && p.0 == (c, n).0 && Listed(names, p.1) == Some((c, n).1);
        assert (p.0, p.1) in pairs;
      }
    }
  }

  lemma FooterKeyMeaning(pairs: seq<(int32, Handler)>, keys: map<int32, Handler>, h: Handler, key: int32)
    requires FooterKey(pairs, h, key)
    requires forall c, h :: (c, h) in pairs <==> c in keys && keys[c] == h
    ensures if h in keys.Values then key in keys && keys[key] == h else key == ' ' as int32
  {
    if h in keys.Values {
      var c :| c in keys && keys[c] == h;
      assert (c, h) in pairs;
    }
  }

  ghost predicate FooterKey(pairs: seq<(int32, Handler)>, h: Handler, key: int32)
  {
    || ((key, h) in pairs)
    || (key == ' ' as int32 && forall i :: 0 <= i < |pairs| ==> pairs[i].1 != h)
  }

  ghost predicate Decoded(entry: (string, Option<Handler>), pair: (int32, Handler))
  {
    pair.0 == NameKey(entry.0) && entry.1 == Some(pair.1)
  }

  lemma DecodedPairs(vars: map<string, Option<Handler>>, keys: map<int32, Handler>,
                     entries: seq<(string, Option<Handler>)>, pairs: seq<(int32, Handler)>)
    requires Encodes(vars, keys)
    requires |entries| == |pairs| && forall i :: 0 <= i < |pairs| ==> Decoded(entries[i], pairs[i])
    requires forall i, j :: 0 <= i < j < |entries| ==> entries[i].0 != entries[j].0
    requires forall n, v :: (n, v) in entries <==> n in vars && vars[n] == v
    ensures KeysDiffer(pairs)
    ensures forall c, h :: (c, h) in pairs <==> c in keys && keys[c] == h
  {
    forall i | 0 <= i < |pairs|
      ensures entries[i].0 == KeyName(pairs[i].0) && pairs[i].0 in keys && keys[pairs[i].0] == pairs[i].1
    {
      assert (entries[i].0, entries[i].1) in entries;
    }
    forall c, h | c in keys && keys[c] == h ensures (c, h) in pairs {
      KeyNameRoundTrip(c);
      assert (KeyName(c), Some(h)) in entries;
      var i :| 0 <= i < |entries| && entries[i] == (KeyName(c), Some(h));
      assert pairs[i] == (c, h);
    }
  }

  // ---------------------------------------------------------------- runs

  datatype KeyOp = Bind(key: int32, handler: Handler) | Unbind(key: int32) | Press(key: int32)

  /** The bindings after a run of calls. */
  function KeysAfter(start: map<int32, Handler>, ops: seq<KeyOp>): map<int32, Handler>
  {
    if ops == [] then start
    else
      var keys := KeysAfter(start, ops[..|ops| - 1]);
      match ops[|ops| - 1]
      case Bind(c, h) => keys[c := h]
      case Unbind(c) => keys - {c}
      case Press(_) => keys
  }

  function Lookup(keys: map<int32, Handler>, c: int32): Option<Handler>
  {
    if c in keys then Some(keys[c]) else None
  }

  /** The last handler bound to the key and not since unbound. */
  function LastBound(start: map<int32, Handler>, ops: seq<KeyOp>, c: int32): Option<Handler>
  {
    if ops == [] then Lookup(start, c)
    else
      var op := ops[|ops| - 1];
      if op.Bind? && op.key == c then Some(op.handler)
      else if op.Unbind? && op.key == c then None
      else LastBound(start, ops[..|ops| - 1], c)
  }

  lemma {:induction false} KeysHoldLastBound(start: map<int32, Handler>, ops: seq<KeyOp>, c: int32)
    ensures Lookup(KeysAfter(start, ops), c) == LastBound(start, ops, c)
  {
    if ops != [] {
      KeysHoldLastBound(start, ops[..|ops| - 1], c);
    }
  }

  /** Every key met by the run is bound, or fewer than 32 keys are. */
  ghost predicate KeysFit(start: map<int32, Handler>, ops: seq<KeyOp>)
  {
    forall i :: 0 <= i < |ops| ==>
      ops[i].key in KeysAfter(start, ops[..i]) || |KeysAfter(start, ops[..i])| < INITIAL_LOCTAB_SIZE
  }

  /** What each call of a run dispatches. */
  function Dispatches(start: map<int32, Handler>, ops: seq<KeyOp>): seq<Option<Handler>>
  {
    if ops == [] then []
    else
      var front, op := ops[..|ops| - 1], ops[|ops| - 1];
      Dispatches(start, front) + [if op.Press? then LastBound(start, front, op.key) else None]
  }

  lemma {:induction false} DispatchAt(start: map<int32, Handler>, ops: seq<KeyOp>, i: nat)
    requires i < |ops|
    ensures |Dispatches(start, ops)| == |ops|
    ensures Dispatches(start, ops)[i] == if ops[i].Press? then LastBound(start, ops[..i], ops[i].key) else None
  {
    var front := ops[..|ops| - 1];
    if i < |front| {
      DispatchAt(start, front, i);
      assert front[..i] == ops[..i];
    } else if front != [] {
      DispatchAt(start, front, 0);
    }
  }

  lemma OneMoreKey(start: map<int32, Handler>, ops: seq<KeyOp>, i: nat)
    requires KeysFit(start, ops) && i < |ops|
    ensures ops[i].key in KeysAfter(start, ops[..i]) || |KeysAfter(start, ops[..i])| < INITIAL_LOCTAB_SIZE
    ensures KeysAfter(start, ops[..i + 1]) ==
      match ops[i] case Bind(c, h) => KeysAfter(start, ops[..i])[c := h]
                   case Unbind(c) => KeysAfter(start, ops[..i]) - {c}
                   case Press(_) => KeysAfter(start, ops[..i])
    ensures Dispatches(start, ops[..i + 1]) == Dispatches(start, ops[..i]) +
      [if ops[i].Press? then Lookup(KeysAfter(start, ops[..i]), ops[i].key) else None]
  {
    assert ops[..i + 1][..i] == ops[..i];
    NextDispatch(start, ops[..i + 1], ops[..i], ops[i]);
  }

  lemma NextDispatch(start: map<int32, Handler>, ops: seq<KeyOp>, front: seq<KeyOp>, op: KeyOp)
    requires |ops| == |front| + 1 && ops[..|front|] == front && ops[|front|] == op
    ensures Dispatches(start, ops) == Dispatches(start, front) +
      [if op.Press? then Lookup(KeysAfter(start, front), op.key) else None]
  {
    KeysHoldLastBound(start, front, op.key);
  }

  /** Any run that starts with `bind_defaults` and stays within the table's capacity: each press
      dispatches to the last handler bound to its key and not since unbound, and the other calls
      dispatch nothing. */
  method RunKeys(hash: HashFunction, ops: seq<KeyOp>) returns (dispatched: seq<Option<Handler>>)
    requires KeysFit(BindAll(DEFAULT_KEYS), ops)
    ensures |dispatched| == |ops|
    ensures forall i :: 0 <= i < |ops| ==>
      dispatched[i] == if ops[i].Press? then LastBound(BindAll(DEFAULT_KEYS), ops[..i], ops[i].key) else None
  {
    var m := new KeyMap(hash);
    ghost var start := m.keys;
    dispatched := RunFrom(m, start, ops);
    assert ops == [] ==> dispatched == [];
    forall i | 0 <= i < |ops|
      ensures |dispatched| == |ops|
      ensures dispatched[i] == if ops[i].Press? then LastBound(start, ops[..i], ops[i].key) else None
    {
      DispatchAt(start, ops, i);
    }
  }

  method RunFrom(m: KeyMap, ghost start: map<int32, Handler>, ops: seq<KeyOp>)
    returns (dispatched: seq<Option<Handler>>)
    requires m.Valid() && m.keys == start && KeysFit(start, ops)
    modifies m, m.table, m.table.tab
    ensures m.Valid() && m.keys == KeysAfter(start, ops)
    ensures dispatched == Dispatches(start, ops)
  {
    dispatched := [];
    for i := 0 to |ops|
      invariant m.Valid() && m.table == old(m.table) && m.table.tab == old(m.table.tab)
      invariant m.keys == KeysAfter(start, ops[..i])
      invariant dispatched == Dispatches(start, ops[..i])
    {
      OneMoreKey(start, ops, i);
      var d := RunKey(m, ops[i]);
      dispatched := dispatched + [d];
    }
    assert ops[..|ops|] == ops;
  }

  method RunKey(m: KeyMap, op: KeyOp) returns (dispatched: Option<Handler>)
    requires m.Valid() && m.Admitted(op.key)
    modifies m, m.table, m.table.tab
    ensures m.Valid() && m.table == old(m.table) && m.table.tab == old(m.table.tab)
    ensures m.keys == match op case Bind(c, h) => old(m.keys)[c := h]
                               case Unbind(c) => old(m.keys) - {c}
                               case Press(_) => old(m.keys)
    ensures dispatched == if op.Press? then Lookup(old(m.keys), op.key) else None
  {
    dispatched := None;
    match op {
      case Bind(c, h) => m.BindKey(c, h);
      case Unbind(c) => m.UnbindKey(c);
      case Press(c) => dispatched := m.ProcessKey(c);
    }
  }

  // ---------------------------------------------------------------- a full table

  lemma {:induction false} BindAllExact(pairs: seq<(int32, Handler)>)
    requires KeysDiffer(pairs)
    ensures |BindAll(pairs)| == |pairs|
    ensures forall c :: c in BindAll(pairs) ==> exists i :: 0 <= i < |pairs| && pairs[i].0 == c
  {
    if pairs != [] {
      var front, last := pairs[..|pairs| - 1], pairs[|pairs| - 1];
      BindAllExact(front);
      assert last.0 !in BindAll(front);
      assert BindAll(pairs).Keys == BindAll(front).Keys + {last.0};
      forall c | c in BindAll(pairs) ensures exists i :: 0 <= i < |pairs| && pairs[i].0 == c {
        if c in BindAll(front) {
          var i :| 0 <= i < |front| && front[i].0 == c;
          assert pairs[i].0 == c;
        }
      }
    }
  }

  /** The default keys are 14 different ASCII characters. */
  lemma DefaultKeysAre14()
    ensures |BindAll(DEFAULT_KEYS)| == 14
    ensures forall c :: c in BindAll(DEFAULT_KEYS) ==> c < 128
  {
    BindAllExact(DEFAULT_KEYS);
  }

  const MORE_KEYS: nat := INITIAL_LOCTAB_SIZE - 14

  /** Binds of further keys, none of them ASCII. */
  function MoreBinds(k: nat): (ops: seq<KeyOp>)
    requires k <= MORE_KEYS
    ensures |ops| == k && forall i :: 0 <= i < k ==> ops[i] == Bind(128 + i, Next)
  {
    if k == 0 then [] else MoreBinds(k - 1) + [Bind(128 + k - 1, Next)]
  }

  lemma {:induction false} MoreBindsPrefix(k: nat, i: nat)
    requires i <= k <= MORE_KEYS
    ensures MoreBinds(k)[..i] == MoreBinds(i)
  {
    if i < k {
      MoreBindsPrefix(k - 1, i);
      assert MoreBinds(k)[..i] == MoreBinds(k - 1)[..i];
    }
  }

  lemma {:induction false} MoreKeysBound(start: map<int32, Handler>, k: nat)
    requires |start| == 14 && (forall c :: c in start ==> c < 128) && k <= MORE_KEYS
    ensures |KeysAfter(start, MoreBinds(k))| == 14 + k
    ensures forall c :: c in KeysAfter(start, MoreBinds(k)) ==> c < 128 + k
  {
    if k > 0 {
      MoreKeysBound(start, k - 1);
      var front := KeysAfter(start, MoreBinds(k - 1));
      assert MoreBinds(k)[..k - 1] == MoreBinds(k - 1);
      assert KeysAfter(start, MoreBinds(k)) == front[128 + k - 1 := Next];
      assert front[128 + k - 1 := Next].Keys == front.Keys + {128 + k - 1};
    }
  }

  lemma MoreKeysFit(start: map<int32, Handler>, k: nat)
    requires |start| == 14 && (forall c :: c in start ==> c < 128) && k <= MORE_KEYS
    ensures KeysFit(start, MoreBinds(k))
  {
    forall i | 0 <= i < k ensures |KeysAfter(start, MoreBinds(k)[..i])| < INITIAL_LOCTAB_SIZE {
      MoreBindsPrefix(k, i);
      MoreKeysBound(start, i);
    }
  }

  lemma FullAfterMoreBinds(start: map<int32, Handler>)
    requires start == BindAll(DEFAULT_KEYS)
    ensures KeysFit(start, MoreBinds(18)) && |KeysAfter(start, MoreBinds(18))| == INITIAL_LOCTAB_SIZE
  {
    DefaultKeysAre14();
    MoreKeysBound(start, 18);
    MoreKeysFit(start, 18);
  }

  /** Eighteen further binds leave no room: pressing any unbound key then asks for a slot that does
      not exist. */
  lemma EighteenBindsFillTheTable(c: int32)
    requires c !in KeysAfter(BindAll(DEFAULT_KEYS), MoreBinds(18))
    ensures KeysFit(BindAll(DEFAULT_KEYS), MoreBinds(18))
    ensures !KeysFit(BindAll(DEFAULT_KEYS), MoreBinds(18) + [Press(c)])
  {
    FullAfterMoreBinds(BindAll(DEFAULT_KEYS));
    var ops := MoreBinds(18) + [Press(c)];
    assert ops[..18] == MoreBinds(18);
    assert ops[18].key == c;
  }

  /** The code in that situation: `find_hash` answers -1, which `get_hash_var` uses as an index. */
  method LookUpInFullTable(hash: HashFunction, c: int32) returns (index: int)
    ensures index == -1 <==> c !in KeysAfter(BindAll(DEFAULT_KEYS), MoreBinds(18))
  {
    var m := new KeyMap(hash);
    ghost var start := m.keys;
    FullAfterMoreBinds(start);
    var dispatched := RunFrom(m, start, MoreBinds(18));
    index := m.FindKey(c);
  }

  // ---------------------------------------------------------------- operation names

  const HANDLER_NAMES: seq<(string, Option<Handler>)> := [
    ("exit", Some(Exit)), ("next", Some(Next)), ("prev", Some(Prev)), ("select", Some(Select)),
    ("download", Some(Download)), ("high-item", Some(HighItem)), ("mid-item", Some(MidItem)),
    ("low-item", Some(LowItem)), ("reload-all", Some(RefreshAll)), ("mark-feed-read", Some(CatchupFeed)),
    ("mark-all-feeds-read", Some(CatchupAll)), ("toggle-article-read", Some(ToggleRead)),
    ("redraw-screen", Some(RedrawScreen)), ("help", Some(PrintKeyPairs))]

  /** `unset_handler`: every entry of that name loses its handler. */
  function UnsetHandler(names: seq<(string, Option<Handler>)>, name: string): (r: seq<(string, Option<Handler>)>)
  {
    if names == [] then []
    else [(names[0].0, if names[0].0 == name then None else names[0].1)] + UnsetHandler(names[1..], name)
  }

  /** The name under which the help screen lists a handler.  Its scan stops at the first entry
      without a handler, not at the end of the table. */
  function Listed(names: seq<(string, Option<Handler>)>, h: Handler): Option<string>
  {
    if names == [] || names[0].1.None? then None
    else if names[0].1.value == h then Some(names[0].0)
    else Listed(names[1..], h)
  }

  /** The scan finds the handler at `i` when no earlier entry holds it or is empty. */
  lemma {:induction false} ListedAt(names: seq<(string, Option<Handler>)>, h: Handler, i: nat)
    requires i < |names|
    requires forall j :: 0 <= j < i ==> names[j].1.Some? && names[j].1 != Some(h)
    requires names[i].1 == Some(h) || names[i].1 == None
    ensures Listed(names, h) == if names[i].1 == None then None else Some(names[i].0)
  {
    if i > 0 {
      ListedAt(names[1..], h, i - 1);
    }
  }

  lemma {:induction false} UnsetHandlerAt(names: seq<(string, Option<Handler>)>, name: string, i: nat)
    requires i < |names|
    ensures |UnsetHandler(names, name)| == |names|
    ensures UnsetHandler(names, name)[i] == (names[i].0, if names[i].0 == name then None else names[i].1)
  {
    if i > 0 {
      UnsetHandlerAt(names[1..], name, i - 1);
    } else if |names| > 1 {
      UnsetHandlerAt(names[1..], name, 0);
    }
  }

  /** Handlers are listed under their own position, as no two entries share one. */
  lemma HandlerNamesInOrder(h: Handler, i: nat)
    requires i < 14
    ensures |HANDLER_NAMES| == 14
    ensures HANDLER_NAMES[i].1 == Some(h) <==> i == Position(h)
    ensures HANDLER_NAMES[i].1.Some?
    ensures HANDLER_NAMES[i].0 == "download" <==> i == 4
  {
    var name := HANDLER_NAMES[i].0;
    if i != 4 && |name| == 8 {
      assert name[0] != 'd';
    }
  }

  /** The position of a handler in HANDLER_NAMES. */
  function Position(h: Handler): nat
  {
    match h
    case Exit => 0 case Next => 1 case Prev => 2 case Select => 3 case Download => 4 case HighItem => 5
    case MidItem => 6 case LowItem => 7 case RefreshAll => 8 case CatchupFeed => 9 case CatchupAll => 10
    case ToggleRead => 11 case RedrawScreen => 12 case PrintKeyPairs => 13
  }

  /** With a downloader configured the help screen can list every operation; without one,
      `unset_handler` cuts the list after its fourth entry. */
  lemma HelpIsCutByMissingDownloader(h: Handler)
    ensures Listed(HANDLER_NAMES, h).Some?
    ensures Listed(UnsetHandler(HANDLER_NAMES, "download"), h).Some? <==> h in {Exit, Next, Prev, Select}
  {
    var p := Position(h);
    forall i: nat | i < 14
      ensures ListedIn(HANDLER_NAMES, h, p, i, 14)
      ensures ListedIn(UnsetHandler(HANDLER_NAMES, "download"), h, p, i, 4)
    {
      NamedAtPosition(h, i);
      UnsetAtPosition(h, i);
    }
    ListedBefore(HANDLER_NAMES, h, p, 14);
    ListedBefore(UnsetHandler(HANDLER_NAMES, "download"), h, p, 4);
  }

  lemma NamedAtPosition(h: Handler, i: nat)
    requires i < 14
    ensures ListedIn(HANDLER_NAMES, h, Position(h), i, 14)
  {
    HandlerNamesInOrder(h, i);
  }

  lemma UnsetAtPosition(h: Handler, i: nat)
    requires i < 14
    ensures ListedIn(UnsetHandler(HANDLER_NAMES, "download"), h, Position(h), i, 4)
  {
    HandlerNamesInOrder(h, i);
    UnsetHandlerAt(HANDLER_NAMES, "download", i);
  }

  /** With a downloader, every operation is listed under its own name. */
  lemma HelpNames()
    ensures Listed(HANDLER_NAMES, Exit) == Some("exit") && Listed(HANDLER_NAMES, Next) == Some("next")
    ensures Listed(HANDLER_NAMES, Prev) == Some("prev") && Listed(HANDLER_NAMES, Select) == Some("select")
    ensures Listed(HANDLER_NAMES, Download) == Some("download")
    ensures Listed(HANDLER_NAMES, HighItem) == Some("high-item")
    ensures Listed(HANDLER_NAMES, MidItem) == Some("mid-item")
    ensures Listed(HANDLER_NAMES, LowItem) == Some("low-item")
    ensures Listed(HANDLER_NAMES, RefreshAll) == Some("reload-all")
    ensures Listed(HANDLER_NAMES, CatchupFeed) == Some("mark-feed-read")
    ensures Listed(HANDLER_NAMES, CatchupAll) == Some("mark-all-feeds-read")
    ensures Listed(HANDLER_NAMES, ToggleRead) == Some("toggle-article-read")
    ensures Listed(HANDLER_NAMES, RedrawScreen) == Some("redraw-screen")
    ensures Listed(HANDLER_NAMES, PrintKeyPairs) == Some("help")
  {
    forall h ensures Listed(HANDLER_NAMES, h) == Some(HANDLER_NAMES[Position(h)].0) {
      NameOfHandler(h);
    }
  }

  lemma NameOfHandler(h: Handler)
    ensures Listed(HANDLER_NAMES, h) == Some(HANDLER_NAMES[Position(h)].0)
  {
    var p := Position(h);
    HandlerNamesInOrder(h, p);
    forall j: nat | j < p ensures HANDLER_NAMES[j].1.Some? && HANDLER_NAMES[j].1 != Some(h) {
      HandlerNamesInOrder(h, j);
    }
    ListedAt(HANDLER_NAMES, h, p);
  }

  ghost predicate ListedIn(names: seq<(string, Option<Handler>)>, h: Handler, p: nat, i: nat, gap: nat)
  {
    && |names| == 14
    && (i < 14 ==> (names[i].1.None? <==> i == gap))
    && (i < 14 && i != gap ==> (names[i].1 == Some(h) <==> i == p))
  }

  lemma ListedBefore(names: seq<(string, Option<Handler>)>, h: Handler, p: nat, gap: nat)
    requires p < 14 && forall i: nat :: i < 14 ==> ListedIn(names, h, p, i, gap)
    ensures Listed(names, h).Some? <==> p < gap
  {
    var stop := if p < gap then p else gap;
    assert ListedIn(names, h, p, stop, gap);
    forall j: nat | j < stop ensures names[j].1.Some? && names[j].1 != Some(h) {
      assert ListedIn(names, h, p, j, gap);
    }
    ListedAt(names, h, stop);
  }
}
