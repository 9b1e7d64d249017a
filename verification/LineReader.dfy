/**
  The incremental line reader of src/config.c: `check_for_line`, `move_buf` and
  `read_config_line` over one growing buffer, for every way `read` may split a file into chunks.
*/
module LineReader {
  import opened LineWords

  const CONF_BUF_INC: nat := 256
  const NEWLINE: char := '\n'

  // ---------------------------------------------------------------- lines of a text

  function LineStart(u: seq<char>, i: nat := 0): (k: nat)
    requires i <= |u|
    ensures i <= k <= |u|
    decreases |u| - i
  {
    if i == |u| || u[i] != NEWLINE then i else LineStart(u, i + 1)
  }

  lemma {:induction false} LineStartIs(u: seq<char>, i: nat)
    requires i <= |u|
    ensures forall j :: i <= j < LineStart(u, i) ==> u[j] == NEWLINE
    ensures LineStart(u, i) < |u| ==> u[LineStart(u, i)] != NEWLINE
    decreases |u| - i
  {
    if i < |u| && u[i] == NEWLINE {
      LineStartIs(u, i + 1);
    }
  }

  function LineStop(u: seq<char>, i: nat): (k: nat)
    requires i <= |u|
    ensures i <= k <= |u|
    decreases |u| - i
  {
    if i == |u| || u[i] == NEWLINE then i else LineStop(u, i + 1)
  }

  lemma {:induction false} LineStopIs(u: seq<char>, i: nat)
    requires i <= |u|
    ensures forall j :: i <= j < LineStop(u, i) ==> u[j] != NEWLINE
    ensures LineStop(u, i) < |u| ==> u[LineStop(u, i)] == NEWLINE
    decreases |u| - i
  {
    if i < |u| && u[i] != NEWLINE {
      LineStopIs(u, i + 1);
    }
  }

  /** Where the first line starts and stops. */
  lemma FirstLineIs(u: seq<char>)
    ensures forall j :: 0 <= j < LineStart(u) ==> u[j] == NEWLINE
    ensures LineStart(u) < |u| ==> u[LineStart(u)] != NEWLINE
    ensures forall j :: LineStart(u) <= j < LineStop(u, LineStart(u)) ==> u[j] != NEWLINE
    ensures LineStop(u, LineStart(u)) < |u| ==> u[LineStop(u, LineStart(u))] == NEWLINE
  {
    LineStartIs(u, 0);
    LineStopIs(u, LineStart(u));
  }

  /** Some non-empty line of the text is terminated. */
  predicate HasLine(u: seq<char>) { LineStop(u, LineStart(u)) < |u| }

  /** The first non-empty line. */
  function FirstLine(u: seq<char>): seq<char> { u[LineStart(u)..LineStop(u, LineStart(u))] }

  function AfterLine(u: seq<char>): seq<char>
    requires HasLine(u)
  {
    u[LineStop(u, LineStart(u)) + 1..]
  }

  /** The non-empty terminated lines of a text, in order. */
  function Lines(u: seq<char>): seq<string>
    decreases |u|
  {
    if HasLine(u) then [FirstLine(u)] + Lines(AfterLine(u)) else []
  }

  /** What follows the last non-empty terminated line. */
  function Leftover(u: seq<char>): seq<char>
    decreases |u|
  {
    if HasLine(u) then Leftover(AfterLine(u)) else u
  }

  /** Two texts with the same first line and the same text behind it. */
  ghost predicate SameLines(u: seq<char>, v: seq<char>)
  {
    && (HasLine(u) <==> HasLine(v))
    && (HasLine(u) ==> FirstLine(u) == FirstLine(v) && AfterLine(u) == AfterLine(v))
  }

  lemma SkippingNewlines(u: seq<char>, k: nat)
    requires k <= LineStart(u)
    ensures SameLines(u, u[k..])
    ensures LineStart(u[k..]) == LineStart(u) - k
  {
    var v, i, e := u[k..], LineStart(u), LineStop(u, LineStart(u));
    ShiftedScan(u, v, k);
    if e < |u| {
      SliceOfRest(u, k, i, e);
    }
    ShiftedLines(u, v, k);
  }

  lemma ShiftedScan(u: seq<char>, v: seq<char>, k: nat)
    requires |v| + k == |u| && k <= LineStart(u) && forall j :: 0 <= j < |v| ==> v[j] == u[k + j]
    ensures LineStart(v) == LineStart(u) - k && LineStop(v, LineStart(v)) == LineStop(u, LineStart(u)) - k
  {
    var i, e := LineStart(u), LineStop(u, LineStart(u));
    FirstLineIs(u);
    FirstLineAt(v, i - k, e - k);
  }

  /** The first lines agree if they are at the same places, shifted by `k`. */
  lemma ShiftedLines(u: seq<char>, v: seq<char>, k: nat)
    requires |v| + k == |u| && k <= LineStart(u)
    requires LineStart(v) == LineStart(u) - k && LineStop(v, LineStart(v)) == LineStop(u, LineStart(u)) - k
    requires HasLine(u) ==>
      var i, e := LineStart(u), LineStop(u, LineStart(u)); v[i - k..e - k] == u[i..e] && v[e - k + 1..] == u[e + 1..]
    ensures SameLines(u, v)
  {
  }

  lemma SliceOfRest(u: seq<char>, k: nat, i: nat, e: nat)
    requires k <= i <= e < |u|
    ensures u[k..][i - k..e - k] == u[i..e] && u[k..][e - k + 1..] == u[e + 1..]
  {
  }

  /** The first line is where newlines end and where the next one is. */
  lemma FirstLineAt(u: seq<char>, start: nat, stop: nat)
    requires start <= stop <= |u|
    requires forall j :: 0 <= j < start ==> u[j] == NEWLINE
    requires forall j :: start <= j < stop ==> u[j] != NEWLINE
    requires stop < |u| ==> u[stop] == NEWLINE
    requires stop == start ==> start == |u|
    ensures start == LineStart(u) && stop == LineStop(u, start)
  {
    FirstLineIs(u);
    LineStopIs(u, start);
    assert LineStart(u) == start;
  }

  lemma LineInPrefix(u: seq<char>, r: seq<char>)
    ensures LineStart(u) < |u| ==> LineStart(u + r) == LineStart(u)
    ensures LineStart(u) == |u| ==> LineStart(u + r) >= |u|
    ensures HasLine(u) ==> HasLine(u + r) && FirstLine(u + r) == FirstLine(u) && AfterLine(u + r) == AfterLine(u) + r
  {
    var v := u + r;
    FirstLineIs(u);
    FirstLineIs(v);
    assert forall j :: 0 <= j < |u| ==> v[j] == u[j];
    if HasLine(u) {
      assert LineStop(v, LineStart(v)) == LineStop(u, LineStart(u));
    }
  }

  lemma WithoutNewlines(p: seq<char>, r: seq<char>, all: seq<char>) returns (rest: seq<char>)
    requires all == p + r
    ensures rest == p[LineStart(p)..] && (rest != [] <==> LineStart(p) < |p|)
    ensures SameLines(all, p + r) && (r == [] ==> all == p)
  {
    rest := p[LineStart(p)..];
    assert |rest| == |p| - LineStart(p);
  }

  /** A line completed by its last character has nothing behind it. */
  lemma LineCompleted(u: seq<char>, c: char)
    requires !HasLine(u) && HasLine(u + [c])
    ensures AfterLine(u + [c]) == []
  {
    LineInPrefix(u, [c]);
    var v := u + [c];
    FirstLineIs(u);
    FirstLineIs(v);
    assert forall j :: 0 <= j < |u| ==> v[j] == u[j];
    assert LineStop(v, LineStart(v)) == |u|;
  }

  /** Where the two scanning loops stop is where the first line starts and ends. */
  lemma LineScanStops(u: seq<char>, start: nat, stop: nat)
    requires start <= stop <= |u|
    requires forall j :: 0 <= j < start ==> u[j] == NEWLINE
    requires forall j :: start <= j < stop ==> u[j] != NEWLINE
    requires stop < |u| ==> u[stop] == NEWLINE
    requires stop == start ==> start == |u|
    ensures start == LineStart(u)
    ensures stop < |u| <==> HasLine(u)
    ensures stop < |u| ==> |FirstLine(u)| == stop - start && u[start..] == FirstLine(u) + [NEWLINE] + AfterLine(u)
  {
    FirstLineAt(u, start, stop);
    if stop < |u| {
      assert u[start..] == u[start..stop] + [u[stop]] + u[stop + 1..];
    }
  }

  /** The same for bytes `u` that stand in a buffer. */
  lemma ScannedLine(b: seq<char>, from: nat, to: nat, u: seq<char>, start: nat, stop: nat)
    requires from <= start <= stop <= to <= |b| && u == b[from..to]
    requires forall j :: from <= j < start ==> b[j] == NEWLINE
    requires forall j :: start <= j < stop ==> b[j] != NEWLINE
    requires stop < to ==> b[stop] == NEWLINE
    requires stop == start ==> start == to
    ensures b[start..to] == u[LineStart(u)..]
    ensures stop < to <==> HasLine(u)
    ensures stop < to ==> stop - start == |FirstLine(u)| && b[start..to] == FirstLine(u) + [NEWLINE] + AfterLine(u)
  {
    assert forall j :: 0 <= j < |u| ==> u[j] == b[from + j];
    LineScanStops(u, start - from, stop - from);
    assert b[start..to] == u[start - from..];
  }

  /** With `p` pending and `r` unread, looking for a line in `p` alone is enough; dropping leading
      newlines of `p` loses nothing. */
  lemma PendingLines(p: seq<char>, r: seq<char>)
    ensures HasLine(p) ==>
      HasLine(p + r) && FirstLine(p + r) == FirstLine(p) && AfterLine(p + r) == AfterLine(p) + r
    ensures !HasLine(p[LineStart(p)..]) || HasLine(p)
    ensures SameLines(p + r, p[LineStart(p)..] + r)
  {
    LineInPrefix(p, r);
    SkippingNewlines(p, LineStart(p));
    PendingSkips(p, r);
  }

  lemma PendingSkips(p: seq<char>, r: seq<char>)
    ensures SameLines(p + r, p[LineStart(p)..] + r)
  {
    LineStartInPrefix(p, r);
    SkippingNewlines(p + r, LineStart(p));
    assert (p + r)[LineStart(p)..] == p[LineStart(p)..] + r;
  }

  lemma LineStartInPrefix(p: seq<char>, r: seq<char>)
    ensures LineStart(p) <= LineStart(p + r)
  {
    LineInPrefix(p, r);
  }

  /** A line completed by one more byte has nothing behind it. */
  lemma ByteArrives(p: seq<char>, p': seq<char>)
    requires p <= p' && |p'| == |p| + 1 && !HasLine(p) && HasLine(p')
    ensures AfterLine(p') == []
  {
    assert p' == p + [p'[|p|]];
    LineCompleted(p, p'[|p|]);
  }

  // ---------------------------------------------------------------- the file

  /** At every call at most one byte arrives. */
  ghost predicate OneByte(schedule: nat -> nat) { forall k :: schedule(k) <= 1 }

  /** An open file.  The k-th call of `read` delivers at most `schedule(k)` bytes, but at least one
      as long as there are any. */
  class InputFile {
    const data: seq<char>
    const schedule: nat -> nat
    var pos: nat
    var calls: nat

    constructor (data: seq<char>, schedule: nat -> nat)
      ensures Valid() && Rest() == data
      ensures this.data == data && this.schedule == schedule
    {
      this.data, this.schedule := data, schedule;
      pos, calls := 0, 0;
    }

    ghost predicate Valid() reads this { pos <= |data| }

    ghost function Rest(): seq<char>
      requires Valid()
      reads this
    {
      data[pos..]
    }

    method Read(buf: array<char>, off: nat, want: nat) returns (nr: nat)
      requires Valid() && off + want <= buf.Length
      modifies this, buf
      ensures Valid() && nr <= want && nr <= |old(Rest())|
      ensures nr == 0 <==> want == 0 || old(Rest()) == []
      ensures OneByte(schedule) ==> nr <= 1
      ensures Rest() == old(Rest())[nr..]
      ensures buf[..] == old(buf[..off] + Rest()[..nr] + buf[off + nr..])
    {
      ghost var b, r := buf[..], Rest();
      nr := if schedule(calls) < 1 then 1 else schedule(calls);
      if nr > want {
        nr := want;
      }
      if nr > |data| - pos {
        nr := |data| - pos;
      }
      forall i | 0 <= i < nr {
        buf[off + i] := data[pos + i];
      }
      pos, calls := pos + nr, calls + 1;
      ghost var goal := b[..off] + r[..nr] + b[off + nr..];
      forall i | 0 <= i < |b| ensures buf[..][i] == goal[i] {
        if off <= i < off + nr {
          assert buf[off + (i - off)] == r[i - off];
        }
      }
    }
  }

  // ---------------------------------------------------------------- the reader

  class ConfRead {
    var buf: array<char>
    var bAlloc: nat
    var bStored: nat
    var lRet: nat
    var eof: bool

    /** `memset(&c,0,sizeof(c))`; the NULL buffer is an empty array. */
    constructor ()
      ensures Valid() && fresh(buf) && Pending() == [] && !eof
    {
      buf := new char[0];
      bAlloc, bStored, lRet, eof := 0, 0, 0, false;
    }

    ghost predicate Valid()
      reads this`buf, this`bAlloc, this`bStored, this`lRet
    {
      && bAlloc == buf.Length
      && lRet <= bStored <= bAlloc
      && (bAlloc > 0 ==> bStored < bAlloc)
    }

    /** The bytes read but not yet returned. */
    ghost function Pending(): seq<char>
      requires Valid()
      reads this`buf, this`bAlloc, this`bStored, this`lRet, buf
    {
      buf[lRet..bStored]
    }

    /** The NUL-terminated string at the front of the buffer, with the unread tail behind it. */
    ghost predicate Holds(line: string)
      requires Valid()
      reads this`buf, this`bAlloc, this`bStored, this`lRet, buf
    {
      lRet == |line| + 1 && buf[..lRet] == line + [NUL]
    }

    method MoveBuf(off: nat)
      requires Valid() && lRet <= off < bStored
      modifies this`bStored, this`lRet, buf
      ensures Valid() && buf == old(buf) && bAlloc == old(bAlloc)
      ensures lRet == off - old(lRet) + 1
      ensures bStored == old(bStored - lRet) && buf[..bStored] == old(buf[lRet..bStored])
    {
      var n := off - lRet + 1;
      bStored := bStored - lRet;
      forall i | 0 <= i < bStored {
        buf[i] := buf[lRet + i];
      }
      lRet := n;
    }

    /** The line up to the newline at `i` becomes a NUL-terminated string at the front. */
    method TakeLine(i: nat, ghost line: string, ghost tail: seq<char>)
      requires Valid() && i == lRet + |line| && i < bStored && Pending() == line + [NEWLINE] + tail
      modifies this`bStored, this`lRet, buf
      ensures Valid() && buf == old(buf) && bAlloc == old(bAlloc)
      ensures Holds(line) && Pending() == tail
    {
      ghost var was := buf[lRet..bStored];
      buf[i] := NUL;
      ghost var now := buf[lRet..bStored];
      assert now == line + [NUL] + tail by {
        assert forall j :: 0 <= j < |was| ==> now[j] == if j == |line| then NUL else was[j];
      }
      var k := i;
      while k < bStored && IsBlank(buf[k])
        invariant i <= k <= bStored && buf[i] == NUL
        invariant k > i ==> IsBlank(buf[i])
      {
        k := k + 1;
      }
      MoveBuf(k);
      assert buf[..bStored] == line + [NUL] + tail;
      assert buf[..lRet] == buf[..bStored][..lRet] && buf[lRet..bStored] == buf[..bStored][lRet..];
    }

    /** Looks for a non-empty terminated line among the pending bytes and moves it to the front. */
    method CheckForLine(ghost u: seq<char>) returns (found: bool)
      requires Valid() && u == Pending()
      modifies this`bStored, this`lRet, buf
      ensures Valid() && buf == old(buf) && bAlloc == old(bAlloc)
      ensures found == HasLine(u)
      ensures found ==> Holds(FirstLine(u)) && Pending() == AfterLine(u)
      ensures !found ==> Pending() == u[LineStart(u)..] && buf[..] == old(buf[..]) && bStored == old(bStored)
    {
      if lRet >= bStored {
        assert u == [];
        return false;
      }
      var start, stop := ScanLine(u);
      lRet := start;
      if stop < bStored {
        TakeLine(stop, FirstLine(u), AfterLine(u));
        return true;
      }
      return false;
    }

    /** The two scanning loops: past the leading newlines, then to the next newline. */
    method ScanLine(ghost u: seq<char>) returns (start: nat, stop: nat)
      requires Valid() && u == Pending()
      ensures lRet <= start <= stop <= bStored
      ensures buf[start..bStored] == u[LineStart(u)..]
      ensures stop < bStored <==> HasLine(u)
      ensures stop < bStored ==> stop - start == |FirstLine(u)|
      ensures stop < bStored ==> buf[start..bStored] == FirstLine(u) + [NEWLINE] + AfterLine(u)
    {
      start := lRet;
      while start < bStored && buf[start] == NEWLINE
        invariant lRet <= start <= bStored
        invariant forall j :: lRet <= j < start ==> buf[j] == NEWLINE
      {
        start := start + 1;
      }
      stop := start;
      while stop < bStored && buf[stop] != NEWLINE
        invariant start <= stop <= bStored
        invariant forall j :: start <= j < stop ==> buf[j] != NEWLINE
      {
        stop := stop + 1;
      }
      ScannedLine(buf[..], lRet, bStored, u, start, stop);
      assert buf[..][start..bStored] == buf[start..bStored];
    }

    /** The same for the whole rest `all`, of which `u` is pending and `r` unread. */
    method CheckPending(ghost all: seq<char>, ghost u: seq<char>, ghost r: seq<char>) returns (found: bool)
      requires Valid() && u == Pending() && SameLines(all, u + r)
      modifies this`bStored, this`lRet, buf
      ensures Valid() && buf == old(buf) && bAlloc == old(bAlloc)
      ensures found == HasLine(u)
      ensures found ==> HasLine(all) && Holds(FirstLine(all)) && Pending() + r == AfterLine(all)
      ensures found ==> Pending() == AfterLine(u)
      ensures !found ==> Pending() == u[LineStart(u)..] && !HasLine(Pending()) && SameLines(all, Pending() + r)
      ensures !found ==> buf[..] == old(buf[..]) && bStored == old(bStored)
    {
      PendingLines(u, r);
      found := CheckForLine(u);
    }

    /** Moves the pending bytes to the front. */
    method Compact(ghost p: seq<char>)
      requires Valid() && p == Pending()
      modifies this`bStored, this`lRet, buf
      ensures Valid() && buf == old(buf) && bAlloc == old(bAlloc)
      ensures lRet == 0 && buf[..bStored] == p && Pending() == p
    {
      bStored := bStored - lRet;
      forall i | 0 <= i < bStored {
        buf[i] := buf[lRet + i];
      }
      lRet := 0;
    }

    /** One `read` behind the stored bytes.  There is always room for at least one byte, so 0 means
        the end of the file. */
    method Fill(file: InputFile, ghost p: seq<char>, ghost r: seq<char>) returns (nr: nat)
      requires Valid() && file.Valid() && bAlloc > 0 && p == Pending() && r == file.Rest()
      modifies this`buf, this`bAlloc, this`bStored, buf, file
      ensures Valid() && file.Valid() && bAlloc > 0 && (buf == old(buf) || fresh(buf))
      ensures nr == 0 <==> r == []
      ensures nr <= |r| && file.Rest() == r[nr..]
      ensures OneByte(file.schedule) ==> nr <= 1
      ensures p <= Pending() && |Pending()| == |p| + nr && Pending() + file.Rest() == p + r
      ensures buf[..bStored] + file.Rest() == old(buf[..bStored]) + r
    {
      ghost var stored := buf[..bStored];
      nr := ReadMore(file, stored, r);
      ghost var now := stored + r[..nr];
      assert now + r[nr..] == stored + r;
      if bStored == bAlloc {
        Grow();
      }
      assert stored[lRet..] == p;
      assert buf[lRet..bStored] == now[lRet..] == p + r[..nr];
      assert p + r[..nr] + r[nr..] == p + r;
    }

    /** The call of `read` and the newline written, but not counted, at the end of the file. */
    method ReadMore(file: InputFile, ghost stored: seq<char>, ghost r: seq<char>) returns (nr: nat)
      requires Valid() && file.Valid() && bAlloc > 0 && stored == buf[..bStored] && r == file.Rest()
      modifies this`bStored, buf, file
      ensures file.Valid() && bStored == old(bStored) + nr <= bAlloc
      ensures nr == 0 <==> r == []
      ensures nr <= |r| && file.Rest() == r[nr..]
      ensures OneByte(file.schedule) ==> nr <= 1
      ensures buf[..bStored] == stored + r[..nr]
    {
      nr := file.Read(buf, bStored, bAlloc - bStored);
      assert buf[..bStored + nr] == stored + r[..nr];
      if nr == 0 && bStored > 0 && buf[bStored - 1] != NEWLINE {
        buf[bStored] := NEWLINE;
        assert buf[..bStored] == stored;
      }
      bStored := bStored + nr;
    }

    method Grow()
      requires bAlloc == buf.Length && bStored <= bAlloc
      modifies this`buf, this`bAlloc
      ensures bAlloc == buf.Length == old(bAlloc) + CONF_BUF_INC && fresh(buf)
      ensures buf[..bStored] == old(buf[..bStored])
    {
      var larger := new char[bAlloc + CONF_BUF_INC];
      forall i | 0 <= i < bStored {
        larger[i] := buf[i];
      }
      bAlloc := bAlloc + CONF_BUF_INC;
      buf := larger;
    }

    /** The first block of an unused reader. */
    method Allocate(ghost p: seq<char>)
      requires Valid() && p == Pending()
      modifies this`buf, this`bAlloc
      ensures Valid() && p == Pending() && bAlloc > 0 && (buf == old(buf) || fresh(buf))
    {
      if bAlloc < 1 {
        Grow();
      }
    }

    /** The first non-empty terminated line of the pending bytes `p` and the unread bytes `r`, if
        there is one, however `read` splits the file.  If there is none, the answer depends on what is
        left: a rest that is not only newlines already looked at is reported as one more line, without
        a NUL. */
    method ReadConfigLine(file: InputFile, ghost p: seq<char>, ghost r: seq<char>, ghost all: seq<char>)
      returns (more: bool)
      requires Valid() && file.Valid() && p == Pending() && r == file.Rest() && all == p + r && (eof ==> r == [])
      modifies this, buf, file
      ensures Valid() && file.Valid() && (eof ==> file.Rest() == []) && (buf == old(buf) || fresh(buf))
      ensures HasLine(all) ==>
        more && eof == old(eof) && Holds(FirstLine(all)) && Pending() + file.Rest() == AfterLine(all)
      ensures HasLine(all) && OneByte(file.schedule) && !HasLine(p) ==> Pending() == []
      ensures !HasLine(all) ==>
        eof && !HasLine(Pending()) && more == (!old(eof) && (LineStart(p) < |p| || r != []))
      ensures !HasLine(all) && more ==> buf[..bStored] == p[LineStart(p)..] + r
    {
      Allocate(p);
      ghost var rest := WithoutNewlines(p, r, all);
      more := ReadOn(file, all, p, rest, r);
    }

    /** From the pending bytes, or else from the file; `rest` is `p` without its leading newlines. */
    method ReadOn(file: InputFile, ghost all: seq<char>, ghost p: seq<char>, ghost rest: seq<char>, ghost r: seq<char>)
      returns (more: bool)
      requires Valid() && file.Valid() && bAlloc > 0 && p == Pending() && rest == p[LineStart(p)..]
      requires r == file.Rest() && SameLines(all, p + r) && (eof ==> r == [] && all == p)
      modifies this, buf, file
      ensures Valid() && file.Valid() && (eof ==> file.Rest() == []) && (buf == old(buf) || fresh(buf))
      ensures HasLine(all) ==>
        more && eof == old(eof) && Holds(FirstLine(all)) && Pending() + file.Rest() == AfterLine(all)
      ensures HasLine(all) && OneByte(file.schedule) && !HasLine(p) ==> Pending() == []
      ensures !HasLine(all) ==>
        eof && !HasLine(Pending()) && more == (!old(eof) && (rest != [] || r != []))
      ensures !HasLine(all) && more ==> buf[..bStored] == rest + r
    {
      var found := CheckPending(all, p, r);
      if found {
        return true;
      }
      if eof {
        return false;
      }
      more := Refill(file, all, rest, r);
    }

    /** Compact the buffer and read on. */
    method Refill(file: InputFile, ghost all: seq<char>, ghost p: seq<char>, ghost r: seq<char>) returns (more: bool)
      requires Valid() && file.Valid() && bAlloc > 0 && !eof
      requires p == Pending() && r == file.Rest() && !HasLine(p) && SameLines(all, p + r)
      modifies this, buf, file
      ensures Valid() && file.Valid() && (eof ==> file.Rest() == []) && (buf == old(buf) || fresh(buf))
      ensures HasLine(all) ==>
        more && !eof && Holds(FirstLine(all)) && Pending() + file.Rest() == AfterLine(all)
      ensures HasLine(all) && OneByte(file.schedule) ==> Pending() == []
      ensures !HasLine(all) ==> eof && !HasLine(Pending()) && more == (p != [] || r != [])
      ensures !HasLine(all) && more ==> buf[..bStored] == p + r
    {
      Compact(p);
      var nr := FillUntilLine(file, all, p, r);
      if nr == 0 {
        eof := true;
        assert |p + r| == bStored;
      }
      if eof && bStored <= 0 {
        return false;
      }
      return true;
    }

    /** The loop around `read`: it ends with a line at the front, or at the end of the file. */
    method FillUntilLine(file: InputFile, ghost all: seq<char>, ghost p: seq<char>, ghost r: seq<char>)
      returns (nr: nat)
      requires Valid() && file.Valid() && bAlloc > 0 && lRet == 0
      requires p == Pending() && r == file.Rest() && !HasLine(p) && SameLines(all, p + r)
      modifies this`buf, this`bAlloc, this`bStored, this`lRet, buf, file
      ensures Valid() && file.Valid() && (buf == old(buf) || fresh(buf))
      ensures nr == 0 <==> !HasLine(all)
      ensures nr > 0 ==> Holds(FirstLine(all)) && Pending() + file.Rest() == AfterLine(all)
      ensures nr > 0 && OneByte(file.schedule) ==> Pending() == []
      ensures nr == 0 ==> file.Rest() == [] && !HasLine(Pending()) && buf[..bStored] == p + r
    {
      assert buf[..bStored] == p;
      while true
        invariant Valid() && file.Valid() && bAlloc > 0 && (buf == old(buf) || fresh(buf))
        invariant buf[..bStored] + file.Rest() == p + r
        invariant !HasLine(Pending()) && SameLines(all, Pending() + file.Rest())
        decreases |file.Rest()|
      {
        var found;
        nr, found := FillAndCheck(file, all, Pending(), file.Rest());
        if found || nr == 0 {
          if nr == 0 {
            assert Pending() + file.Rest() == Pending();
            assert buf[..bStored] + file.Rest() == buf[..bStored];
          }
          return;
        }
      }
    }

    /** One round of that loop. */
    method FillAndCheck(file: InputFile, ghost all: seq<char>, ghost p: seq<char>, ghost r: seq<char>)
      returns (nr: nat, found: bool)
      requires Valid() && file.Valid() && bAlloc > 0
      requires p == Pending() && r == file.Rest() && !HasLine(p) && SameLines(all, p + r)
      modifies this`buf, this`bAlloc, this`bStored, this`lRet, buf, file
      ensures Valid() && file.Valid() && bAlloc > 0 && (buf == old(buf) || fresh(buf))
      ensures nr == 0 <==> r == []
      ensures nr <= |r| && file.Rest() == r[nr..]
      ensures found ==>
        nr > 0 && HasLine(all) && Holds(FirstLine(all)) && Pending() + file.Rest() == AfterLine(all)
      ensures found && OneByte(file.schedule) ==> Pending() == []
      ensures !found ==> !HasLine(Pending()) && SameLines(all, Pending() + file.Rest())
      ensures !found ==> buf[..bStored] + file.Rest() == old(buf[..bStored]) + r
    {
      nr := Fill(file, p, r);
      ghost var p' := Pending();
      if nr == 1 && HasLine(p') {
        ByteArrives(p, p');
      }
      assert nr == 0 ==> p' == p;
      found := CheckPending(all, p', file.Rest());
    }
  }
}
