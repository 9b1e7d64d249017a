/**
  Whole files through `read_config_line`: which files are read correctly for every way `read` may
  split them, and what a client sees of the others.
*/
module LineReading {
  import opened Options
  import opened LineWords
  import opened LineReader

  // ---------------------------------------------------------------- reference definition

  /** The pieces of a text between newlines, the piece behind the last newline included. */
  function Segments(u: seq<char>): seq<string>
    decreases |u|
  {
    var e := LineStop(u, 0);
    if e == |u| then [u] else [u[..e]] + Segments(u[e + 1..])
  }

  function NonEmpty(ss: seq<string>): seq<string>
  {
    if ss == [] then [] else (if ss[0] == [] then [] else [ss[0]]) + NonEmpty(ss[1..])
  }

  /** The non-empty lines of a text. */
  function NonEmptyLines(u: seq<char>): seq<string> { NonEmpty(Segments(u)) }

  /** An unterminated last line, or nothing. */
  function Tail(u: seq<char>): string { Leftover(u)[LineStart(Leftover(u))..] }

  lemma {:induction false} LinesAreNonEmptyLines(u: seq<char>)
    ensures NonEmptyLines(u) == Lines(u) + if Tail(u) == [] then [] else [Tail(u)]
    decreases |u|
  {
    var e := LineStop(u, 0);
    if e == |u| {
      NoNewline(u);
    } else {
      var rest := u[e + 1..];
      var head, tail := if e == 0 then [] else [u[..e]], if Tail(rest) == [] then [] else [Tail(rest)];
      LinesAreNonEmptyLines(rest);
      OneSegment(u);
      if e == 0 {
        BlankFirstLine(u);
      } else {
        LeadingLine(u);
        assert head + (Lines(rest) + tail) == (head + Lines(rest)) + tail;
      }
    }
  }

  /** A blank first line changes nothing. */
  lemma BlankFirstLine(u: seq<char>)
    requires LineStop(u, 0) == 0 < |u|
    ensures Lines(u) == Lines(u[1..]) && Tail(u) == Tail(u[1..])
  {
    LineStopIs(u, 0);
    assert LineStart(u) >= 1;
    SkippingNewlines(u, 1);
    if HasLine(u) {
      assert Lines(u) == [FirstLine(u)] + Lines(AfterLine(u)) == Lines(u[1..]);
    } else {
      assert u[LineStart(u)..] == u[1..][LineStart(u[1..])..];
    }
  }

  lemma OneSegment(u: seq<char>)
    requires LineStop(u, 0) < |u|
    ensures var e := LineStop(u, 0);
      NonEmptyLines(u) == (if e == 0 then [] else [u[..e]]) + NonEmptyLines(u[e + 1..])
  {
    var e := LineStop(u, 0);
    NonEmptyHead(u[..e], Segments(u[e + 1..]));
    assert Segments(u) == [u[..e]] + Segments(u[e + 1..]);
  }

  lemma NonEmptyHead(s: string, rest: seq<string>)
    ensures NonEmpty([s] + rest) == (if s == [] then [] else [s]) + NonEmpty(rest)
  {
    assert ([s] + rest)[1..] == rest;
  }

  /** Any other first line is the first of the lines. */
  lemma LeadingLine(u: seq<char>)
    requires 0 < LineStop(u, 0) < |u|
    ensures HasLine(u) && FirstLine(u) == u[..LineStop(u, 0)] && AfterLine(u) == u[LineStop(u, 0) + 1..]
    ensures Lines(u) == [u[..LineStop(u, 0)]] + Lines(u[LineStop(u, 0) + 1..])
    ensures Tail(u) == Tail(u[LineStop(u, 0) + 1..])
  {
    LineStopIs(u, 0);
    assert LineStart(u) == 0;
  }

  lemma NoNewline(u: seq<char>)
    requires LineStop(u, 0) == |u|
    ensures !HasLine(u) && Lines(u) == [] && Tail(u) == u
    ensures NonEmptyLines(u) == if u == [] then [] else [u]
  {
    LineStopIs(u, 0);
    assert LineStart(u) == 0;
    assert Segments(u) == [u];
    assert NonEmpty([u][1..]) == [];
  }

  // ---------------------------------------------------------------- admissible files

  /** Empty, or ending in a non-empty terminated line. */
  predicate WellTerminated(u: seq<char>)
  {
    u == [] || (|u| >= 2 && u[|u| - 1] == NEWLINE && u[|u| - 2] != NEWLINE)
  }

  predicate Admissible(u: seq<char>) { NUL !in u && WellTerminated(u) }

  lemma {:induction false} NothingLeftExactlyWhen(u: seq<char>)
    ensures Leftover(u) == [] <==> WellTerminated(u)
    decreases |u|
  {
    FirstLineIs(u);
    if HasLine(u) {
      NothingLeftExactlyWhen(AfterLine(u));
    } else {
      assert |u| >= 2 && u[|u| - 2] != NEWLINE ==> LineStart(u) <= |u| - 2;
    }
  }

  lemma {:induction false} NulInSomeLine(u: seq<char>)
    requires NUL in u && Leftover(u) == []
    ensures exists i :: 0 <= i < |Lines(u)| && NUL in Lines(u)[i]
    decreases |u|
  {
    assert HasLine(u);
    FirstLineIs(u);
    if NUL in FirstLine(u) {
      assert Lines(u)[0] == FirstLine(u);
    } else {
      var k :| 0 <= k < |u| && u[k] == NUL;
      var a, b := LineStart(u), LineStop(u, LineStart(u));
      assert k >= a;
      assert forall j :: a <= j < b ==> u[j] == FirstLine(u)[j - a];
      assert AfterLine(u)[k - b - 1] == NUL;
      NulInSomeLine(AfterLine(u));
      var i :| 0 <= i < |Lines(AfterLine(u))| && NUL in Lines(AfterLine(u))[i];
      assert Lines(u)[i + 1] == Lines(AfterLine(u))[i];
    }
  }

  lemma {:induction false} NulFreeLines(u: seq<char>)
    requires NUL !in u
    ensures forall i :: 0 <= i < |Lines(u)| ==> NUL !in Lines(u)[i]
    decreases |u|
  {
    if HasLine(u) {
      NulFreeLines(AfterLine(u));
    }
  }

  // ---------------------------------------------------------------- what a client sees

  /** The C string at the front of the stored bytes, or None if no NUL ends it there. */
  function Front(b: seq<char>): Option<string>
  {
    if b == [] then None
    else if b[0] == NUL then Some([])
    else match Front(b[1..]) case None => None case Some(s) => Some([b[0]] + s)
  }

  lemma {:induction false} FrontIs(b: seq<char>)
    ensures Front(b) == None <==> NUL !in b
    ensures Front(b).Some? ==> NUL !in Front(b).value
  {
    if b != [] {
      FrontIs(b[1..]);
      assert b == [b[0]] + b[1..];
    }
  }

  lemma {:induction false} FrontOfLine(line: string, more: seq<char>)
    ensures Front(line + [NUL] + more) == Front(line + [NUL])
    ensures NUL !in line ==> Front(line + [NUL]) == Some(line)
  {
    if line != [] {
      assert (line + [NUL] + more)[1..] == line[1..] + [NUL] + more;
      assert (line + [NUL])[1..] == line[1..] + [NUL];
      FrontOfLine(line[1..], more);
      assert line == [line[0]] + line[1..];
      assert line[0] in line;
    } else {
      assert [] + [NUL] + more == [NUL] + more;
    }
  }

  /** The lines as C strings. */
  function Fronts(lines: seq<string>): (r: seq<Option<string>>)
    ensures |r| == |lines|
  {
    seq(|lines|, i requires 0 <= i < |lines| => Front(lines[i] + [NUL]))
  }

  function Somes(lines: seq<string>): (r: seq<Option<string>>)
    ensures |r| == |lines|
  {
    seq(|lines|, i requires 0 <= i < |lines| => Some(lines[i]))
  }

  method FrontLine(c: ConfRead) returns (line: Option<string>)
    requires c.Valid()
    ensures line == Front(c.buf[..c.bStored])
  {
    line := Front(c.buf[..c.bStored]);
  }

  /** What a loop over `read_config_line` collects: the non-empty terminated lines, and after them
      possibly one stray line made of what is left of the file. */
  ghost predicate Collected(data: seq<char>, oneByte: bool, lines: seq<Option<string>>, stray: bool)
  {
    && |lines| == |Lines(data)| + (if stray then 1 else 0)
    && lines[..|Lines(data)|] == Fronts(Lines(data))
    && (stray ==> Leftover(data) != [])
    && (Tail(data) != [] || (oneByte && Leftover(data) != []) ==> stray)
    && (stray ==> exists k :: 0 <= k <= LineStart(Leftover(data)) && lines[|Lines(data)|] == Front(Leftover(data)[k..]))
  }

  lemma CollectedExactly(data: seq<char>, oneByte: bool, lines: seq<Option<string>>, stray: bool)
    requires Collected(data, oneByte, lines, stray)
    ensures Admissible(data) ==> lines == Somes(NonEmptyLines(data))
    ensures !Admissible(data) && oneByte ==> lines != Somes(NonEmptyLines(data))
  {
    NothingLeftExactlyWhen(data);
    LinesAreNonEmptyLines(data);
    var n := |Lines(data)|;
    if Admissible(data) {
      NulFreeLines(data);
      forall i | 0 <= i < n ensures lines[i] == Some(Lines(data)[i]) {
        FrontOfLine(Lines(data)[i], []);
        assert lines[i] == lines[..n][i];
      }
    } else if Leftover(data) == [] {
      NulInSomeLine(data);
      var i :| 0 <= i < n && NUL in Lines(data)[i];
      assert lines[i] == lines[..n][i];
      FrontIs(Lines(data)[i] + [NUL]);
      assert lines[i] != Somes(NonEmptyLines(data))[i];
    } else if oneByte && Tail(data) != [] {
      var k :| 0 <= k <= LineStart(Leftover(data)) && lines[n] == Front(Leftover(data)[k..]);
      StrayIsNotTail(Leftover(data), k);
      assert Somes(NonEmptyLines(data))[n] == Some(Tail(data));
    }
  }

  lemma StrayIsNotTail(u: seq<char>, k: nat)
    requires k <= LineStart(u)
    ensures Front(u[k..]) != Some(u[LineStart(u)..])
  {
    FrontIs(u[k..]);
    FirstLineIs(u);
    if NUL in u[k..] {
      var j :| 0 <= j < |u[k..]| && u[k..][j] == NUL;
      assert u[k + j] == NUL;
      assert k + j >= LineStart(u);
      assert u[LineStart(u)..][k + j - LineStart(u)] == NUL;
    }
  }

  /** The lines so far, when `u` is still unread. */
  ghost predicate Progress(data: seq<char>, lines: seq<Option<string>>, u: seq<char>)
  {
    && |lines| <= |Lines(data)|
    && lines == Fronts(Lines(data)[..|lines|])
    && Lines(data)[|lines|..] == Lines(u)
    && Leftover(data) == Leftover(u)
  }

  lemma ProgressStep(data: seq<char>, lines: seq<Option<string>>, u: seq<char>)
    requires Progress(data, lines, u) && HasLine(u)
    ensures Progress(data, lines + [Front(FirstLine(u) + [NUL])], AfterLine(u))
  {
    var all, n := Lines(data), |lines|;
    assert all[n..] == [FirstLine(u)] + Lines(AfterLine(u));
    assert all[n] == all[n..][0] == FirstLine(u);
    assert all[n + 1..] == all[n..][1..] == Lines(AfterLine(u));
    assert all[..n + 1] == all[..n] + [all[n]];
  }

  lemma ProgressEnds(data: seq<char>, oneByte: bool, lines: seq<Option<string>>, p: seq<char>, r: seq<char>)
    requires Progress(data, lines, p + r) && !HasLine(p + r) && (oneByte ==> p == [])
    ensures LineStart(p) == |p| && r == [] ==> Collected(data, oneByte, lines, false)
    ensures LineStart(p) < |p| || r != [] ==>
      Collected(data, oneByte, lines + [Front(p[LineStart(p)..] + r)], true)
  {
    var n := |lines|;
    assert Lines(data)[n..] == [] && Leftover(data) == p + r;
    assert n == |Lines(data)| && Lines(data)[..n] == Lines(data);
    LineInPrefix(p, r);
    if LineStart(p) == |p| && r == [] {
      assert p + r == p;
      assert lines[..n] == lines;
    } else {
      var k := LineStart(p);
      assert (p + r)[k..] == p[k..] + r;
      assert (lines + [Front(p[k..] + r)])[..n] == lines;
    }
  }

  ghost predicate Reading(c: ConfRead, file: InputFile, data: seq<char>, lines: seq<Option<string>>)
    reads c, c.buf, file
  {
    && c.Valid() && file.Valid()
    && (c.eof ==> file.Rest() == [] && !HasLine(c.Pending()) && Collected(data, OneByte(file.schedule), lines, true))
    && (!c.eof ==> Progress(data, lines, c.Pending() + file.Rest()))
    && (!c.eof && OneByte(file.schedule) ==> c.Pending() == [])
  }

  /** One turn of a client's loop. */
  method ReadOne(c: ConfRead, file: InputFile, ghost data: seq<char>, lines: seq<Option<string>>)
    returns (more: bool, lines': seq<Option<string>>)
    requires Reading(c, file, data, lines)
    modifies c, c.buf, file
    ensures c.buf == old(c.buf) || fresh(c.buf)
    ensures more ==> Reading(c, file, data, lines') && !old(c.eof)
    ensures more && !c.eof ==> |c.Pending() + file.Rest()| < old(|c.Pending() + file.Rest()|)
    ensures !more ==> lines' == lines && exists stray :: Collected(data, OneByte(file.schedule), lines, stray)
  {
    lines' := lines;
    ghost var p, r, wasEof := c.Pending(), file.Rest(), c.eof;
    assert wasEof ==> p + r == p;
    if !wasEof && !HasLine(p + r) {
      ProgressEnds(data, OneByte(file.schedule), lines, p, r);
    }
    if HasLine(p + r) {
      ProgressStep(data, lines, p + r);
    }
    var line;
    more, line := ReadFront(c, file, p, r);
    if more {
      lines' := lines + [line];
    }
  }

  /** `read_config_line` and the line that the client then sees. */
  method ReadFront(c: ConfRead, file: InputFile, ghost p: seq<char>, ghost r: seq<char>)
    returns (more: bool, line: Option<string>)
    requires c.Valid() && file.Valid() && p == c.Pending() && r == file.Rest() && (c.eof ==> r == [])
    modifies c, c.buf, file
    ensures c.Valid() && file.Valid() && (c.eof ==> file.Rest() == []) && (c.buf == old(c.buf) || fresh(c.buf))
    ensures HasLine(p + r) ==>
      && more && c.eof == old(c.eof) && line == Front(FirstLine(p + r) + [NUL])
      && c.Pending() + file.Rest() == AfterLine(p + r)
    ensures HasLine(p + r) && OneByte(file.schedule) && !HasLine(p) ==> c.Pending() == []
    ensures !HasLine(p + r) ==>
      c.eof && !HasLine(c.Pending()) && more == (!old(c.eof) && (LineStart(p) < |p| || r != []))
    ensures !HasLine(p + r) && more ==> line == Front(p[LineStart(p)..] + r)
  {
    line := None;
    more := c.ReadConfigLine(file, p, r, p + r);
    if more {
      line := FrontLine(c);
      if HasLine(p + r) {
        ghost var l := FirstLine(p + r);
        FrontOfLine(l, c.buf[c.lRet..c.bStored]);
        assert c.buf[..c.bStored] == l + [NUL] + c.buf[c.lRet..c.bStored];
      }
    }
  }

  /** A loop over `read_config_line` from a freshly opened file, as both clients write it.  An
      admissible file gives exactly its non-empty lines, however `read` splits it; for every other
      file some way of splitting it gives something else. */
  method ReadAll(data: seq<char>, schedule: nat -> nat) returns (lines: seq<Option<string>>)
    ensures Admissible(data) ==> lines == Somes(NonEmptyLines(data))
    ensures !Admissible(data) && OneByte(schedule) ==> lines != Somes(NonEmptyLines(data))
  {
    lines := [];
    var c := new ConfRead();
    var file := new InputFile(data, schedule);
    assert c.Pending() + file.Rest() == data;
    while true
      invariant fresh(c) && fresh(file) && fresh(c.buf) && file.schedule == schedule
      invariant Reading(c, file, data, lines)
      decreases !c.eof, |c.Pending() + file.Rest()|
    {
      var more;
      more, lines := ReadOne(c, file, data, lines);
      if !more {
        ghost var stray :| Collected(data, OneByte(schedule), lines, stray);
        CollectedExactly(data, OneByte(schedule), lines, stray);
        return;
      }
    }
  }

  // ---------------------------------------------------------------- writing and reading back

  /** Lines written out, each with its newline. */
  function Unlines(lines: seq<string>): string
  {
    if lines == [] then [] else lines[0] + "\n" + Unlines(lines[1..])
  }

  lemma HeadSegment(line: string, rest: seq<char>)
    requires '\n' !in line
    ensures Segments(line + "\n" + rest) == [line] + Segments(rest)
  {
    var u := line + "\n" + rest;
    var e := LineStop(u, 0);
    LineStopIs(u, 0);
    assert forall j :: 0 <= j < |line| ==> u[j] == line[j] && line[j] in line;
    assert u[|line|] == '\n';
    assert e == |line|;
    assert u[..e] == line && u[e + 1..] == rest;
  }

  /** Reading written lines back drops the empty ones and keeps the others in order. */
  lemma {:induction false} LinesOfUnlines(lines: seq<string>)
    requires forall i :: 0 <= i < |lines| ==> '\n' !in lines[i]
    ensures NonEmptyLines(Unlines(lines)) == NonEmpty(lines)
  {
    if lines == [] {
      assert Segments([]) == [[]];
      assert NonEmpty([[]]) == [] + NonEmpty([[]][1..]);
    } else {
      LinesOfUnlines(lines[1..]);
      HeadSegment(lines[0], Unlines(lines[1..]));
      NonEmptyHead(lines[0], Segments(Unlines(lines[1..])));
    }
  }

  lemma {:induction false} NothingEmpty(lines: seq<string>)
    requires forall i :: 0 <= i < |lines| ==> lines[i] != []
    ensures NonEmpty(lines) == lines
  {
    if lines != [] {
      NothingEmpty(lines[1..]);
      assert lines == [lines[0]] + lines[1..];
    }
  }

  lemma {:induction false} UnlinesAdmissible(lines: seq<string>)
    requires forall i :: 0 <= i < |lines| ==> lines[i] != [] && '\n' !in lines[i] && '\0' !in lines[i]
    ensures Admissible(Unlines(lines))
  {
    if lines != [] {
      var line, rest := lines[0], Unlines(lines[1..]);
      UnlinesAdmissible(lines[1..]);
      var u := line + "\n" + rest;
      assert line[|line| - 1] in line;
      if rest == [] {
        assert u[|u| - 2] == line[|line| - 1];
      } else {
        assert u[|u| - 1] == rest[|rest| - 1] && u[|u| - 2] == rest[|rest| - 2];
      }
    }
  }

  /** Any lines that are not empty and contain neither newline nor NUL are read back as they were
      written, for every way `read` may split the file. */
  method ReadWritten(lines: seq<string>, schedule: nat -> nat) returns (read: seq<Option<string>>)
    requires forall i :: 0 <= i < |lines| ==> lines[i] != [] && '\n' !in lines[i] && '\0' !in lines[i]
    ensures |read| == |lines| && forall i :: 0 <= i < |lines| ==> read[i] == Some(lines[i])
  {
    LinesOfUnlines(lines);
    NothingEmpty(lines);
    UnlinesAdmissible(lines);
    read := ReadAll(Unlines(lines), schedule);
  }

  /** A blank line at the end, arriving byte by byte, is not read as the lines of the file. */
  method ReadBlankEnd() returns (read: seq<Option<string>>)
    ensures NonEmptyLines("a\n\n") == ["a"] && read != [Some("a")]
  {
    var data := "a\n\n";
    LinesOfUnlines(["a", ""]);
    assert Unlines(["a", ""]) == "a" + "\n" + Unlines([""]) && Unlines([""]) == "" + "\n" + Unlines([]);
    assert data == Unlines(["a", ""]);
    assert NonEmpty(["a", ""]) == ["a"] + NonEmpty([""]) && NonEmpty([""]) == NonEmpty([]);
    read := ReadAll(data, _ => 1);
    assert Somes(["a"]) == [Some("a")];
  }
}
