/**
  The in-place tokenizer of src/config.c: `get_line_word` and the two passes of `copy_strarr`.

  A `char *` is an offset into an `array<char>`; `StringAt` says which NUL-terminated string
  starts at an offset.
*/
module LineWords {
  import opened Options

  const NUL: char := '\0'

  predicate IsBlank(c: char) { c == ' ' || c == '\t' }

  predicate BlankFree(s: string) { forall i :: 0 <= i < |s| ==> s[i] != ' ' && s[i] != '\t' }

  predicate AllBlank(s: string) { forall i :: 0 <= i < |s| ==> s[i] == ' ' || s[i] == '\t' }

  ghost predicate StringAt(b: seq<char>, p: nat, s: string)
  {
    && p + |s| < |b|
    && b[p..p + |s|] == s
    && b[p + |s|] == NUL
    && NUL !in s
  }

  // ---------------------------------------------------------------- splitting a line

  /** Where a run of non-blank characters starting at `i` stops. */
  function WordStop(s: string, i: nat): (q: nat)
    requires i <= |s|
    ensures i <= q <= |s|
    ensures forall k :: i <= k < q ==> !IsBlank(s[k])
    ensures q < |s| ==> IsBlank(s[q])
    decreases |s| - i
  {
    if i == |s| || IsBlank(s[i]) then i else WordStop(s, i + 1)
  }

  /** Where a run of blanks starting at `i` stops. */
  function BlankStop(s: string, i: nat): (q: nat)
    requires i <= |s|
    ensures i <= q <= |s|
    ensures forall k :: i <= k < q ==> IsBlank(s[k])
    ensures q < |s| ==> !IsBlank(s[q])
    decreases |s| - i
  {
    if i == |s| || !IsBlank(s[i]) then i else BlankStop(s, i + 1)
  }

  function NextStart(s: string): (q: nat)
    ensures WordStop(s, 0) <= q <= |s| && (s != [] ==> q > 0)
    ensures q == WordStop(s, 0) <==> WordStop(s, 0) == |s|
  {
    BlankStop(s, WordStop(s, 0))
  }

  /** The leading characters up to the first blank. */
  function FirstWord(s: string): string { s[..WordStop(s, 0)] }

  /** The maximal run of blanks behind the first word. */
  function Gap(s: string): string { s[WordStop(s, 0)..NextStart(s)] }

  /** What is left after the first word and the blanks behind it. */
  function AfterWord(s: string): string { s[NextStart(s)..] }

  function Words(s: string): seq<string>
  {
    if s == [] then [] else [FirstWord(s)] + Words(AfterWord(s))
  }

  function Gaps(s: string): seq<string>
  {
    if s == [] || Gap(s) == [] then [] else [Gap(s)] + Gaps(AfterWord(s))
  }

  // ---------------------------------------------------------------- what a split means

  /** Words and separators written out as one line; the last separator may be missing. */
  function Compose(words: seq<string>, gaps: seq<string>): string
  {
    if words == [] then []
    else if gaps == [] then words[0]
    else words[0] + gaps[0] + Compose(words[1..], gaps[1..])
  }

  /** Blank-free words between non-empty runs of blanks; only a first word may be empty, and only
      if a run of blanks follows it. */
  ghost predicate IsSplit(words: seq<string>, gaps: seq<string>)
  {
    && |gaps| <= |words| <= |gaps| + 1
    && (forall i :: 0 <= i < |words| ==> BlankFree(words[i]))
    && (forall i :: 1 <= i < |words| ==> words[i] != [])
    && (forall i :: 0 <= i < |gaps| ==> gaps[i] != [] && AllBlank(gaps[i]))
    && (words != [] && words[0] == [] ==> gaps != [])
  }

  lemma HeadOf(w: string, g: string, rest: string)
    requires BlankFree(w) && AllBlank(g) && (rest == [] || (g != [] && !IsBlank(rest[0])))
    ensures FirstWord(w + g + rest) == w && Gap(w + g + rest) == g && AfterWord(w + g + rest) == rest
  {
    var s := w + g + rest;
    var q, r := WordStop(s, 0), NextStart(s);
    assert forall k :: 0 <= k < |w| ==> s[k] == w[k];
    assert forall k :: |w| <= k < |w| + |g| ==> s[k] == g[k - |w|];
    assert |w| < |s| ==> IsBlank(s[|w|]);
    assert q == |w|;
    assert |w| + |g| < |s| ==> s[|w| + |g|] == rest[0];
    assert r == |w| + |g|;
  }

  lemma SplitHead(w: string, g: string, rest: string)
    requires BlankFree(w) && AllBlank(g) && g != [] && (rest != [] ==> !IsBlank(rest[0]))
    ensures Words(w + g + rest) == [w] + Words(rest) && Gaps(w + g + rest) == [g] + Gaps(rest)
  {
    HeadOf(w, g, rest);
  }

  /** `Words` and `Gaps` find the words and separators of any line that is written as a split. */
  lemma {:induction false} SplitOfCompose(words: seq<string>, gaps: seq<string>)
    requires IsSplit(words, gaps)
    ensures Words(Compose(words, gaps)) == words && Gaps(Compose(words, gaps)) == gaps
  {
    if words == [] {
    } else if gaps == [] {
      HeadOf(words[0], [], []);
      assert words[0] + [] + [] == words[0];
      assert Words([]) == [];
      assert words == [words[0]];
    } else {
      SplitTail(words, gaps);
      SplitOfCompose(words[1..], gaps[1..]);
      SplitHead(words[0], gaps[0], Compose(words[1..], gaps[1..]));
      assert words == [words[0]] + words[1..] && gaps == [gaps[0]] + gaps[1..];
    }
  }

  lemma SplitTail(words: seq<string>, gaps: seq<string>)
    requires IsSplit(words, gaps) && gaps != []
    ensures IsSplit(words[1..], gaps[1..])
    ensures Compose(words[1..], gaps[1..]) != [] ==> !IsBlank(Compose(words[1..], gaps[1..])[0])
  {
    assert forall i :: 0 <= i < |words| - 1 ==> words[1..][i] == words[i + 1];
    assert forall i :: 0 <= i < |gaps| - 1 ==> gaps[1..][i] == gaps[i + 1];
  }

  lemma SplitGrows(w: string, g: string, words: seq<string>, gaps: seq<string>)
    requires IsSplit(words, gaps) && BlankFree(w) && AllBlank(g) && g != []
    requires words != [] ==> words[0] != []
    ensures IsSplit([w] + words, [g] + gaps)
    ensures Compose([w] + words, [g] + gaps) == w + g + Compose(words, gaps)
  {
    var ws, gs := [w] + words, [g] + gaps;
    assert ws[1..] == words && gs[1..] == gaps;
    assert forall i :: 1 <= i < |ws| ==> ws[i] == words[i - 1];
    assert forall i :: 1 <= i < |gs| ==> gs[i] == gaps[i - 1];
  }

  lemma {:induction false} ComposeOfSplit(s: string)
    ensures IsSplit(Words(s), Gaps(s)) && Compose(Words(s), Gaps(s)) == s
    ensures s != [] && !IsBlank(s[0]) ==> Words(s)[0] != []
  {
    if s != [] {
      var w, g, rest := FirstWord(s), Gap(s), AfterWord(s);
      assert s == w + g + rest;
      ComposeOfSplit(rest);
      if g != [] {
        SplitGrows(w, g, Words(rest), Gaps(rest));
      } else {
        assert rest == [] && w == s && Words(s) == [w] + Words(rest) == [w];
      }
    }
  }

  /** The words of a line are the only words it can be split into. */
  lemma WordsExact(s: string, words: seq<string>)
    ensures Words(s) == words <==> exists gaps :: IsSplit(words, gaps) && Compose(words, gaps) == s
  {
    ComposeOfSplit(s);
    if gaps :| IsSplit(words, gaps) && Compose(words, gaps) == s {
      SplitOfCompose(words, gaps);
    }
  }

  /** The first word is empty exactly when the line starts with a blank; no other word is. */
  lemma EmptyWords(s: string)
    ensures Words(s) != [] && Words(s)[0] == [] <==> s != [] && IsBlank(s[0])
    ensures forall i :: 1 <= i < |Words(s)| ==> Words(s)[i] != []
  {
    ComposeOfSplit(s);
  }

  /** A character separates two words exactly if it is a space or a tab. */
  lemma SeparatorsExactly(c: char)
    ensures Words("a" + [c] + "b") == ["a", "b"] <==> c == ' ' || c == '\t'
    ensures c != ' ' && c != '\t' ==> Words("a" + [c] + "b") == ["a" + [c] + "b"]
  {
    var s := "a" + [c] + "b";
    if c == ' ' || c == '\t' {
      HeadOf("a", [c], "b");
      HeadOf("b", [], []);
      assert "b" + [] + [] == "b" && Words("b") == ["b"] + Words([]);
    } else {
      HeadOf(s, [], []);
      assert s + [] + [] == s && Words(s) == [s] + Words([]);
      assert Words(s)[0] == s && |s| == 3;
    }
  }

  function Join(words: seq<string>): string
  {
    if words == [] then [] else if |words| == 1 then words[0] else words[0] + " " + Join(words[1..])
  }

  /** Splitting the single-blank join of non-empty blank-free words returns those words. */
  lemma {:induction false} SplitOfJoin(words: seq<string>)
    requires forall i :: 0 <= i < |words| ==> BlankFree(words[i]) && words[i] != []
    ensures Words(Join(words)) == words
  {
    if words == [] {
    } else if |words| == 1 {
      HeadOf(words[0], [], []);
      assert words[0] + [] + [] == words[0];
    } else {
      var rest := Join(words[1..]);
      SplitOfJoin(words[1..]);
      assert rest[0] == words[1][0];
      HeadOf(words[0], " ", rest);
    }
  }

  // ---------------------------------------------------------------- get_line_word

  /** The word starting at `p`, or None at the end of the line or without a buffer.  One NUL is written, at the end of
      the word; `next` is where the rest of the line begins. */
  method GetLineWord(buf: array?<char>, p: nat, ghost s: string) returns (word: Option<nat>, next: nat)
    requires buf != null ==> StringAt(buf[..], p, s)
    modifies buf
    ensures buf == null ==> word == None && next == p
    ensures buf != null && s == [] ==> word == None && next == p && buf[..] == old(buf[..])
    ensures buf != null && s != [] ==>
      && word == Some(p)
      && next == p + NextStart(s)
      && buf[..] == old(buf[..])[p + |FirstWord(s)| := NUL]
    ensures buf != null && s != [] ==> StringAt(buf[..], p, FirstWord(s)) && StringAt(buf[..], next, AfterWord(s))
  {
    if buf == null || buf[p] == NUL {
      return None, p;
    }
    var q, np := ScanWord(buf, p, s);
    CutWord(buf[..], p, s);
    buf[q] := NUL;
    return Some(p), np;
  }

  /** The end of the word at `p` and the start of the next one. */
  method ScanWord(buf: array<char>, p: nat, ghost s: string) returns (q: nat, np: nat)
    requires StringAt(buf[..], p, s)
    ensures q == p + WordStop(s, 0) && np == p + NextStart(s)
  {
    CharsAt(buf[..], p, s);
    q := p;
    while buf[q] != NUL && !IsBlank(buf[q])
      invariant p <= q <= p + |s|
      invariant forall i :: 0 <= i < q - p ==> !IsBlank(s[i])
      decreases p + |s| - q
    {
      assert buf[q] == buf[..][p + (q - p)] == s[q - p];
      q := q + 1;
    }
    np := q;
    if buf[np] != NUL {
      np := np + 1;
      while buf[np] != NUL && IsBlank(buf[np])
        invariant q < np <= p + |s|
        invariant forall i :: q - p <= i < np - p ==> IsBlank(s[i])
        decreases p + |s| - np
      {
        assert buf[np] == buf[..][p + (np - p)] == s[np - p];
        np := np + 1;
      }
    }
    ScanStops(buf[..], p, s, q, np);
  }

  lemma CharsAt(b: seq<char>, p: nat, s: string)
    requires StringAt(b, p, s)
    ensures forall i :: 0 <= i < |s| ==> b[p + i] == s[i] && s[i] != NUL
    ensures b[p + |s|] == NUL
  {
    forall i | 0 <= i < |s| ensures b[p + i] == s[i] && s[i] != NUL {
      assert b[p..p + |s|][i] == s[i];
      assert s[i] in s;
    }
  }

  /** Where the two scanning loops stop is where the first word and its blanks end. */
  lemma ScanStops(b: seq<char>, p: nat, s: string, q: nat, np: nat)
    requires StringAt(b, p, s)
    requires p <= q <= np <= p + |s|
    requires forall i :: 0 <= i < q - p ==> !IsBlank(s[i])
    requires forall i :: q - p <= i < np - p ==> IsBlank(s[i])
    requires if b[q] == NUL then np == q else IsBlank(b[q]) && q < np && !(b[np] != NUL && IsBlank(b[np]))
    ensures q == p + WordStop(s, 0) && np == p + NextStart(s)
  {
    CharsAt(b, p, s);
    var n, m := q - p, np - p;
    assert b[p + n] == b[q] && b[p + m] == b[np];
    assert n < |s| ==> b[q] == s[n];
    assert m < |s| ==> b[np] == s[m];
  }

  /** Writing a NUL behind the first word leaves it and the rest of the line as two strings. */
  lemma CutWord(b: seq<char>, p: nat, s: string)
    requires StringAt(b, p, s)
    ensures StringAt(b[p + |FirstWord(s)| := NUL], p, FirstWord(s))
    ensures StringAt(b[p + |FirstWord(s)| := NUL], p + |s| - |AfterWord(s)|, AfterWord(s))
  {
    var n, m := |FirstWord(s)|, |s| - |AfterWord(s)|;
    var c := b[p + n := NUL];
    assert NUL !in s[..n] && NUL !in s[m..];
    assert c[p..p + n] == b[p..p + n] == b[p..p + |s|][..n] == s[..n] == FirstWord(s);
    assert AfterWord(s) == s[m..];
    if m > n {
      assert c[p + m..p + |s|] == b[p + m..p + |s|] == b[p..p + |s|][m..] == s[m..];
    } else {
      assert n == |s|;
    }
  }

  // ---------------------------------------------------------------- copy_strarr

  /** The character at `k` after every word of the line has been cut off in turn. */
  function CutChar(s: string, k: nat): char
    requires k <= |s|
    decreases |s|
  {
    if s == [] || k == WordStop(s, 0) then NUL
    else if k < NextStart(s) then s[k]
    else CutChar(AfterWord(s), k - NextStart(s))
  }

  /** A line and its NUL after every word has been cut off in turn. */
  function Cut(s: string): (c: string)
    ensures |c| == |s| + 1
  {
    seq(|s| + 1, k requires 0 <= k <= |s| => CutChar(s, k))
  }

  /** The blanks of a separator that are not overwritten by a NUL. */
  function SpareBlanks(s: string): string
  {
    if Gap(s) == [] then [] else Gap(s)[1..]
  }

  /** The strings met when walking from NUL to NUL over `g + Cut(s)`, one per word of `s`. */
  function PiecesFrom(g: string, s: string): seq<string>
    decreases |s|
  {
    if s == [] then [] else [g + FirstWord(s)] + PiecesFrom(SpareBlanks(s), AfterWord(s))
  }

  function Pieces(s: string): seq<string> { PiecesFrom([], s) }

  lemma {:induction false} PieceCount(g: string, s: string)
    ensures |PiecesFrom(g, s)| == |Words(s)|
    ensures |Words(s)| - 1 <= |Gaps(s)| <= |Words(s)|
    decreases |s|
  {
    if s != [] {
      PieceCount(SpareBlanks(s), AfterWord(s));
    }
  }

  lemma {:induction false} PieceIs(g: string, s: string, i: nat)
    requires i < |Words(s)|
    ensures i < |PiecesFrom(g, s)|
    ensures i == 0 ==> PiecesFrom(g, s)[0] == g + Words(s)[0]
    ensures i > 0 ==>
      i - 1 < |Gaps(s)| && Gaps(s)[i - 1] != [] && PiecesFrom(g, s)[i] == Gaps(s)[i - 1][1..] + Words(s)[i]
    decreases i
  {
    PieceCount(g, s);
    if i > 0 {
      PieceIs(SpareBlanks(s), AfterWord(s), i - 1);
    }
  }

  /** The separator in front of word `i`. */
  function GapBefore(s: string, i: nat): (gap: string)
    requires 1 <= i < |Words(s)|
    ensures gap != []
  {
    PieceCount([], s);
    PieceIs([], s, i);
    Gaps(s)[i - 1]
  }

  /** Each copied string is its word behind the extra blanks of its separator. */
  lemma CopiedPiece(s: string, i: nat)
    requires i < |Words(s)|
    ensures |Pieces(s)| == |Words(s)|
    ensures i == 0 ==> Pieces(s)[0] == Words(s)[0]
    ensures i > 0 ==> GapBefore(s, i) != [] && Pieces(s)[i] == GapBefore(s, i)[1..] + Words(s)[i]
  {
    PieceCount([], s);
    PieceIs([], s, i);
  }

  /** The copy is the list of words exactly when no two words are more than one blank apart. */
  lemma CopiedExactlyWhen(s: string)
    ensures Pieces(s) == Words(s) <==> forall i :: 1 <= i < |Words(s)| ==> |GapBefore(s, i)| == 1
  {
    PieceCount([], s);
    forall i | 0 <= i < |Words(s)|
      ensures Pieces(s)[i] == Words(s)[i] <==> i == 0 || |GapBefore(s, i)| == 1
    {
      CopiedPiece(s, i);
      if i > 0 && Pieces(s)[i] == Words(s)[i] {
        assert |Pieces(s)[i]| == |Words(s)[i]|;
      }
      if i > 0 && |GapBefore(s, i)| == 1 {
        assert GapBefore(s, i)[1..] == [];
      }
    }
  }

  /** With two blanks between the words of an option, the second argument starts with a blank. */
  lemma CopyKeepsSpareBlank()
    ensures Words("a  b") == ["a", "b"] && Pieces("a  b") == ["a", " b"]
  {
    HeadOf("a", "  ", "b");
    assert "a" + "  " + "b" == "a  b";
    HeadOf("b", [], []);
    assert "b" + [] + [] == "b";
    assert SpareBlanks("a  b") == " ";
    assert SpareBlanks("b") == [];
    assert Words("a  b") == ["a"] + Words("b") && Words("b") == ["b"] + Words([]);
    assert Pieces("a  b") == [[] + "a"] + PiecesFrom(" ", "b");
    assert PiecesFrom(" ", "b") == [" " + "b"] + PiecesFrom([], []);
    assert [] + "a" == "a" && " " + "b" == " b";
  }

  /** `strdup(v)` together with `while(*(v++));`. */
  method CopyString(buf: array<char>, v: nat, ghost t: string) returns (copy: string, after: nat)
    requires StringAt(buf[..], v, t)
    ensures copy == t && after == v + |t| + 1
  {
    CharsAt(buf[..], v, t);
    copy := [];
    after := v;
    while buf[after] != NUL
      invariant after == v + |copy| && copy <= t
      decreases |t| - |copy|
    {
      assert buf[after] == buf[..][v + |copy|] == t[|copy|];
      copy := copy + [buf[after]];
      after := after + 1;
    }
    after := after + 1;
  }

  /** The whole buffer once every word of the string at `p` has been cut off. */
  function AllCut(b: seq<char>, p: nat, s: string): seq<char>
    requires p + |s| < |b|
  {
    seq(|b|, k requires 0 <= k < |b| => if p <= k <= p + |s| then Cut(s)[k - p] else b[k])
  }

  /** The first pass: count the words, cutting each off. */
  method CountWords(buf: array<char>, p: nat, ghost s: string) returns (n: nat)
    requires StringAt(buf[..], p, s)
    modifies buf
    ensures n == |Words(s)|
    ensures buf[..] == old(AllCut(buf[..], p, s))
  {
    n := 0;
    ghost var goal := AllCut(buf[..], p, s);
    ghost var r := s;
    var next: nat := p;
    while true
      invariant StringAt(buf[..], next, r) && AllCut(buf[..], next, r) == goal
      invariant n + |Words(r)| == |Words(s)|
      decreases |r|
    {
      var more;
      more, next := CutOne(buf, next, r, goal);
      if !more {
        return;
      }
      n := n + 1;
      r := AfterWord(r);
    }
  }

  /** One turn of that loop. */
  method CutOne(buf: array<char>, p: nat, ghost s: string, ghost goal: seq<char>) returns (more: bool, next: nat)
    requires StringAt(buf[..], p, s) && AllCut(buf[..], p, s) == goal
    modifies buf
    ensures more <==> s != []
    ensures more ==> StringAt(buf[..], next, AfterWord(s)) && AllCut(buf[..], next, AfterWord(s)) == goal
    ensures !more ==> buf[..] == goal
  {
    ghost var b := buf[..];
    var v;
    v, next := GetLineWord(buf, p, s);
    if v.None? {
      NothingToCut(b, p);
      return false, next;
    }
    CutStep(b, p, s);
    return true, next;
  }

  lemma NothingToCut(b: seq<char>, p: nat)
    requires StringAt(b, p, [])
    ensures AllCut(b, p, []) == b
  {
    assert Cut([]) == [NUL];
    var c := AllCut(b, p, []);
    forall k | 0 <= k < |b| ensures c[k] == b[k] {
      assert p <= k <= p + |""| ==> k == p;
    }
    assert c == b;
  }

  lemma CutHead(s: string)
    requires s != []
    ensures Cut(s) == FirstWord(s) + [NUL] + CutTail(s)
  {
    var n, m, rest := WordStop(s, 0), NextStart(s), CutTail(s);
    var all := FirstWord(s) + [NUL] + rest;
    assert |all| == |s| + 1;
    forall k | 0 <= k <= |s| ensures Cut(s)[k] == all[k] {
      if k > n {
        assert all[k] == rest[k - n - 1];
        assert rest[k - n - 1] == if k < m then s[k] else Cut(AfterWord(s))[k - m];
      }
    }
  }

  /** Cutting one word off does not change what the buffer will be in the end. */
  lemma CutStep(b: seq<char>, p: nat, s: string)
    requires StringAt(b, p, s) && s != []
    ensures AllCut(b[p + |FirstWord(s)| := NUL], p + NextStart(s), AfterWord(s)) == AllCut(b, p, s)
  {
    var b', at, r := b[p + |FirstWord(s)| := NUL], p + NextStart(s), AfterWord(s);
    forall k | 0 <= k < |b| ensures AllCut(b', at, r)[k] == AllCut(b, p, s)[k] {
      if p <= k <= p + |s| {
        CutStepAt(b, p, s, k - p);
      }
    }
  }

  /** The same for the character at offset `i` of the string. */
  lemma CutStepAt(b: seq<char>, p: nat, s: string, i: nat)
    requires StringAt(b, p, s) && s != [] && i <= |s|
    ensures Cut(s)[i] ==
      if i < NextStart(s) then b[p + |FirstWord(s)| := NUL][p + i] else Cut(AfterWord(s))[i - NextStart(s)]
  {
    CharsAt(b, p, s);
    assert Cut(s)[i] == CutChar(s, i);
    if i >= NextStart(s) {
      assert Cut(AfterWord(s))[i - NextStart(s)] == CutChar(AfterWord(s), i - NextStart(s));
    }
  }

  /** `copy_strarr`: fails on an empty line, otherwise a NULL-terminated array of the pieces. */
  method CopyStrArr(buf: array<char>, p: nat, ghost s: string) returns (failed: bool, strings: seq<Option<string>>)
    requires StringAt(buf[..], p, s)
    modifies buf
    ensures failed <==> s == []
    ensures !failed ==> |strings| == |Words(s)| + 1 && strings[|Words(s)|] == None
    ensures !failed ==> strings[0] == Some(Words(s)[0])
    ensures !failed ==> forall i :: 1 <= i < |Words(s)| ==> strings[i] == Some(GapBefore(s, i)[1..] + Words(s)[i])
  {
    CharsAt(buf[..], p, s);
    var n := CountWords(buf, p, s);
    if n < 1 {
      return true, [];
    }
    AllCutSlice(old(buf[..]), p, s);
    var copies := CopyPieces(buf, p, p + |s| + 1, n, s);
    CopiedStrings(s, Copied(copies) + [None]);
    return false, Copied(copies) + [None];
  }

  lemma CopiedStrings(s: string, strings: seq<Option<string>>)
    requires s != [] && strings == Copied(Pieces(s)) + [None]
    ensures |strings| == |Words(s)| + 1 && strings[|Words(s)|] == None
    ensures strings[0] == Some(Words(s)[0])
    ensures forall i :: 1 <= i < |Words(s)| ==> strings[i] == Some(GapBefore(s, i)[1..] + Words(s)[i])
  {
    CopiedPiece(s, 0);
    forall i | 1 <= i < |Words(s)| ensures strings[i] == Some(GapBefore(s, i)[1..] + Words(s)[i]) {
      CopiedPiece(s, i);
    }
  }

  /** The second pass: copy n strings, walking from NUL to NUL. */
  method CopyPieces(buf: array<char>, p: nat, ghost end: nat, n: nat, ghost s: string) returns (copies: seq<string>)
    requires p < end <= buf.Length && buf[..][p..end] == Cut(s) && NUL !in s && n == |Words(s)|
    ensures copies == Pieces(s)
  {
    copies := [];
    var v: nat := p;
    ghost var g, r := "", s;
    assert g + Cut(r) == Cut(s);
    for i := 0 to n
      invariant r != [] ==> v < end && buf[..][v..end] == g + Cut(r)
      invariant i + |Words(r)| == n && NUL !in r && NUL !in g
      invariant copies + PiecesFrom(g, r) == Pieces(s)
    {
      var piece;
      piece, v := CopyPiece(buf, v, end, g, r);
      Regroup(copies, piece, PiecesFrom(SpareBlanks(r), AfterWord(r)));
      copies := copies + [piece];
      g, r := SpareBlanks(r), AfterWord(r);
    }
  }

  /** One turn of that loop. */
  method CopyPiece(buf: array<char>, v: nat, ghost end: nat, ghost g: string, ghost r: string)
    returns (piece: string, after: nat)
    requires v < end <= buf.Length && buf[..][v..end] == g + Cut(r)
    requires r != [] && NUL !in r && NUL !in g
    ensures piece == g + FirstWord(r)
    ensures AfterWord(r) != [] ==> after < end && buf[..][after..end] == SpareBlanks(r) + Cut(AfterWord(r))
    ensures NUL !in AfterWord(r) && NUL !in SpareBlanks(r)
  {
    PieceAt(buf[..], v, end, g, r);
    NulFreeParts(r);
    piece, after := CopyString(buf, v, g + FirstWord(r));
  }

  lemma Regroup<T>(a: seq<T>, x: T, b: seq<T>)
    ensures a + ([x] + b) == (a + [x]) + b
  {
  }

  function Copied(pieces: seq<string>): seq<Option<string>>
  {
    seq(|pieces|, i requires 0 <= i < |pieces| => Some(pieces[i]))
  }

  lemma AllCutSlice(b: seq<char>, p: nat, s: string)
    requires p + |s| < |b|
    ensures |AllCut(b, p, s)| == |b| && AllCut(b, p, s)[p..p + |s| + 1] == Cut(s)
  {
  }

  lemma SliceParts(b: seq<char>, v: nat, end: nat, x: string, tail: string)
    requires v <= end <= |b| && b[v..end] == x + [NUL] + tail && NUL !in x
    ensures StringAt(b, v, x)
    ensures b[v + |x| + 1..end] == tail
  {
    assert b[v..v + |x|] == b[v..end][..|x|] == x;
    assert b[v + |x|] == b[v..end][|x|] == NUL;
    assert b[v + |x| + 1..end] == b[v..end][|x| + 1..] == tail;
  }

  /** What `Cut` leaves behind the NUL of the first word. */
  function CutTail(s: string): string
  {
    if Gap(s) == [] then [] else SpareBlanks(s) + Cut(AfterWord(s))
  }

  lemma NulFreeParts(s: string)
    requires NUL !in s
    ensures NUL !in FirstWord(s) && NUL !in SpareBlanks(s) && NUL !in AfterWord(s)
  {
  }

  lemma NoGapNoRest(s: string)
    ensures Gap(s) == [] ==> AfterWord(s) == []
    ensures Gap(s) != [] ==> |CutTail(s)| > 0
  {
  }

  lemma PieceAt(b: seq<char>, v: nat, end: nat, g: string, r: string)
    requires v < end <= |b| && b[v..end] == g + Cut(r) && NUL !in r && NUL !in g && r != []
    ensures StringAt(b, v, g + FirstWord(r))
    ensures var v' := v + |g + FirstWord(r)| + 1;
      AfterWord(r) != [] ==> v' < end && b[v'..end] == SpareBlanks(r) + Cut(AfterWord(r))
  {
    NulFreeParts(r);
    NoGapNoRest(r);
    CutHead(r);
    PieceParts(b, v, end, g, FirstWord(r), CutTail(r), Cut(r));
  }

  lemma PieceParts(b: seq<char>, v: nat, end: nat, g: string, w: string, tail: string, cut: string)
    requires v < end <= |b| && b[v..end] == g + cut && cut == w + [NUL] + tail
    requires NUL !in w && NUL !in g
    ensures StringAt(b, v, g + w)
    ensures v + |g + w| + 1 + |tail| == end && b[v + |g + w| + 1..end] == tail
  {
    assert g + (w + [NUL] + tail) == (g + w) + [NUL] + tail;
    SliceParts(b, v, end, g + w, tail);
  }
}
