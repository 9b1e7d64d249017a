/**
  One line of the window: the text that src/sql/viewio.c writes into its buffer, and `print_crop` of
  src/ui/view.c, which pads the buffer and says whether the line counts as a row.
*/
module ScreenLines {

  // ---------------------------------------------------------------- text of a buffer

  /** The text of a buffer up to its NUL, as far as it fits the window. */
  function Text(s: seq<char>, max: nat): (t: seq<char>)
    ensures |t| <= max && |t| <= |s|
  {
    if s == [] || max == 0 || s[0] == '\0' then [] else [s[0]] + Text(s[1..], max - 1)
  }

  function Blanks(n: nat): (t: seq<char>)
    ensures |t| == n
  {
    seq(n, _ => ' ')
  }

  /** What the user sees: the text, padded with blanks to the width of the window. */
  function Printed(s: seq<char>, max: nat): (t: seq<char>)
    ensures |t| == max
  {
    Text(s, max) + Blanks(max - |Text(s, max)|)
  }

  /** A line with this text counts as a row. */
  predicate Counts(text: seq<char>, max: nat) { text != [] && text != Blanks(max) }

  lemma {:induction false} TextIs(s: seq<char>, max: nat, n: nat)
    requires n <= |s| && n <= max && (forall i :: 0 <= i < n ==> s[i] != '\0')
    requires n == max || (n < |s| && s[n] == '\0')
    ensures Text(s, max) == s[..n]
  {
    if n > 0 {
      TextIs(s[1..], max - 1, n - 1);
      assert s[..n] == [s[0]] + s[1..][..n - 1];
    }
  }

  lemma {:induction false} TextAt(s: seq<char>, max: nat, k: nat)
    requires k < |s| && k < max && forall i :: 0 <= i <= k ==> s[i] != '\0'
    ensures k < |Text(s, max)| && Text(s, max)[k] == s[k]
  {
    if k > 0 {
      TextAt(s[1..], max - 1, k - 1);
    }
  }

  lemma {:induction false} TextHasNoNul(s: seq<char>, max: nat)
    ensures '\0' !in Text(s, max)
  {
    if s != [] && max > 0 && s[0] != '\0' {
      TextHasNoNul(s[1..], max - 1);
    }
  }

  lemma PrintedTextIs(s: seq<char>, max: nat)
    ensures Text(Printed(s, max) + ['\0'], max) == Printed(s, max)
  {
    var padded := Printed(s, max);
    TextHasNoNul(s, max);
    forall i | 0 <= i < max ensures (padded + ['\0'])[i] != '\0' {
      assert i < |Text(s, max)| ==> padded[i] in Text(s, max);
    }
    TextIs(padded + ['\0'], max, max);
    assert (padded + ['\0'])[..max] == padded;
  }

  /** Printing a line again gives the same text; a cleared line stays uncounted although it is then
      full of blanks, and a line with any other character stays counted. */
  lemma PrintedAgain(s: seq<char>, max: nat)
    ensures var again := Printed(s, max) + ['\0'];
      && Printed(again, max) == Printed(s, max)
      && (Counts(Text(again, max), max) <==> Printed(s, max) != Blanks(max))
      && (Printed(s, max) != Blanks(max) ==> Counts(Text(s, max), max))
  {
    PrintedTextIs(s, max);
    var again := Printed(s, max) + ['\0'];
    assert Printed(again, max) == Printed(s, max) + Blanks(0);
    if Text(s, max) == [] {
      assert Printed(s, max) == Blanks(max);
    } else if Text(s, max) == Blanks(max) {
      assert Printed(s, max) == Blanks(max) + Blanks(0);
    }
  }

  // ---------------------------------------------------------------- print_crop

  /** `print_crop`: pads the line with blanks in place and says whether it counts as a row: it does
      unless it is empty or blank over its whole width. */
  method PrintCrop(line: array<char>, max: nat) returns (shown: bool)
    requires line.Length == max + 1
    modifies line
    ensures shown <==> Counts(Text(old(line[..]), max), max)
    ensures line[..] == Printed(old(line[..]), max) + ['\0']
  {
    ghost var s := line[..];
    var blank, n := ScanText(line, max);
    shown := line[0] != '\0' && blank != max;
    TextIs(s, max, n);
    assert blank == max ==> s[..n] == Blanks(max);
    assert blank < n ==> s[..n][blank] != ' ';
    PadText(line, max, n);
  }

  /** The third loop and the NUL. */
  method PadText(line: array<char>, max: nat, n: nat)
    requires n <= max && line.Length == max + 1
    modifies line
    ensures line[..] == old(line[..n]) + Blanks(max - n) + ['\0']
  {
    for i := n to max
      invariant forall j :: 0 <= j < n ==> line[j] == old(line[j])
      invariant forall j :: n <= j < i ==> line[j] == ' '
    {
      line[i] := ' ';
    }
    line[max] := '\0';
  }

  /** The two scans: over leading blanks, and on to the end of the text. */
  method ScanText(line: array<char>, max: nat) returns (blank: nat, n: nat)
    requires line.Length == max + 1
    ensures blank <= n <= max
    ensures forall j :: 0 <= j < blank ==> line[j] == ' '
    ensures forall j :: 0 <= j < n ==> line[j] != '\0'
    ensures blank < n ==> line[blank] != ' '
    ensures n < max ==> line[n] == '\0'
  {
    blank := 0;
    while blank < max && line[blank] != '\0' && line[blank] == ' '
      invariant blank <= max
      invariant forall j :: 0 <= j < blank ==> line[j] == ' '
    {
      blank := blank + 1;
    }
    n := blank;
    while n < max && line[n] != '\0'
      invariant blank <= n <= max
      invariant forall j :: 0 <= j < n ==> line[j] != '\0'
    {
      n := n + 1;
    }
  }

  // ---------------------------------------------------------------- writing a row

  /** `chars_to_widechars`: the text, as far as it fits, and a NUL if there is room for it. */
  function Overwritten(buf: seq<char>, s: seq<char>, max: nat): (r: seq<char>)
    requires |buf| == max + 1
    ensures |r| == max + 1
  {
    var t := Text(s, max);
    if |t| < max then t + ['\0'] + buf[|t| + 1..] else t + buf[max..]
  }

  lemma OverwrittenText(buf: seq<char>, s: seq<char>, max: nat)
    requires |buf| == max + 1
    ensures Text(Overwritten(buf, s, max), max) == Text(s, max)
  {
    var t, r := Text(s, max), Overwritten(buf, s, max);
    TextHasNoNul(s, max);
    assert forall i :: 0 <= i < |t| ==> r[i] == t[i] && t[i] in t;
    TextIs(r, max, |t|);
    assert r[..|t|] == t;
  }

  function Digits(n: nat): (t: string)
    ensures |t| >= 1
  {
    (if n < 10 then [] else Digits(n / 10)) + [('0' as int + n % 10) as char]
  }

  lemma {:induction false} DigitsShow(n: nat)
    ensures forall i :: 0 <= i < |Digits(n)| ==> '0' <= Digits(n)[i] <= '9'
  {
    if n >= 10 {
      DigitsShow(n / 10);
    }
  }

  /** `%3d  ` and what follows: every row starts with its number on the page, counted from 1. */
  function RowText(i: nat, title: string): string
  {
    var digits := Digits(i + 1);
    Blanks(if |digits| < 3 then 3 - |digits| else 0) + digits + Blanks(2) + title
  }

  /** A decimal number, most significant digit first. */
  function Value(digits: string): int
  {
    if digits == [] then 0
    else 10 * Value(digits[..|digits| - 1]) + (digits[|digits| - 1] as int - '0' as int)
  }

  lemma {:induction false} DigitsRead(n: nat)
    ensures Value(Digits(n)) == n
  {
    var front := if n < 10 then [] else Digits(n / 10);
    if n >= 10 {
      DigitsRead(n / 10);
    }
    OneMoreDigit(front, n % 10);
  }

  lemma OneMoreDigit(front: string, d: nat)
    requires d < 10
    ensures Value(front + [('0' as int + d) as char]) == 10 * Value(front) + d
  {
    var more := front + [('0' as int + d) as char];
    assert more[..|more| - 1] == front;
  }

  /** The text of row `i` reads: blanks, the number i + 1 right-aligned to three characters, two blanks,
      and the title. */
  ghost predicate Reads(text: string, lead: nat, end: nat, i: nat, title: string)
  {
    && lead < end && end + 2 + |title| <= |text| && end >= 3 && (lead > 0 ==> end == 3)
    && (forall j :: 0 <= j < lead ==> text[j] == ' ')
    && (forall j :: lead <= j < end ==> '0' <= text[j] <= '9')
    && Value(text[lead..end]) == i + 1
    && text[end] == ' ' && text[end + 1] == ' ' && text[end + 2..end + 2 + |title|] == title
  }

  lemma RowTextReads(i: nat, title: string) returns (lead: nat, end: nat)
    ensures Reads(RowText(i, title), lead, end, i, title) && |RowText(i, title)| == end + 2 + |title|
  {
    lead, end := RowTextParts(i, title, RowText(i, title), Digits(i + 1));
    DigitsRead(i + 1);
    DigitsShow(i + 1);
    SlicesRead(RowText(i, title), lead, end, Digits(i + 1), i, title);
  }

  lemma RowTextParts(i: nat, title: string, t: string, digits: string) returns (lead: nat, end: nat)
    requires t == RowText(i, title) && digits == Digits(i + 1)
    ensures lead < end && end >= 3 && (lead > 0 ==> end == 3) && |t| == end + 2 + |title|
    ensures t[..lead] == Blanks(lead) && t[lead..end] == digits && t[end..end + 2] == Blanks(2)
    ensures t[end + 2..end + 2 + |title|] == title
  {
    lead := if |digits| < 3 then 3 - |digits| else 0;
    end := lead + |digits|;
    FourParts(t, Blanks(lead), digits, Blanks(2), title, lead, end);
  }

  lemma FourParts(t: string, a: string, b: string, c: string, d: string, p: nat, q: nat)
    requires t == a + b + c + d && |a| == p && |b| == q - p && |c| == 2
    ensures |t| == q + 2 + |d| && t[..p] == a && t[p..q] == b && t[q..q + 2] == c && t[q + 2..q + 2 + |d|] == d
  {
  }

  lemma SlicesRead(t: string, lead: nat, end: nat, digits: string, i: nat, title: string)
    requires lead < end && end >= 3 && (lead > 0 ==> end == 3) && |t| == end + 2 + |title|
    requires t[..lead] == Blanks(lead) && t[end..end + 2] == Blanks(2)
    requires t[lead..end] == digits && Value(digits) == i + 1
    requires forall j :: 0 <= j < |digits| ==> '0' <= digits[j] <= '9'
    requires t[end + 2..end + 2 + |title|] == title
    ensures Reads(t, lead, end, i, title)
  {
    forall j | 0 <= j < lead ensures t[j] == ' ' {
      assert t[j] == t[..lead][j];
    }
    forall j | lead <= j < end ensures '0' <= t[j] <= '9' {
      assert t[j] == t[lead..end][j - lead];
    }
    assert t[end] == t[end..end + 2][0] && t[end + 1] == t[end..end + 2][1];
  }

  /** A row that fits the window is seen with its number and its title. */
  lemma PrintedRowReads(i: nat, title: string, max: nat) returns (lead: nat, end: nat)
    requires '\0' !in title && |RowText(i, title)| <= max
    ensures Reads(Printed(RowText(i, title) + ['\0'], max), lead, end, i, title)
    ensures Printed(RowText(i, title) + ['\0'], max) == Printed(RowText(i, title), max)
  {
    lead, end := RowTextReads(i, title);
    var t := RowText(i, title);
    forall j | 0 <= j < |t| ensures t[j] != '\0' {
      assert j >= end + 2 ==> t[j] == t[end + 2..][j - end - 2] && t[end + 2..][j - end - 2] in title;
    }
    WholeText(t, max);
    ReadsInFront(t, Printed(t, max), lead, end, i, title);
  }

  lemma ReadsInFront(t: string, p: string, lead: nat, end: nat, i: nat, title: string)
    requires Reads(t, lead, end, i, title) && |t| <= |p| && p[..|t|] == t
    ensures Reads(p, lead, end, i, title)
  {
    assert forall j :: 0 <= j < |t| ==> p[j] == t[j];
    assert p[lead..end] == t[lead..end];
    assert p[end + 2..end + 2 + |title|] == t[end + 2..end + 2 + |title|];
  }

  lemma {:induction false} WholeText(t: string, max: nat)
    requires |t| <= max && forall j :: 0 <= j < |t| ==> t[j] != '\0'
    ensures Text(t, max) == t && Text(t + ['\0'], max) == t
    ensures Printed(t, max)[..|t|] == t && Printed(t + ['\0'], max) == Printed(t, max)
  {
    if t != [] {
      WholeText(t[1..], max - 1);
      assert (t + ['\0'])[1..] == t[1..] + ['\0'];
    }
  }

  /** A row counts, whatever its title, if the window has room for three characters. */
  lemma RowCounts(i: nat, title: string, max: nat)
    requires max >= 3
    ensures Printed(RowText(i, title), max) != Blanks(max)
  {
    var digits, s := Digits(i + 1), RowText(i, title);
    var lead := if |digits| < 3 then 3 - |digits| else 0;
    DigitsShow(i + 1);
    assert forall j :: 0 <= j < lead ==> s[j] == ' ';
    assert s[lead] == digits[0];
    TextAt(s, max, lead);
    assert Printed(s, max)[lead] == digits[0] != Blanks(max)[lead];
  }

  /** The first row of a page counts exactly if there is room for its number. */
  lemma FirstRowCountsExactlyWhen(title: string, max: nat)
    ensures Counts(Text(RowText(0, title), max), max) <==> max >= 3
  {
    var s := RowText(0, title);
    if max >= 3 {
      RowCounts(0, title, max);
      PrintedAgain(s, max);
    } else {
      assert Digits(1) == ['1'];
      assert s[0] == ' ' && s[1] == ' ';
      TextIs(s, max, max);
      assert s[..max] == Blanks(max);
    }
  }
}
