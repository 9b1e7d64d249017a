/**
  The pages of src/sql/viewio.c: a list of rows is shown one window at a time in `lv`.

  The buffers `lv[i].line` of one window line each are sequences of `max + 1` characters.  What
  follows the number in the text of a row is its `title`, which may be anything.
*/
module ListPaging {
  import opened ArticleCache
  import opened ScreenLines

  datatype Item = Item(id: int, unread: int, title: string)
  datatype Line = Line(text: seq<char>, id: int, unread: int)

  /** `LIMIT off,len`. */
  function Window<T>(s: seq<T>, off: nat, len: nat): (w: seq<T>)
    ensures |w| <= len
    ensures w == [] <==> len == 0 || off >= |s|
  {
    if off >= |s| then [] else if off + len >= |s| then s[off..] else s[off..off + len]
  }

  // ---------------------------------------------------------------- what a line shows

  /** The line shows this row: the user sees the text of row `i` of the page. */
  ghost predicate ShowsRow(line: Line, max: nat, i: nat, item: Item)
  {
    && |line.text| == max + 1 && line.id == item.id && line.unread == item.unread
    && Printed(line.text, max) == Printed(RowText(i, item.title), max)
  }

  /** The user sees a blank line, and it does not count as a row. */
  ghost predicate ShowsNothing(line: Line, max: nat)
  {
    && |line.text| == max + 1
    && Printed(line.text, max) == Blanks(max)
    && !Counts(Text(line.text, max), max)
  }

  /** The display holds these rows and nothing else. */
  ghost predicate Shows(lines: seq<Line>, max: nat, rows: seq<Item>)
  {
    && |rows| <= |lines|
    && (forall i :: 0 <= i < |rows| ==> ShowsRow(lines[i], max, i, rows[i]))
    && (forall i :: |rows| <= i < |lines| ==> ShowsNothing(lines[i], max))
  }

  ghost predicate Sized(lines: seq<Line>, max: nat)
  {
    forall i :: 0 <= i < |lines| ==> |lines[i].text| == max + 1
  }

  lemma ShowsIsSized(lines: seq<Line>, max: nat, rows: seq<Item>)
    requires Shows(lines, max, rows)
    ensures Sized(lines, max)
  {
    forall i | 0 <= i < |lines| ensures |lines[i].text| == max + 1 {
      assert if i < |rows| then ShowsRow(lines[i], max, i, rows[i]) else ShowsNothing(lines[i], max);
    }
  }

  /** The lines that `print_crop` counts are exactly the rows, in a window of three columns or more. */
  lemma RowsAreCounted(lines: seq<Line>, max: nat, rows: seq<Item>, i: nat)
    requires Shows(lines, max, rows) && max >= 3 && i < |lines|
    ensures Counts(Text(lines[i].text, max), max) <==> i < |rows|
  {
    if i < |rows| {
      assert ShowsRow(lines[i], max, i, rows[i]);
      RowCounts(i, rows[i].title, max);
      PrintedAgain(lines[i].text, max);
    } else {
      assert ShowsNothing(lines[i], max);
    }
  }

  /** On the display, line i is seen as row i + 1 with its title, if it fits. */
  lemma ShownRowReads(lines: seq<Line>, max: nat, rows: seq<Item>, i: nat) returns (lead: nat, end: nat)
    requires Shows(lines, max, rows) && i < |rows|
    requires '\0' !in rows[i].title && |RowText(i, rows[i].title)| <= max
    ensures Reads(Printed(lines[i].text, max), lead, end, i, rows[i].title)
  {
    assert ShowsRow(lines[i], max, i, rows[i]);
    lead, end := PrintedRowReads(i, rows[i].title, max);
  }

  // ---------------------------------------------------------------- pages

  /** All pages from page `p` on, one after the other. */
  function PagesFrom<T>(s: seq<T>, len: nat, off: nat): seq<T>
    requires len >= 1
    decreases if off < |s| then |s| - off else 0
  {
    if Window(s, off, len) == [] then [] else Window(s, off, len) + PagesFrom(s, len, off + len)
  }

  /** The pages put together are the list: no gap and no repetition at a page boundary. */
  lemma {:induction false} PagesCoverList<T>(s: seq<T>, len: nat, off: nat)
    requires len >= 1
    ensures PagesFrom(s, len, off) == if off >= |s| then [] else s[off..]
    decreases if off < |s| then |s| - off else 0
  {
    if off < |s| {
      PagesCoverList(s, len, off + len);
      assert off + len < |s| ==> s[off..] == s[off..off + len] + s[off + len..];
    }
  }

  // ---------------------------------------------------------------- the code

  /** The row callbacks: one line per row, from line `ind` on. */
  method WriteRows(lv: array<Line>, max: nat, ind: nat, rows: seq<Item>) returns (ind': nat)
    requires ind + |rows| <= lv.Length && Sized(lv[..], max)
    modifies lv
    ensures ind' == ind + |rows| && Sized(lv[..], max)
    ensures forall i :: ind <= i < ind' ==> ShowsRow(lv[i], max, i, rows[i - ind])
    ensures forall i :: 0 <= i < lv.Length && !(ind <= i < ind') ==> lv[i] == old(lv[i])
  {
    ind' := ind;
    for k := 0 to |rows|
      invariant ind' == ind + k && Sized(lv[..], max)
      invariant forall i :: ind <= i < ind' ==> ShowsRow(lv[i], max, i, rows[i - ind])
      invariant forall i :: 0 <= i < lv.Length && !(ind <= i < ind') ==> lv[i] == old(lv[i])
    {
      assert |lv[..][ind'].text| == max + 1;
      lv[ind'] := Written(lv[ind'], max, ind', rows[k]);
      ind' := ind' + 1;
    }
  }

  /** One row callback: the number, the title, the id and the unread count. */
  function Written(line: Line, max: nat, i: nat, item: Item): (r: Line)
    requires |line.text| == max + 1
    ensures ShowsRow(r, max, i, item)
  {
    OverwrittenText(line.text, RowText(i, item.title), max);
    Line(Overwritten(line.text, RowText(i, item.title), max), item.id, item.unread)
  }

  method ClearRows(lv: array<Line>, max: nat, ind: nat)
    requires ind <= lv.Length && Sized(lv[..], max)
    modifies lv
    ensures forall i :: 0 <= i < ind ==> lv[i] == old(lv[i])
    ensures forall i :: ind <= i < lv.Length ==>
      ShowsNothing(lv[i], max) && lv[i].id == old(lv[i]).id && lv[i].unread == old(lv[i]).unread
  {
    for k := ind to lv.Length
      invariant forall i :: 0 <= i < ind || k <= i < lv.Length ==> lv[i] == old(lv[i])
      invariant forall i :: ind <= i < k ==>
        ShowsNothing(lv[i], max) && lv[i].id == old(lv[i]).id && lv[i].unread == old(lv[i]).unread
    {
      assert |old(lv[..])[k].text| == max + 1;
      lv[k] := Cleared(lv[k], max);
    }
  }

  /** `lv[k].line[0]=0`. */
  function Cleared(line: Line, max: nat): (r: Line)
    requires |line.text| == max + 1
    ensures ShowsNothing(r, max) && r.id == line.id && r.unread == line.unread
  {
    assert [] + Blanks(max) == Blanks(max);
    line.(text := ['\0'] + line.text[1..])
  }

  /** Cleared lines keep their old id and unread count. */
  ghost predicate KeepsStale(lines: seq<Line>, before: seq<Line>, n: nat)
  {
    && |lines| == |before|
    && forall i :: n <= i < |lines| ==> lines[i].id == before[i].id && lines[i].unread == before[i].unread
  }

  /** `write_feed_line`: the row of all unread articles is put in front of the grouped feeds by
      asking for one row less on the first page and shifting the others by one. */
  method WriteFeedLines(lv: array<Line>, max: nat, start: nat, unread: Item, groups: seq<Item>) returns (end: bool)
    requires lv.Length >= 1 && Sized(lv[..], max)
    modifies lv
    ensures end <==> Window([unread] + groups, start, lv.Length) == []
    ensures end ==> lv[..] == old(lv[..])
    ensures !end ==> Shows(lv[..], max, Window([unread] + groups, start, lv.Length))
    ensures !end ==> KeepsStale(lv[..], old(lv[..]), |Window([unread] + groups, start, lv.Length)|)
  {
    ghost var rows := Window([unread] + groups, start, lv.Length);
    FeedWindow(unread, groups, start, lv.Length);
    var ind, first, len := 0, start, lv.Length;
    if start == 0 {
      ind := WriteRows(lv, max, ind, [unread]);
      len := len - 1;
    } else {
      first := first - 1;
    }
    assert rows == (if start == 0 then [unread] else []) + Window(groups, first, len);
    ind := WriteTail(lv, max, ind, Window(groups, first, len), rows);
    if ind == 0 {
      return true;
    }
    ClearRows(lv, max, ind);
    return false;
  }

  /** The second query: the rows from line `ind` on. */
  method WriteTail(lv: array<Line>, max: nat, ind: nat, tail: seq<Item>, ghost rows: seq<Item>) returns (ind': nat)
    requires ind <= |rows| <= lv.Length && rows[ind..] == tail && Sized(lv[..], max)
    requires forall i :: 0 <= i < ind ==> ShowsRow(lv[i], max, i, rows[i])
    modifies lv
    ensures ind' == |rows| && Sized(lv[..], max)
    ensures forall i :: 0 <= i < ind' ==> ShowsRow(lv[i], max, i, rows[i])
    ensures forall i :: ind' <= i < lv.Length ==> lv[i] == old(lv[i])
    ensures tail == [] ==> lv[..] == old(lv[..])
  {
    ind' := WriteRows(lv, max, ind, tail);
    forall i | ind <= i < ind' ensures ShowsRow(lv[i], max, i, rows[i]) {
      assert rows[ind..][i - ind] == rows[i];
    }
  }

  /** The window over the list with the row of unread articles in front. */
  lemma FeedWindow(unread: Item, groups: seq<Item>, start: nat, len: nat)
    requires len >= 1
    ensures start == 0 ==> Window([unread] + groups, start, len) == [unread] + Window(groups, 0, len - 1)
    ensures start > 0 ==> Window([unread] + groups, start, len) == [] + Window(groups, start - 1, len)
  {
  }

  /** `write_entry_line`. */
  method WriteEntryLines(lv: array<Line>, max: nat, start: nat, entries: seq<Item>) returns (end: bool)
    requires lv.Length >= 1 && Sized(lv[..], max)
    modifies lv
    ensures end <==> Window(entries, start, lv.Length) == []
    ensures end ==> lv[..] == old(lv[..])
    ensures !end ==> Shows(lv[..], max, Window(entries, start, lv.Length))
    ensures !end ==> KeepsStale(lv[..], old(lv[..]), |Window(entries, start, lv.Length)|)
  {
    ghost var rows := Window(entries, start, lv.Length);
    var ind := WriteTail(lv, max, 0, Window(entries, start, lv.Length), rows);
    if ind == 0 {
      return true;
    }
    ClearRows(lv, max, ind);
    return false;
  }

  // ---------------------------------------------------------------- unread counts

  /** The entries counted for a feed; with `show_read_feeds` off only unread ones are joined. */
  function Group(entries: map<int, EntryRow>, feedId: int, showRead: bool): set<int>
  {
    set e | e in entries && entries[e].feedId == feedId && (showRead || entries[e].data.viewed == 0)
  }

  ghost function Pick<T>(s: set<T>): (x: T)
    requires s != {}
    ensures x in s
  {
    var x :| x in s;
    x
  }

  /** `SUM(Viewed)`. */
  ghost function SumViewed(entries: map<int, EntryRow>, ids: set<int>): int
    requires ids <= entries.Keys
  {
    if ids == {} then 0
    else
      var e := Pick(ids);
      entries[e].data.viewed + SumViewed(entries, ids - {e})
  }

  /** The row of a feed: `COUNT(Viewed)` minus `SUM(Viewed)`. */
  ghost function FeedUnread(entries: map<int, EntryRow>, feedId: int, showRead: bool): int
  {
    var ids := Group(entries, feedId, showRead);
    |ids| - SumViewed(entries, ids)
  }

  function UnreadIds(entries: map<int, EntryRow>): set<int>
  {
    set e | e in entries && entries[e].data.viewed == 0
  }

  /** The feeds that the join yields, each once, in the order in which the groups come. */
  ghost predicate ListsGroups(order: seq<int>, feeds: map<int, FeedRow>, entries: map<int, EntryRow>, showRead: bool)
  {
    && (forall i, j :: 0 <= i < j < |order| ==> order[i] != order[j])
    && (forall f :: f in order <==> f in feeds && Group(entries, f, showRead) != {})
  }

  ghost function SumUnread(entries: map<int, EntryRow>, order: seq<int>, showRead: bool): int
  {
    if order == [] then 0
    else SumUnread(entries, order[..|order| - 1], showRead) + FeedUnread(entries, order[|order| - 1], showRead)
  }

  ghost predicate ViewedIsBoolean(entries: map<int, EntryRow>)
  {
    forall e :: e in entries ==> entries[e].data.viewed == 0 || entries[e].data.viewed == 1
  }

  lemma CountMinusSum(entries: map<int, EntryRow>, ids: set<int>)
    requires ids <= entries.Keys && ViewedIsBoolean(entries)
    ensures |ids| - SumViewed(entries, ids) == |ids * UnreadIds(entries)|
    decreases |ids|
  {
    if ids != {} {
      var e := Pick(ids);
      CountMinusSum(entries, ids - {e});
      if entries[e].data.viewed == 0 {
        assert ids * UnreadIds(entries) == (ids - {e}) * UnreadIds(entries) + {e};
      } else {
        assert ids * UnreadIds(entries) == (ids - {e}) * UnreadIds(entries);
      }
    }
  }

  /** A feed's row counts its unread entries, for either setting of `show_read_feeds`. */
  lemma FeedCountsUnread(entries: map<int, EntryRow>, feedId: int, showRead: bool)
    requires ViewedIsBoolean(entries)
    ensures FeedUnread(entries, feedId, showRead) == |Group(entries, feedId, false)|
  {
    var ids := Group(entries, feedId, showRead);
    CountMinusSum(entries, ids);
    assert ids * UnreadIds(entries) == Group(entries, feedId, false);
  }

  lemma {:induction false} SumOverSome(entries: map<int, EntryRow>, order: seq<int>, showRead: bool)
    requires ViewedIsBoolean(entries) && forall i, j :: 0 <= i < j < |order| ==> order[i] != order[j]
    ensures SumUnread(entries, order, showRead) == |UnreadIn(entries, order)|
  {
    if order == [] {
      assert UnreadIn(entries, order) == {};
    } else {
      var front, last := order[..|order| - 1], order[|order| - 1];
      SumOverSome(entries, front, showRead);
      FeedCountsUnread(entries, last, showRead);
      OneMoreFeed(entries, order);
    }
  }

  /** The unread entries of some feeds. */
  function UnreadIn(entries: map<int, EntryRow>, order: seq<int>): set<int>
  {
    set e | e in UnreadIds(entries) && entries[e].feedId in order
  }

  lemma OneMoreFeed(entries: map<int, EntryRow>, order: seq<int>)
    requires order != [] && forall i, j :: 0 <= i < j < |order| ==> order[i] != order[j]
    ensures var front, last := order[..|order| - 1], order[|order| - 1];
      |UnreadIn(entries, order)| == |UnreadIn(entries, front)| + |Group(entries, last, false)|
  {
    var front, last := order[..|order| - 1], order[|order| - 1];
    assert order == front + [last] && last !in front;
    var a, b := UnreadIn(entries, front), Group(entries, last, false);
    forall e ensures e in UnreadIn(entries, order) <==> e in a || e in b {
      if e in entries {
        assert entries[e].feedId in order <==> entries[e].feedId in front || entries[e].feedId == last;
      }
    }
    assert UnreadIn(entries, order) == a + b && a !! b;
  }

  /** The count in the first row is the sum of the counts in all the others. */
  lemma UnreadRowIsSum(feeds: map<int, FeedRow>, entries: map<int, EntryRow>, order: seq<int>, showRead: bool)
    requires UniqueKeys(feeds, entries) && ViewedIsBoolean(entries) && ListsGroups(order, feeds, entries, showRead)
    ensures SumUnread(entries, order, showRead) == |UnreadIds(entries)|
  {
    SumOverSome(entries, order, showRead);
    forall e | e in UnreadIds(entries) ensures entries[e].feedId in order {
      assert e in Group(entries, entries[e].feedId, showRead);
    }
    assert UnreadIn(entries, order) == UnreadIds(entries);
  }

  // ---------------------------------------------------------------- the list of feeds, page by page

  function Ids(items: seq<Item>): (ids: seq<int>)
    ensures |ids| == |items|
  {
    seq(|items|, i requires 0 <= i < |items| => items[i].id)
  }

  /** The id and the unread count of a row. */
  function Pairs(items: seq<Item>): (pairs: seq<(int, int)>)
    ensures |pairs| == |items|
  {
    seq(|items|, i requires 0 <= i < |items| => (items[i].id, items[i].unread))
  }

  /** The rows that the two queries of `write_feed_line` yield. */
  ghost predicate FeedList(items: seq<Item>, feeds: map<int, FeedRow>, entries: map<int, EntryRow>, showRead: bool)
  {
    && items != [] && items[0].id == 0 && items[0].unread == |UnreadIds(entries)|
    && ListsGroups(Ids(items[1..]), feeds, entries, showRead)
    && (forall i :: 1 <= i < |items| ==> items[i].unread == FeedUnread(entries, items[i].id, showRead))
  }

  function SumCounts(pairs: seq<(int, int)>): int
  {
    if pairs == [] then 0 else SumCounts(pairs[..|pairs| - 1]) + pairs[|pairs| - 1].1
  }

  lemma {:induction false} SumOfCounts(items: seq<Item>, entries: map<int, EntryRow>, showRead: bool)
    requires forall i :: 0 <= i < |items| ==> items[i].unread == FeedUnread(entries, items[i].id, showRead)
    ensures SumCounts(Pairs(items)) == SumUnread(entries, Ids(items), showRead)
  {
    if items != [] {
      var front := items[..|items| - 1];
      SumOfCounts(front, entries, showRead);
      assert Pairs(items)[..|items| - 1] == Pairs(front) && Ids(items)[..|items| - 1] == Ids(front);
    }
  }

  /** What a user reads off one page: id and count of every line that counts as a row. */
  method ReadPage(lv: array<Line>, max: nat, ghost rows: seq<Item>) returns (shown: seq<(int, int)>)
    requires max >= 3 && Shows(lv[..], max, rows)
    ensures shown == Pairs(rows)
  {
    shown := [];
    for i := 0 to lv.Length
      invariant shown == if i <= |rows| then Pairs(rows[..i]) else Pairs(rows)
    {
      RowsAreCounted(lv[..], max, rows, i);
      if Counts(Text(lv[i].text, max), max) {
        assert ShowsRow(lv[..][i], max, i, rows[i]);
        assert Pairs(rows[..i + 1]) == Pairs(rows[..i]) + [(lv[i].id, lv[i].unread)];
        shown := shown + [(lv[i].id, lv[i].unread)];
      }
      assert rows[..|rows|] == rows;
    }
    assert rows[..|rows|] == rows;
  }

  /** Turning the pages of the list of feeds from the first one until the end is reported. */
  method ReadAllPages(lv: array<Line>, max: nat, unread: Item, groups: seq<Item>) returns (shown: seq<(int, int)>)
    requires lv.Length >= 1 && max >= 3 && Sized(lv[..], max)
    modifies lv
    ensures shown == Pairs([unread] + groups)
  {
    ghost var all := [unread] + groups;
    shown := [];
    var start := 0;
    assert all[..0] == [];
    while true
      invariant Sized(lv[..], max)
      invariant shown == Pairs(if start < |all| then all[..start] else all)
      decreases if start < |all| then |all| - start else 0
    {
      var end := WriteFeedLines(lv, max, start, unread, groups);
      if end {
        return;
      }
      ghost var rows := Window(all, start, lv.Length);
      var page := ReadPage(lv, max, rows);
      ShowsIsSized(lv[..], max, rows);
      PairsOfPage(all, start, lv.Length);
      shown := shown + page;
      start := start + lv.Length;
    }
  }

  lemma PairsOfPage(all: seq<Item>, start: nat, len: nat)
    requires start < |all|
    ensures Pairs(all[..start]) + Pairs(Window(all, start, len)) ==
      Pairs(if start + len < |all| then all[..start + len] else all)
  {
  }

  /** The list of feeds as the user pages through it: its first row counts the unread entries of all
      the others together. */
  method ReadFeedList(items: seq<Item>, ghost feeds: map<int, FeedRow>, ghost entries: map<int, EntryRow>,
                      showRead: bool, len: nat, max: nat) returns (shown: seq<(int, int)>)
    requires UniqueKeys(feeds, entries) && ViewedIsBoolean(entries) && FeedList(items, feeds, entries, showRead)
    requires len >= 1 && max >= 3
    ensures shown == Pairs(items)
    ensures shown[0] == (0, SumCounts(shown[1..])) && shown[0].1 == |UnreadIds(entries)|
  {
    var blank := seq(max + 1, _ => ' ');
    var lv := new Line[len](_ => Line(blank, 0, 0));
    shown := ReadAllPages(lv, max, items[0], items[1..]);
    assert [items[0]] + items[1..] == items;
    FirstRowIsSum(items, feeds, entries, showRead);
  }

  lemma FirstRowIsSum(items: seq<Item>, feeds: map<int, FeedRow>, entries: map<int, EntryRow>, showRead: bool)
    requires UniqueKeys(feeds, entries) && ViewedIsBoolean(entries) && FeedList(items, feeds, entries, showRead)
    ensures items[0].unread == SumCounts(Pairs(items)[1..])
  {
    var groups := items[1..];
    SumOfCounts(groups, entries, showRead);
    UnreadRowIsSum(feeds, entries, Ids(groups), showRead);
    assert Pairs(items)[1..] == Pairs(groups);
  }
}
