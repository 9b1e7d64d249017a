/**
  The cursor of src/ui/view.c over a list that is shown one page at a time.

  The window size is fixed.  `feeds` is the list of all feeds with the row of unread articles in
  front, `groups` the same without that row, and `entriesOf` gives the rows of a feed, or of all
  unread articles for id 0.
*/
module ListCursor {
  import opened ListPaging
  import opened ScreenLines

  datatype Context = Feeds | Entries
  datatype Answer = Ok | Update | Exit  // KH_RET_OK, KH_RET_UPDATE, KH_RET_EXIT

  // ---------------------------------------------------------------- painting

  /** The display after every line was printed. */
  ghost predicate Repainted(lines: seq<Line>, before: seq<Line>, max: nat)
  {
    && |lines| == |before|
    && forall i :: 0 <= i < |lines| ==> lines[i] == before[i].(text := Printed(before[i].text, max) + ['\0'])
  }

  /** The last line that counts as a row, or `c` if none does. */
  function LastCounted(lines: seq<Line>, max: nat, c: nat): nat
  {
    if lines == [] then c
    else if Counts(Text(lines[|lines| - 1].text, max), max) then |lines| - 1
    else LastCounted(lines[..|lines| - 1], max, c)
  }

  lemma {:induction false} LastCountedIs(lines: seq<Line>, max: nat, c: nat, n: nat)
    requires n <= |lines|
    requires forall i :: 0 <= i < |lines| ==> (Counts(Text(lines[i].text, max), max) <==> i < n)
    ensures LastCounted(lines, max, c) == if n == 0 then c else n - 1
  {
    if |lines| > n {
      LastCountedIs(lines[..|lines| - 1], max, c, n);
    }
  }

  /** `content_bw_max` becomes the last row of the page. */
  lemma LastRowIsLastCounted(lines: seq<Line>, max: nat, c: nat, rows: seq<Item>)
    requires Shows(lines, max, rows) && max >= 3
    ensures LastCounted(lines, max, c) == if rows == [] then c else |rows| - 1
  {
    forall i: nat | i < |lines| ensures Counts(Text(lines[i].text, max), max) <==> i < |rows| {
      RowsAreCounted(lines, max, rows, i);
    }
    LastCountedIs(lines, max, c, |rows|);
  }

  /** Painting changes nothing that the user sees. */
  lemma RepaintedShows(lines: seq<Line>, before: seq<Line>, max: nat, rows: seq<Item>)
    requires Repainted(lines, before, max) && Shows(before, max, rows)
    ensures Shows(lines, max, rows)
  {
    forall i | 0 <= i < |lines|
      ensures if i < |rows| then ShowsRow(lines[i], max, i, rows[i]) else ShowsNothing(lines[i], max)
    {
      PrintedAgain(before[i].text, max);
      assert if i < |rows| then ShowsRow(before[i], max, i, rows[i]) else ShowsNothing(before[i], max);
    }
  }

  /** The user sees the same in both displays. */
  ghost predicate LooksLike(lines: seq<Line>, before: seq<Line>, max: nat)
  {
    |lines| == |before| && forall i :: 0 <= i < |lines| ==> Printed(lines[i].text, max) == Printed(before[i].text, max)
  }

  /** Two displays of the same rows look the same. */
  lemma SameScreen(lines: seq<Line>, before: seq<Line>, max: nat, rows: seq<Item>)
    requires |lines| == |before| && Shows(lines, max, rows) && Shows(before, max, rows)
    ensures LooksLike(lines, before, max)
  {
    forall i | 0 <= i < |lines| ensures Printed(lines[i].text, max) == Printed(before[i].text, max) {
      assert if i < |rows| then ShowsRow(lines[i], max, i, rows[i]) && ShowsRow(before[i], max, i, rows[i])
             else ShowsNothing(lines[i], max) && ShowsNothing(before[i], max);
    }
  }

  /** `print_crop` on one line. */
  method PrintLine(line: Line, max: nat) returns (painted: Line, shown: bool)
    requires |line.text| == max + 1
    ensures painted == line.(text := Printed(line.text, max) + ['\0'])
    ensures shown <==> Counts(Text(line.text, max), max)
  {
    var str := new char[max + 1](i requires 0 <= i < |line.text| => line.text[i]);
    assert str[..] == line.text;
    shown := PrintCrop(str, max);
    painted := line.(text := str[..]);
  }

  // ---------------------------------------------------------------- the flat list

  datatype Move = MoveNext | MovePrev | MoveLow | MoveMid | MoveHigh

  /** What a move does to the index `a` into the list as a whole; `first` is the index of the top
      row of its page, which has room for `len` rows.  The index may be behind the last row. */
  function FlatAfter(a: nat, m: Move, first: nat, n: nat, len: nat): (b: nat)
    requires a <= n && first < n && len >= 1
    ensures b < n
  {
    var last := if first + len < n then first + len - 1 else n - 1;
    match m
    case MoveNext => if a + 1 < n then a + 1 else n - 1
    case MovePrev => if a > 0 then a - 1 else 0
    case MoveLow => last
    case MoveMid => first + (last - first) / 2
    case MoveHigh => first
  }

  lemma LastOnPage<T>(s: seq<T>, top: nat, len: nat)
    requires Window(s, top, len) != []
    ensures top + |Window(s, top, len)| - 1 == if top + len < |s| then top + len - 1 else |s| - 1
  {
  }

  /** The top row of the page that holds row `a`. */
  function TopRow(a: nat, len: nat): (top: nat)
    requires len >= 1
    ensures top <= a < top + len
  {
    if a < len then 0 else len + TopRow(a - len, len)
  }

  /** A sequence of moves. */
  function FlatRun(a: nat, moves: seq<Move>, n: nat, len: nat): (b: nat)
    requires len >= 1 && a < n
    ensures b < n
    decreases |moves|
  {
    if moves == [] then a
    else
      var b := FlatRun(a, moves[..|moves| - 1], n, len);
      FlatAfter(b, moves[|moves| - 1], TopRow(b, len), n, len)
  }

  lemma FlatStep(a: nat, moves: seq<Move>, i: nat, n: nat, len: nat)
    requires len >= 1 && a < n && i < |moves|
    ensures var b := FlatRun(a, moves[..i], n, len);
      FlatRun(a, moves[..i + 1], n, len) == FlatAfter(b, moves[i], TopRow(b, len), n, len)
  {
    assert moves[..i + 1][..i] == moves[..i];
  }

  /** Pressing next k times goes k rows down, as far as the last row, across any page boundaries. */
  lemma {:induction false} NextsGoDown(a: nat, k: nat, n: nat, len: nat)
    requires len >= 1 && a < n
    ensures FlatRun(a, seq(k, _ => MoveNext), n, len) == if a + k < n then a + k else n - 1
  {
    if k > 0 {
      NextsGoDown(a, k - 1, n, len);
      assert seq(k, _ => MoveNext)[..k - 1] == seq(k - 1, _ => MoveNext);
    }
  }

  /** Low and next turn the page forward, high and previous turn it back; mid is half-way between high
      and low. */
  lemma PageMoves(a: nat, first: nat, n: nat, len: nat)
    requires len >= 1 && first <= a < n && a < first + len
    ensures var low, mid, high := FlatAfter(a, MoveLow, first, n, len), FlatAfter(a, MoveMid, first, n, len),
        FlatAfter(a, MoveHigh, first, n, len);
      && first <= high <= mid <= low < first + len && (mid - high == low - mid || mid - high + 1 == low - mid)
      && FlatAfter(low, MoveNext, first, n, len) == (if first + len < n then first + len else n - 1)
      && FlatAfter(high, MovePrev, first, n, len) == (if first > 0 then first - 1 else 0)
  {
  }

  lemma {:induction false} PrevsGoUp(a: nat, k: nat, n: nat, len: nat)
    requires len >= 1 && a < n
    ensures FlatRun(a, seq(k, _ => MovePrev), n, len) == if k < a then a - k else 0
  {
    if k > 0 {
      PrevsGoUp(a, k - 1, n, len);
      assert seq(k, _ => MovePrev)[..k - 1] == seq(k - 1, _ => MovePrev);
    }
  }

  lemma NextTop(page: nat, len: nat)
    ensures page * len >= 0 && (page + 1) * len == page * len + len
  {
  }

  lemma {:induction false} TopOf(page: nat, cursor: nat, len: nat, top: nat)
    requires cursor < len && top == page * len
    ensures TopRow(top + cursor, len) == top
    decreases page
  {
    if page > 0 {
      NextTop(page - 1, len);
      TopOf(page - 1, cursor, len, (page - 1) * len);
    }
  }

  // ---------------------------------------------------------------- the window

  class MainWindow {
    var feeds: seq<Item>
    var groups: seq<Item>
    var entriesOf: int -> seq<Item>
    const lv: array<Line>
    const width: nat
    var page: nat
    var ctx: Context
    var ctxId: int
    var cursor: nat
    var contentMax: nat
    var backupCursor: nat
    var backupPage: nat

    /** `setup_ui`; the buffers hold anything. */
    constructor (feeds: seq<Item>, entriesOf: int -> seq<Item>, len: nat, width: nat)
      requires feeds != [] && len >= 1 && width >= 3
      ensures Fixed() && Buffers() && fresh(lv) && lv.Length == len && this.width == width
      ensures this.feeds == feeds && this.entriesOf == entriesOf
      ensures ctx == Feeds && page == 0 && cursor == 0
    {
      this.feeds, this.groups, this.entriesOf := feeds, feeds[1..], entriesOf;
      var buffer := seq(width + 1, _ => ' ');
      lv := new Line[len](_ => Line(buffer, 0, 0));
      this.width := width;
      page, ctx, ctxId, cursor, contentMax, backupCursor, backupPage := 0, Feeds, 0, 0, 0, 0, 0;
    }

    function Items(): seq<Item>
      reads this`feeds, this`entriesOf, this`ctx, this`ctxId
    {
      if ctx == Feeds then feeds else entriesOf(ctxId)
    }

    ghost function CurrentPage(): seq<Item>
      reads this`feeds, this`entriesOf, this`ctx, this`ctxId, this`page
    {
      Window(Items(), Top(), lv.Length)
    }

    ghost predicate Fixed()
      reads this`feeds, this`groups
    {
      lv.Length >= 1 && width >= 3 && feeds != [] && feeds == [feeds[0]] + groups
    }

    ghost predicate Buffers()
      reads lv
    {
      Sized(lv[..], width)
    }

    /** The display holds the current page. */
    ghost predicate Displayed()
      reads this`feeds, this`groups, this`entriesOf, this`ctx, this`ctxId, this`page, lv
    {
      Fixed() && CurrentPage() != [] && Shows(lv[..], width, CurrentPage())
    }

    /** The state between two keys: `content_bw_max` is the last row, the cursor is on a row. */
    ghost predicate Valid()
      reads this, lv
    {
      Displayed() && contentMax == |CurrentPage()| - 1 && cursor <= contentMax
    }

    /** The cursor is on a row, or on the blank line behind the last row of the list. */
    ghost predicate OnOrBehind()
      reads this`feeds, this`entriesOf, this`ctx, this`ctxId, this`page, this`cursor
    {
      cursor < lv.Length && cursor <= |CurrentPage()|
    }

    /** The state between two keys if the list may have lost a row under the cursor. */
    ghost predicate Listed()
      reads this, lv
    {
      Displayed() && contentMax == |CurrentPage()| - 1 && OnOrBehind()
    }

    /** The index of the top row, and of the row under the cursor, in the list as a whole. */
    ghost function Top(): nat reads this`page { page * lv.Length }

    ghost function Flat(): nat reads this`page, this`cursor { Top() + cursor }

    /** `request_list_update`: `cache_gen_lines`. */
    method RequestListUpdate() returns (end: bool)
      requires Fixed() && Buffers()
      modifies lv
      ensures Buffers() && (end <==> CurrentPage() == [])
      ensures end ==> lv[..] == old(lv[..])
      ensures !end ==> Displayed() && KeepsStale(lv[..], old(lv[..]), |CurrentPage()|)
    {
      if ctx == Feeds {
        end := WriteFeedLines(lv, width, page * lv.Length, feeds[0], groups);
      } else {
        end := WriteEntryLines(lv, width, page * lv.Length, entriesOf(ctxId));
      }
      if !end {
        ShowsIsSized(lv[..], width, CurrentPage());
      }
    }

    /** `update_view`: every line is printed, and `content_bw_max` becomes the last one that counts.  If
        none does, it stays what it was. */
    method UpdateView()
      requires Buffers()
      modifies this`contentMax, lv
      ensures Buffers() && Repainted(lv[..], old(lv[..]), width)
      ensures contentMax == LastCounted(old(lv[..]), width, old(contentMax))
    {
      ghost var before := lv[..];
      for i := 0 to lv.Length
        invariant forall j :: 0 <= j < i ==> lv[j] == before[j].(text := Printed(before[j].text, width) + ['\0'])
        invariant forall j :: i <= j < lv.Length ==> lv[j] == before[j]
        invariant contentMax == LastCounted(before[..i], width, old(contentMax))
      {
        var line, shown := PrintLine(lv[i], width);
        lv[i] := line;
        assert before[..i + 1][..i] == before[..i];
        if shown {
          contentMax := i;
        }
      }
      assert before[..lv.Length] == before;
    }

    /** `update_view` of a page with rows. */
    method ShowPage()
      requires Displayed()
      modifies this`contentMax, lv
      ensures Displayed() && contentMax == |CurrentPage()| - 1
    {
      ghost var before, rows := lv[..], CurrentPage();
      ShowsIsSized(before, width, rows);
      LastRowIsLastCounted(before, width, contentMax, rows);
      UpdateView();
      RepaintedShows(lv[..], before, width, rows);
    }

    /** The first page is listed before the first key. */
    method Start()
      requires Fixed() && Buffers() && ctx == Feeds && page == 0 && cursor == 0
      modifies this`contentMax, lv
      ensures Valid() && Flat() == 0
    {
      var end := RequestListUpdate();
      ShowPage();
    }

    method Position() returns (flat: nat)
      requires Valid()
      ensures flat == Flat() && flat < |Items()| && TopRow(flat, lv.Length) == Top()
    {
      flat := page * lv.Length + cursor;
      TopOf(page, cursor, lv.Length, Top());
    }

    method LowItem() returns (ret: Answer)
      requires Listed()
      modifies this`cursor
      ensures Valid() && ret == Ok && cursor == |CurrentPage()| - 1
    {
      cursor := contentMax;
      ret := Ok;
    }

    method MidItem() returns (ret: Answer)
      requires Listed()
      modifies this`cursor
      ensures Valid() && ret == Ok && cursor == (|CurrentPage()| - 1) / 2
    {
      cursor := contentMax / 2;
      ret := Ok;
    }

    method HighItem() returns (ret: Answer)
      requires Listed()
      modifies this`cursor
      ensures Valid() && ret == Ok && cursor == 0
    {
      cursor := 0;
      ret := Ok;
    }

    /** `next_item`: a page turn past the end of the list is undone. */
    method NextItem() returns (ret: Answer)
      requires Listed()
      modifies this`cursor, this`page, lv
      ensures Displayed() && ret != Exit && OnOrBehind() && (cursor < |CurrentPage()| <==> old(Valid()))
      ensures ret == Ok ==> Listed() && page == old(page)
      ensures Flat() == if old(Flat()) + 1 < |Items()| then old(Flat()) + 1 else old(Flat())
    {
      ret := Ok;
      if cursor < contentMax {
        cursor := cursor + 1;
      } else if contentMax == lv.Length - 1 {
        ret := NextPage(Top());
      }
    }

    /** The page turn. */
    method NextPage(ghost top: nat) returns (ret: Answer)
      requires Valid() && cursor == contentMax == lv.Length - 1 && top == Top()
      modifies this`cursor, this`page, lv
      ensures if top + lv.Length < |Items()|
              then ret == Update && Displayed() && cursor == 0 && Top() == top + lv.Length
              else ret == Ok && Valid() && cursor == old(cursor) && page == old(page)
    {
      ShowsIsSized(lv[..], width, CurrentPage());
      NextTop(page, lv.Length);
      cursor := 0;
      page := page + 1;
      ret := Ok;
      var end := RequestListUpdate();
      if end {
        cursor := contentMax;
        page := page - 1;
      } else {
        ret := Update;
      }
    }

    /** `prev_item`. */
    method PrevItem() returns (ret: Answer)
      requires Listed()
      modifies this`cursor, this`page, lv
      ensures Displayed() && ret != Exit && cursor < |CurrentPage()|
      ensures ret == Ok ==> Valid() && page == old(page)
      ensures Flat() == if old(Flat()) > 0 then old(Flat()) - 1 else 0
    {
      ret := Ok;
      if cursor > 0 {
        cursor := cursor - 1;
      } else if page > 0 {
        ret := PrevPage(Top());
      }
    }

    method PrevPage(ghost top: nat) returns (ret: Answer)
      requires Listed() && page > 0 && top == Top()
      modifies this`cursor, this`page, lv
      ensures ret == Update && Displayed() && cursor == lv.Length - 1 == |CurrentPage()| - 1 && Top() == top - lv.Length
    {
      ShowsIsSized(lv[..], width, CurrentPage());
      NextTop(page - 1, lv.Length);
      page := page - 1;
      cursor := lv.Length - 1;
      var end := RequestListUpdate();
      ret := Update;
    }

    /** The handler of a move key. */
    method Handle(m: Move, ghost a: nat, ghost top: nat) returns (ret: Answer)
      requires Listed() && a == Flat() && top == Top()
      modifies this`cursor, this`page, lv
      ensures Displayed() && ret != Exit && OnOrBehind()
      ensures cursor < |CurrentPage()| <==> old(Valid()) || m != MoveNext
      ensures ret == Ok ==> Listed() && page == old(page)
      ensures Flat() == if cursor < |CurrentPage()| then FlatAfter(a, m, top, |Items()|, lv.Length) else a
    {
      match m {
        case MoveNext => ret := NextItem();
        case MovePrev => ret := PrevItem();
        case MoveLow => ret := Jump(m, a, top);
        case MoveMid => ret := Jump(m, a, top);
        case MoveHigh => ret := Jump(m, a, top);
      }
    }

    /** The handlers that stay on the page. */
    method Jump(m: Move, ghost a: nat, ghost top: nat) returns (ret: Answer)
      requires Listed() && a == Flat() && top == Top() && !m.MoveNext? && !m.MovePrev?
      modifies this`cursor
      ensures Valid() && ret == Ok && Flat() == FlatAfter(a, m, top, |Items()|, lv.Length)
    {
      LastOnPage(Items(), top, lv.Length);
      match m {
        case MoveLow => ret := LowItem();
        case MoveMid => ret := MidItem();
        case MoveHigh => ret := HighItem();
      }
    }

    /** A move key in `run_ui`: the handler, and `update_view` if it asks for it.  From behind the
        last row every move but next leads back to a row. */
    method MoveCursor(m: Move, ghost a: nat, ghost top: nat)
      requires Listed() && a == Flat() && top == Top()
      modifies this`cursor, this`page, this`contentMax, lv
      ensures Listed() && (Valid() <==> old(Valid()) || m != MoveNext)
      ensures Flat() == if Valid() then FlatAfter(a, m, top, |Items()|, lv.Length) else a
    {
      var ret := Handle(m, a, top);
      if ret == Update {
        ShowPage();
      }
    }

    method MoveOne(m: Move, ghost a: nat)
      requires Valid() && a == Flat()
      modifies this`cursor, this`page, this`contentMax, lv
      ensures Valid()
      ensures Flat() == FlatAfter(a, m, TopRow(a, lv.Length), |Items()|, lv.Length)
    {
      ghost var top := Top();
      TopOf(page, cursor, lv.Length, top);
      assert TopRow(a, lv.Length) == top;
      MoveCursor(m, a, top);
    }

    /** Any sequence of moves follows the index into the list as a whole. */
    method MoveAll(moves: seq<Move>)
      requires Valid()
      modifies this`cursor, this`page, this`contentMax, lv
      ensures Valid()
      ensures Flat() == FlatRun(old(Flat()), moves, |Items()|, lv.Length)
    {
      for i := 0 to |moves|
        invariant Valid()
        invariant Flat() == FlatRun(old(Flat()), moves[..i], |Items()|, lv.Length)
      {
        FlatStep(old(Flat()), moves, i, |Items()|, lv.Length);
        MoveOne(moves[i], Flat());
      }
      assert moves[..|moves|] == moves;
    }

    /** `view_to_feeds`.  If the saved page is gone, the display stays as it was. */
    method ViewToFeeds()
      requires Fixed() && Buffers()
      modifies this`page, this`ctx, this`ctxId, lv
      ensures Buffers() && page == backupPage && ctx == Feeds && ctxId == 0 && CurrentPage() == HomePage()
      ensures CurrentPage() == [] ==> lv[..] == old(lv[..])
      ensures CurrentPage() != [] ==> Displayed() && KeepsStale(lv[..], old(lv[..]), |CurrentPage()|)
    {
      page := backupPage;
      ctx := Feeds;
      ctxId := 0;
      var end := RequestListUpdate();
    }

    /** The saved page of the list of feeds. */
    ghost function HomePage(): seq<Item>
      reads this`feeds, this`backupPage
    {
      Window(feeds, backupPage * lv.Length, lv.Length)
    }

    /** The list of feeds can be restored as it was left. */
    ghost predicate CanReturn()
      reads this`feeds, this`backupCursor, this`backupPage
    {
      backupCursor < |HomePage()|
    }

    /** `select_item` in the list of feeds.  A feed without rows leaves everything as it was. */
    method SelectItem(ghost before: seq<Line>, ghost rows: seq<Item>) returns (ret: Answer)
      requires Valid() && ctx == Feeds && before == lv[..] && rows == CurrentPage()
      modifies this`cursor, this`page, this`ctx, this`ctxId, this`backupCursor, this`backupPage, lv
      ensures ret == if entriesOf(rows[old(cursor)].id) == [] then Ok else Update
      ensures ret == Ok ==>
        && Valid() && ctx == Feeds && page == old(page) && cursor == old(cursor)
        && LooksLike(lv[..], before, width) && KeepsStale(lv[..], before, 0)
      ensures ret == Update ==>
        && Displayed() && ctx == Entries && ctxId == rows[old(cursor)].id && page == 0 && cursor == 0
        && backupPage == old(page) && backupCursor == old(cursor) && CanReturn() && HomePage() == rows
    {
      var id := IdUnderCursor(rows);
      var end := EnterFeed(id, rows);
      if end {
        BackFromEmptyFeed(before, rows);
        return Ok;
      }
      SaveCursor();
      return Update;
    }

    method SaveCursor()
      requires Displayed() && cursor < |HomePage()|
      modifies this`cursor, this`backupCursor
      ensures Displayed() && cursor == 0 && backupCursor == old(cursor) && CanReturn()
    {
      backupCursor := cursor;
      cursor := 0;
    }

    /** `mw->data.lv[cursor_i].id` is the id of the row that the user sees there. */
    method IdUnderCursor(ghost rows: seq<Item>) returns (id: int)
      requires Valid() && rows == CurrentPage()
      ensures id == rows[cursor].id && Buffers()
    {
      assert ShowsRow(lv[..][cursor], width, cursor, rows[cursor]);
      ShowsIsSized(lv[..], width, rows);
      id := lv[cursor].id;
    }

    method BackFromEmptyFeed(ghost before: seq<Line>, ghost rows: seq<Item>)
      requires Fixed() && Buffers() && lv[..] == before && Shows(before, width, rows)
      requires rows == HomePage() != [] && contentMax == |rows| - 1 && cursor <= contentMax
      modifies this`page, this`ctx, this`ctxId, lv
      ensures Valid() && CurrentPage() == rows && ctx == Feeds && page == backupPage
      ensures LooksLike(lv[..], before, width) && KeepsStale(lv[..], before, 0)
    {
      ViewToFeeds();
      SameScreen(lv[..], before, width, rows);
      SameRowIds(lv[..], before, width, rows);
    }

    method EnterFeed(id: int, ghost rows: seq<Item>) returns (end: bool)
      requires Fixed() && Buffers() && ctx == Feeds && rows == CurrentPage()
      modifies this`ctx, this`ctxId, this`page, this`backupPage, lv
      ensures ctx == Entries && ctxId == id && page == 0 && backupPage == old(page) && HomePage() == rows
      ensures Buffers() && (end <==> entriesOf(id) == [])
      ensures end ==> lv[..] == old(lv[..])
      ensures !end ==> Displayed()
    {
      ctx := Entries;
      ctxId := id;
      backupPage := page;
      page := 0;
      end := RequestListUpdate();
    }

    /** `context_exit`: back to the list of feeds, or out of the program.  If the saved page is gone,
        the display stays as it was; if the saved row is, the cursor is behind the last one. */
    method ContextExit() returns (ret: Answer)
      requires Valid()
      modifies this`cursor, this`page, this`ctx, this`ctxId, lv
      ensures Buffers() && ctx == Feeds
      ensures old(ctx) == Feeds ==>
        ret == Exit && Valid() && lv[..] == old(lv[..]) && page == old(page) && cursor == old(cursor)
      ensures old(ctx) == Entries ==>
        && ret == Update && ctxId == 0 && page == backupPage && cursor == backupCursor
        && CurrentPage() == HomePage() && (cursor < |CurrentPage()| <==> CanReturn())
        && if HomePage() == [] then lv[..] == old(lv[..]) else Displayed()
    {
      ShowsIsSized(lv[..], width, CurrentPage());
      if ctx == Feeds {
        return Exit;
      }
      cursor := backupCursor;
      ctx := Feeds;
      ctxId := 0;
      page := backupPage;
      var end := RequestListUpdate();
      return Update;
    }

    /** Selecting a feed, moving about in it and leaving it restores the list of feeds: its page, its
        cursor and the rows on display. */
    method Excursion(moves: seq<Move>) returns (entered: bool)
      requires Valid() && ctx == Feeds
      modifies this`cursor, this`page, this`ctx, this`ctxId, this`backupCursor, this`backupPage, this`contentMax, lv
      ensures entered <==> entriesOf(old(CurrentPage()[cursor].id)) != []
      ensures Valid() && ctx == Feeds && page == old(page) && cursor == old(cursor)
      ensures CurrentPage() == old(CurrentPage()) && Shows(lv[..], width, old(CurrentPage()))
    {
      var ret := SelectItem(lv[..], CurrentPage());
      entered := ret == Update;
      if entered {
        VisitFeed(moves);
      }
    }

    method VisitFeed(moves: seq<Move>)
      requires Displayed() && ctx == Entries && cursor == 0 && CanReturn()
      modifies this`cursor, this`page, this`ctx, this`ctxId, this`contentMax, lv
      ensures Valid() && ctx == Feeds && page == backupPage && cursor == backupCursor && CurrentPage() == HomePage()
    {
      ShowPage();
      MoveAll(moves);
      BackHome();
    }

    /** Exit and `update_view`. */
    method BackHome()
      requires Valid() && ctx == Entries && CanReturn()
      modifies this`cursor, this`page, this`ctx, this`ctxId, this`contentMax, lv
      ensures Valid() && ctx == Feeds && page == backupPage && cursor == backupCursor && CurrentPage() == HomePage()
    {
      var ret := ContextExit();
      ShowPage();
    }

    /** What `pipe_entry`, `download_entry`, `toggle_read_ipc` and `catchup_entries` do to a list of
        entries: the rows change and the same page is asked for again.  If it is gone, the list of
        feeds comes back, with the cursor where it was; if its saved page is gone too, the display
        keeps showing the entries. */
    method Relist(feeds': seq<Item>, entriesOf': int -> seq<Item>) returns (gone: bool)
      requires Valid() && ctx == Entries && feeds' != []
      modifies this`feeds, this`groups, this`entriesOf, this`page, this`ctx, this`ctxId, lv
      ensures Fixed() && Buffers() && feeds == feeds' && entriesOf == entriesOf'
      ensures gone <==> Window(entriesOf'(old(ctxId)), old(Top()), lv.Length) == []
      ensures if gone then ctx == Feeds && page == backupPage
              else Displayed() && ctx == Entries && ctxId == old(ctxId) && page == old(page)
      ensures gone ==> if CurrentPage() == [] then lv[..] == old(lv[..]) else Displayed()
    {
      ShowsIsSized(lv[..], width, CurrentPage());
      feeds, groups, entriesOf := feeds', feeds'[1..], entriesOf';
      gone := RequestListUpdate();
      if gone {
        ViewToFeeds();
      }
    }

    /** The same with `update_view`. */
    method ChangeRows(feeds': seq<Item>, entriesOf': int -> seq<Item>)
      requires Valid() && ctx == Entries && feeds' != []
      modifies this`feeds, this`groups, this`entriesOf, this`page, this`ctx, this`ctxId, this`contentMax, lv
      ensures Fixed() && feeds == feeds' && entriesOf == entriesOf'
      ensures var rows := Window(entriesOf'(old(ctxId)), old(Top()), lv.Length);
        if rows != [] then ctx == Entries && ctxId == old(ctxId) && page == old(page)
        else ctx == Feeds && page == backupPage
      ensures CurrentPage() != [] ==> Displayed() && contentMax == |CurrentPage()| - 1
      ensures CurrentPage() == [] ==> Shows(lv[..], width, old(CurrentPage())) && contentMax == old(contentMax)
      ensures CurrentPage() == [] ==> KeepsStale(lv[..], old(lv[..]), 0)
    {
      ghost var before, rows := lv[..], CurrentPage();
      var gone := Relist(feeds', entriesOf');
      if gone && backupPage * lv.Length >= |feeds'| {
        LastRowIsLastCounted(before, width, contentMax, rows);
        UpdateView();
        RepaintedShows(lv[..], before, width, rows);
      } else {
        ShowPage();
      }
    }

    /** The list of entries keeps its length: nothing moves. */
    method KeepRows(feeds': seq<Item>, entriesOf': int -> seq<Item>)
      requires Valid() && ctx == Entries && feeds' != [] && |entriesOf'(ctxId)| == |Items()|
      modifies this`feeds, this`groups, this`entriesOf, this`page, this`ctx, this`ctxId, lv
      ensures feeds == feeds' && entriesOf == entriesOf' && Valid() && ctx == Entries && Flat() == old(Flat())
    {
      var gone := Relist(feeds', entriesOf');
    }

    /** An entry leaves the list of entries on display.  The cursor is then on a row exactly if it was
        not on the last row of the list, or on the only one of its page while the saved page of the
        list of feeds still has rows. */
    method LoseRow(feeds': seq<Item>, entriesOf': int -> seq<Item>)
      requires Valid() && ctx == Entries && feeds' != [] && |entriesOf'(ctxId)| == |Items()| - 1
      modifies this`feeds, this`groups, this`entriesOf, this`page, this`ctx, this`ctxId, this`contentMax, lv
      ensures feeds == feeds' && entriesOf == entriesOf'
      ensures Valid() <==> old(Flat() < |Items()| - 1) || old(cursor == 0 && backupPage * lv.Length < |feeds'|)
      ensures ctx == Feeds <==> old(Flat() == |Items()| - 1 && cursor == 0)
      ensures ctx == Entries ==> ctxId == old(ctxId) && Flat() == old(Flat()) && Listed()
      ensures ctx == Feeds && !Valid() ==>
        CurrentPage() == [] && Shows(lv[..], width, old(CurrentPage())) && KeepsStale(lv[..], old(lv[..]), 0)
    {
      ChangeRows(feeds', entriesOf');
    }
  }

  /** Two displays of the same rows have the same ids and counts if the stale ones are kept. */
  lemma SameRowIds(lines: seq<Line>, before: seq<Line>, max: nat, rows: seq<Item>)
    requires Shows(lines, max, rows) && Shows(before, max, rows) && KeepsStale(lines, before, |rows|)
    ensures KeepsStale(lines, before, 0)
  {
    forall i | 0 <= i < |lines| ensures lines[i].id == before[i].id && lines[i].unread == before[i].unread {
      if i < |rows| {
        assert ShowsRow(lines[i], max, i, rows[i]) && ShowsRow(before[i], max, i, rows[i]);
      }
    }
  }

  // ---------------------------------------------------------------- sessions

  /** A move in the list of feeds, or a visit: select, any moves in the feed, exit. */
  datatype Key = Go(move: Move) | Visit(inside: seq<Move>)

  function MovesOf(keys: seq<Key>): seq<Move>
  {
    if keys == [] then []
    else
      var last := keys[|keys| - 1];
      MovesOf(keys[..|keys| - 1]) + if last.Go? then [last.move] else []
  }

  lemma OneMoreKey(keys: seq<Key>, i: nat, a: nat, n: nat, len: nat)
    requires i < |keys| && len >= 1 && a < n
    ensures var b := FlatRun(a, MovesOf(keys[..i]), n, len);
      FlatRun(a, MovesOf(keys[..i + 1]), n, len) ==
      if keys[i].Visit? then b else FlatAfter(b, keys[i].move, TopRow(b, len), n, len)
  {
    assert keys[..i + 1][..i] == keys[..i];
    var moves := MovesOf(keys[..i + 1]);
    if keys[i].Go? {
      assert moves[..|moves| - 1] == MovesOf(keys[..i]);
    } else {
      assert moves == MovesOf(keys[..i]);
    }
  }

  /** The list of feeds between two keys of a session that started on its first row. */
  ghost predicate AtKey(mw: MainWindow, feeds: seq<Item>, len: nat, keys: seq<Key>)
    requires len >= 1 && feeds != []
    reads mw, mw.lv
  {
    && mw.Valid() && mw.ctx == Feeds && mw.feeds == feeds && mw.lv.Length == len
    && mw.Flat() == FlatRun(0, MovesOf(keys), |feeds|, len)
  }

  method PressKey(mw: MainWindow, feeds: seq<Item>, len: nat, keys: seq<Key>, i: nat)
    requires len >= 1 && feeds != [] && i < |keys| && AtKey(mw, feeds, len, keys[..i])
    modifies mw, mw.lv
    ensures AtKey(mw, feeds, len, keys[..i + 1])
  {
    OneMoreKey(keys, i, 0, |feeds|, len);
    match keys[i] {
      case Go(m) => mw.MoveOne(m, mw.Flat());
      case Visit(inside) => var entered := mw.Excursion(inside);
    }
  }

  /** Where a session ends is decided by the moves in the list of feeds alone, and the display then
      holds the page of that row: visits to feeds leave no trace. */
  method Browse(feeds: seq<Item>, entriesOf: int -> seq<Item>, len: nat, width: nat, keys: seq<Key>)
    returns (flat: nat, shown: seq<Line>)
    requires feeds != [] && len >= 1 && width >= 3
    ensures flat == FlatRun(0, MovesOf(keys), |feeds|, len) && flat < |feeds|
    ensures Shows(shown, width, Window(feeds, TopRow(flat, len), len))
  {
    var mw := new MainWindow(feeds, entriesOf, len, width);
    mw.Start();
    for i := 0 to |keys|
      invariant fresh(mw) && fresh(mw.lv) && mw.width == width && AtKey(mw, feeds, len, keys[..i])
    {
      PressKey(mw, feeds, len, keys, i);
    }
    assert keys[..|keys|] == keys;
    flat := mw.Position();
    shown := mw.lv[..];
  }
}
