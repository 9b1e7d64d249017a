/**
  `toggle_read` of src/ui/view.c on the tables of src/sql/create.c: what marking the entry under the
  cursor does to the lists of entries and feeds, and when the cursor is still on a row afterwards.
*/
module ListToggle {
  import opened ArticleCache
  import opened ScreenLines
  import opened ListPaging
  import opened ListCursor

  // ---------------------------------------------------------------- the lists before and after

  /** The rows of `write_entry_line`: the entries of a feed, or for 0 the unread entries of all. */
  function Selected(entries: map<int, EntryRow>, id: int, showEntries: bool): set<int>
  {
    if id > 0 then Group(entries, id, showEntries) else UnreadIds(entries)
  }

  /** Only unread entries are listed. */
  predicate Filtered(id: int, showEntries: bool) { id <= 0 || !showEntries }

  function GroupedFeeds(feeds: map<int, FeedRow>, entries: map<int, EntryRow>, showFeeds: bool): set<int>
  {
    set f | f in feeds && Group(entries, f, showFeeds) != {}
  }

  function ToggledAt(entries: map<int, EntryRow>, e: int): map<int, EntryRow>
  {
    if e in entries then entries[e := entries[e].(data := Toggled(entries[e].data))] else entries
  }

  /** The entry is the only unread one of its feed. */
  predicate LastUnread(entries: map<int, EntryRow>, e: int)
  {
    e in entries && Group(entries, entries[e].feedId, false) == {e}
  }

  /** The items are these entries, each once. */
  ghost predicate EntryList(items: seq<Item>, ids: set<int>)
  {
    && (forall i, j :: 0 <= i < j < |items| ==> Ids(items)[i] != Ids(items)[j])
    && (forall e :: e in Ids(items) <==> e in ids)
  }

  lemma {:induction false} ListingSize(order: seq<int>, ids: set<int>)
    requires forall i, j :: 0 <= i < j < |order| ==> order[i] != order[j]
    requires forall e :: e in order <==> e in ids
    ensures |order| == |ids|
  {
    if order == [] {
      assert forall e :: e in ids ==> e in order;
      assert ids == {};
    } else {
      var front, last := order[..|order| - 1], order[|order| - 1];
      assert order == front + [last] && last !in front;
      ListingSize(front, ids - {last});
    }
  }

  lemma SelectedAfterToggle(entries: map<int, EntryRow>, id: int, showEntries: bool, e: int)
    requires e in Selected(entries, id, showEntries)
    ensures Selected(ToggledAt(entries, e), id, showEntries) ==
      Selected(entries, id, showEntries) - if Filtered(id, showEntries) then {e} else {}
  {
  }

  lemma GroupAfterToggle(entries: map<int, EntryRow>, g: int, showFeeds: bool, e: int)
    requires e in entries && entries[e].data.viewed == 0
    ensures Group(ToggledAt(entries, e), g, showFeeds) ==
      Group(entries, g, showFeeds) - if g == entries[e].feedId && !showFeeds then {e} else {}
  {
  }

  /** A feed leaves the list exactly if read feeds are hidden and it lost its last unread entry. */
  lemma GroupedAfterToggle(feeds: map<int, FeedRow>, entries: map<int, EntryRow>, showFeeds: bool, e: int)
    requires e in entries && entries[e].data.viewed == 0 && entries[e].feedId in feeds
    ensures |GroupedFeeds(feeds, ToggledAt(entries, e), showFeeds)| ==
      |GroupedFeeds(feeds, entries, showFeeds)| - if !showFeeds && LastUnread(entries, e) then 1 else 0
  {
    var f, after := entries[e].feedId, ToggledAt(entries, e);
    forall g ensures Group(after, g, showFeeds) ==
      Group(entries, g, showFeeds) - if g == f && !showFeeds then {e} else {}
    {
      GroupAfterToggle(entries, g, showFeeds, e);
    }
    assert e in Group(entries, f, showFeeds);
    var gone := if !showFeeds && LastUnread(entries, e) then {f} else {};
    assert GroupedFeeds(feeds, after, showFeeds) == GroupedFeeds(feeds, entries, showFeeds) - gone;
  }

  lemma FeedListSize(items: seq<Item>, feeds: map<int, FeedRow>, entries: map<int, EntryRow>, showFeeds: bool)
    requires FeedList(items, feeds, entries, showFeeds)
    ensures |items| == 1 + |GroupedFeeds(feeds, entries, showFeeds)|
  {
    ListingSize(Ids(items[1..]), GroupedFeeds(feeds, entries, showFeeds));
  }

  lemma EntryListSize(items: seq<Item>, ids: set<int>)
    requires EntryList(items, ids)
    ensures |items| == |ids|
  {
    ListingSize(Ids(items), ids);
  }

  /** How long the lists are after the toggle, from what they were before. */
  lemma SizesAfterToggle(feeds: map<int, FeedRow>, entries: map<int, EntryRow>, id: int, showFeeds: bool,
                         showEntries: bool, e: int, feedList: seq<Item>, feedList': seq<Item>,
                         items: seq<Item>, items': seq<Item>)
    requires e in entries ==> entries[e].feedId in feeds
    requires FeedList(feedList, feeds, entries, showFeeds)
    requires FeedList(feedList', feeds, ToggledAt(entries, e), showFeeds)
    requires EntryList(items, Selected(entries, id, showEntries)) && e in Ids(items)
    requires EntryList(items', Selected(ToggledAt(entries, e), id, showEntries))
    ensures |items'| == |items| - if Filtered(id, showEntries) then 1 else 0
    ensures Filtered(id, showEntries) ==>
      |feedList'| == |feedList| - if !showFeeds && LastUnread(entries, e) then 1 else 0
  {
    EntryListSize(items, Selected(entries, id, showEntries));
    EntryListSize(items', Selected(ToggledAt(entries, e), id, showEntries));
    SelectedAfterToggle(entries, id, showEntries, e);
    if Filtered(id, showEntries) {
      FeedListSize(feedList, feeds, entries, showFeeds);
      FeedListSize(feedList', feeds, ToggledAt(entries, e), showFeeds);
      GroupedAfterToggle(feeds, entries, showFeeds, e);
    }
  }

  // ---------------------------------------------------------------- the code

  /** `toggle_read` in a list of entries.  `feeds'` and `entriesOf'` are what the queries answer after
      the update.  The cursor is on a row afterwards exactly if read entries stay listed, or the row was
      not the last of the list, or it was alone on its page and the saved page of the list of feeds,
      short of the feed if that leaves the list, still has a row. */
  method ToggleRead(mw: MainWindow, cache: Cache, showFeeds: bool, showEntries: bool,
                    feeds': seq<Item>, entriesOf': int -> seq<Item>, ghost e: int)
    requires cache.Valid() && mw.Valid() && mw.ctx == Entries && e == mw.CurrentPage()[mw.cursor].id
    requires FeedList(mw.feeds, cache.feeds, cache.entries, showFeeds)
    requires EntryList(mw.Items(), Selected(cache.entries, mw.ctxId, showEntries))
    requires FeedList(feeds', cache.feeds, ToggledAt(cache.entries, e), showFeeds)
    requires EntryList(entriesOf'(mw.ctxId), Selected(ToggledAt(cache.entries, e), mw.ctxId, showEntries))
    modifies cache`entries, mw, mw.lv
    ensures cache.Valid() && cache.entries == ToggledAt(old(cache.entries), e)
    ensures mw.feeds == feeds' && mw.entriesOf == entriesOf'
    ensures mw.Valid() <==>
      || !Filtered(old(mw.ctxId), showEntries)
      || old(mw.Flat() < |mw.Items()| - 1)
      || old(mw.cursor == 0 && mw.backupPage * mw.lv.Length <
             |mw.feeds| - if !showFeeds && LastUnread(cache.entries, e) then 1 else 0)
    ensures mw.ctx == Feeds <==>
      Filtered(old(mw.ctxId), showEntries) && old(mw.Flat() == |mw.Items()| - 1 && mw.cursor == 0)
  {
    ItemOnPage(mw, e);
    SizesAfterToggle(cache.feeds, cache.entries, mw.ctxId, showFeeds, showEntries, e,
                     mw.feeds, feeds', mw.Items(), entriesOf'(mw.ctxId));
    ghost var gone := if !showFeeds && LastUnread(cache.entries, e) then 1 else 0;
    var id := mw.IdUnderCursor(mw.CurrentPage());
    ToggleEntry(cache, id);
    ShowToggled(mw, Filtered(mw.ctxId, showEntries), feeds', entriesOf', gone);
  }

  /** `cache_toggle_read_entry` with -1. */
  method ToggleEntry(cache: Cache, id: int)
    requires cache.Valid()
    modifies cache`entries
    ensures cache.Valid() && cache.entries == ToggledAt(old(cache.entries), id)
  {
    cache.ToggleReadEntry(id, -1);
  }

  /** The part behind the update of the table. */
  method ShowToggled(mw: MainWindow, filtered: bool, feeds': seq<Item>, entriesOf': int -> seq<Item>, ghost gone: nat)
    requires mw.Valid() && mw.ctx == Entries && feeds' != []
    requires |entriesOf'(mw.ctxId)| == |mw.Items()| - if filtered then 1 else 0
    requires filtered ==> |feeds'| == |mw.feeds| - gone
    modifies mw, mw.lv
    ensures mw.feeds == feeds' && mw.entriesOf == entriesOf'
    ensures mw.Valid() <==>
      || !filtered
      || old(mw.Flat() < |mw.Items()| - 1)
      || old(mw.cursor == 0 && mw.backupPage * mw.lv.Length < |mw.feeds| - gone)
    ensures mw.ctx == Feeds <==> filtered && old(mw.Flat() == |mw.Items()| - 1 && mw.cursor == 0)
  {
    if filtered {
      mw.LoseRow(feeds', entriesOf');
    } else {
      mw.KeepRows(feeds', entriesOf');
    }
  }

  lemma ItemOnPage(mw: MainWindow, e: int)
    requires mw.Valid() && e == mw.CurrentPage()[mw.cursor].id
    ensures e in Ids(mw.Items())
  {
    WindowAt(mw.Items(), mw.Top(), mw.lv.Length, mw.cursor);
    assert Ids(mw.Items())[mw.Flat()] == e;
  }

  lemma WindowAt<T>(s: seq<T>, off: nat, len: nat, i: nat)
    requires i < |Window(s, off, len)|
    ensures off + i < |s| && Window(s, off, len)[i] == s[off + i]
  {
  }

  // ---------------------------------------------------------------- the two failures

  function Row(id: int, unread: int): Item { Item(id, unread, "") }

  /** Two unread entries in a window of two rows: reading the second leaves the cursor on a blank
      line. */
  method ReadLastEntry() returns (cursor: nat, lastRow: nat)
    ensures cursor == 1 && lastRow == 0
  {
    var mw := EnterSecondRow([Row(0, 2), Row(7, 2)], _ => [Row(41, 1), Row(42, 1)], 2);
    GoToSecondRow(mw);
    mw.LoseRow([Row(0, 1), Row(7, 1)], _ => [Row(41, 1)]);
    return mw.cursor, mw.contentMax;
  }

  /** One feed with one unread entry, on the second page of a window of one row, and read feeds hidden:
      reading the entry leaves it on display, in the context of the list of feeds.  Its EntryID would
      then be taken for a FeedID. */
  method ReadLastFeed() returns (context: Context, id: int, rows: nat)
    ensures context == Feeds && id == 42 && rows == 0
  {
    var mw := EnterSecondRow([Row(0, 1), Row(7, 1)], _ => [Row(42, 1)], 1);
    assert ShowsRow(mw.lv[..][0], mw.width, 0, Row(42, 1));
    mw.LoseRow([Row(0, 0)], _ => []);
    return mw.ctx, mw.lv[0].id, |Window(mw.feeds, mw.page * mw.lv.Length, mw.lv.Length)|;
  }

  /** Next and select, from the start of a session. */
  method EnterSecondRow(feeds: seq<Item>, entriesOf: int -> seq<Item>, len: nat) returns (mw: MainWindow)
    requires len >= 1 && |feeds| == 2 && entriesOf(feeds[1].id) != []
    ensures fresh(mw) && fresh(mw.lv) && mw.lv.Length == len && mw.Valid() && mw.ctx == Entries
    ensures mw.ctxId == feeds[1].id && mw.entriesOf == entriesOf && mw.page == 0 && mw.cursor == 0
    ensures mw.backupPage == if len == 1 then 1 else 0
  {
    mw := new MainWindow(feeds, entriesOf, len, 80);
    mw.Start();
    GoToSecondRow(mw);
    EnterRow(mw, feeds[1]);
  }

  method GoToSecondRow(mw: MainWindow)
    requires mw.Valid() && mw.Flat() == 0 && |mw.Items()| == 2
    modifies mw`cursor, mw`page, mw`contentMax, mw.lv
    ensures mw.Valid() && mw.Flat() == 1
    ensures mw.page == if mw.lv.Length == 1 then 1 else 0
    ensures mw.cursor == if mw.lv.Length == 1 then 0 else 1
  {
    mw.MoveOne(MoveNext, 0);
    SecondRow(mw.page, mw.cursor, mw.lv.Length);
  }

  lemma SecondRow(page: nat, cursor: nat, len: nat)
    requires len >= 1 && page * len + cursor == 1
    ensures cursor < len ==> (if len == 1 then page == 1 && cursor == 0 else page == 0 && cursor == 1)
  {
    assert page * (len - 1) >= 0 && page * len == page * (len - 1) + page;
    assert page == 1 ==> page * len == len;
  }

  /** Select on this row of the list of feeds. */
  method EnterRow(mw: MainWindow, ghost feed: Item)
    requires mw.Valid() && mw.ctx == Feeds && mw.entriesOf(feed.id) != []
    requires mw.Flat() < |mw.feeds| && mw.feeds[mw.Flat()] == feed
    modifies mw, mw.lv
    ensures mw.Valid() && mw.ctx == Entries && mw.ctxId == feed.id && mw.page == 0 && mw.cursor == 0
    ensures mw.feeds == old(mw.feeds) && mw.entriesOf == old(mw.entriesOf) && mw.backupPage == old(mw.page)
  {
    WindowAt(mw.feeds, mw.Top(), mw.lv.Length, mw.cursor);
    var ret := mw.SelectItem(mw.lv[..], mw.CurrentPage());
    mw.ShowPage();
  }
}
