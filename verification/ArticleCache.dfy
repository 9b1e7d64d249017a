/**
  The article cache of src/sql/create.c: the tables `Feed` and `Entry`, and each SQL statement as
  an update of them.

  `Rows` is what the tables say once row ids are forgotten: feeds by URL, entries by the URL of
  their feed and their UniqueId.  A new row gets any positive id that is not in use.
*/
module ArticleCache {
  import opened Options

  const CYCLES_UNTIL_DELETE: int := 2

  datatype FeedText = FeedText(title: Option<string>, description: Option<string>, authorName: Option<string>,
                               authorEmail: Option<string>, imageUrl: Option<string>, imageText: Option<string>)
  datatype EntryText = EntryText(title: string, url: Option<string>, authorName: Option<string>,
                                 authorEmail: Option<string>, description: Option<string>, content: Option<string>)

  datatype Payload = Payload(pubDate: int, modDate: int, text: EntryText)
  datatype EntryData = EntryData(viewed: int, current: int, payload: Payload)

  datatype FeedRow = FeedRow(url: string, text: FeedText)
  datatype EntryRow = EntryRow(feedId: int, uid: string, data: EntryData)

  datatype Key = Key(feed: string, uid: string)
  datatype Rows = Rows(feeds: map<string, FeedText>, entries: map<Key, EntryData>)

  // ---------------------------------------------------------------- the statements on rows

  function FeedUpserted(v: Rows, url: string, text: FeedText): Rows
  {
    v.(feeds := v.feeds[url := text])
  }

  /** `UPDATE Entry SET Current=Current-1`. */
  function Older(d: EntryData): EntryData { d.(current := d.current - 1) }

  /** `UPDATE Entry SET ... WHERE FeedID=...` on the table and on its rows. */
  function DataChanged(entries: map<int, EntryRow>, feedId: int, f: EntryData -> EntryData): map<int, EntryRow>
  {
    map id | id in entries ::
      if entries[id].feedId == feedId then entries[id].(data := f(entries[id].data)) else entries[id]
  }

  function RowsChanged(v: Rows, url: string, f: EntryData -> EntryData): Rows
  {
    v.(entries := map k | k in v.entries :: if k.feed == url then f(v.entries[k]) else v.entries[k])
  }

  function Aged(v: Rows, url: string): Rows { RowsChanged(v, url, Older) }

  /** The upsert of an entry keeps `Viewed`; every other column is new and `Current` is 1 again. */
  function EntryUpserted(v: Rows, k: Key, p: Payload): Rows
  {
    v.(entries := v.entries[k := EntryData(if k in v.entries then v.entries[k].viewed else 0, 1, p)])
  }

  function Deletable(d: EntryData, cutoff: int): bool
  {
    d.current <= -CYCLES_UNTIL_DELETE && d.viewed > 0 && d.payload.pubDate < cutoff
  }

  function Cleaned(v: Rows, url: string, cutoff: int): Rows
  {
    v.(entries := map k | k in v.entries && !(k.feed == url && Deletable(v.entries[k], cutoff)) :: v.entries[k])
  }

  /** `DELETE FROM Entry WHERE ...` on the table. */
  function DataCleaned(entries: map<int, EntryRow>, feedId: int, cutoff: int): map<int, EntryRow>
  {
    map id | id in entries && !(entries[id].feedId == feedId && Deletable(entries[id].data, cutoff)) :: entries[id]
  }

  /** `now - retention`; for a negative retention the statement ends in `--`, a comment. */
  function Cutoff(now: int, retention: int): int
  {
    if retention < 0 then now else now - retention
  }

  function Read(d: EntryData): EntryData { d.(viewed := 1) }

  function Toggled(d: EntryData): EntryData { d.(viewed := if d.viewed == 0 then 1 else 0) }

  function EntryChanged(v: Rows, k: Key, d: EntryData): Rows { v.(entries := v.entries[k := d]) }

  function AllRead(v: Rows): Rows
  {
    v.(entries := map k | k in v.entries :: Read(v.entries[k]))
  }

  function FeedRead(v: Rows, url: string): Rows { RowsChanged(v, url, Read) }

  function UnreadKeys(v: Rows): set<Key>
  {
    set k | k in v.entries && v.entries[k].viewed == 0
  }

  // ---------------------------------------------------------------- what the statements mean

  /** Ageing takes 1 from `Current` of the feed's entries and changes nothing else. */
  lemma AgedIs(v: Rows, url: string)
    ensures Aged(v, url).feeds == v.feeds && Aged(v, url).entries.Keys == v.entries.Keys
    ensures forall k :: k in v.entries ==>
      && Aged(v, url).entries[k].viewed == v.entries[k].viewed
      && Aged(v, url).entries[k].payload == v.entries[k].payload
      && Aged(v, url).entries[k].current == v.entries[k].current - if k.feed == url then 1 else 0
  {
  }

  /** The upsert resets `Current`, keeps a known `Viewed`, and leaves all other entries alone. */
  lemma EntryUpsertedIs(v: Rows, k: Key, p: Payload)
    ensures EntryUpserted(v, k, p).feeds == v.feeds
    ensures EntryUpserted(v, k, p).entries.Keys == v.entries.Keys + {k}
    ensures EntryUpserted(v, k, p).entries[k].current == 1 && EntryUpserted(v, k, p).entries[k].payload == p
    ensures EntryUpserted(v, k, p).entries[k].viewed == if k in v.entries then v.entries[k].viewed else 0
    ensures forall k' :: k' in v.entries && k' != k ==> EntryUpserted(v, k, p).entries[k'] == v.entries[k']
  {
  }

  /** Exactly the feed's entries are deleted that are read, at -2 or below, and were published more than
      `retention` seconds ago; with a negative `retention`, that were published in the past. */
  lemma CleanedIs(v: Rows, url: string, now: int, retention: int)
    ensures Cleaned(v, url, Cutoff(now, retention)).feeds == v.feeds
    ensures forall k :: k in Cleaned(v, url, Cutoff(now, retention)).entries <==>
      k in v.entries &&
      !(k.feed == url && v.entries[k].current <= -2 && v.entries[k].viewed > 0 &&
        if retention >= 0 then v.entries[k].payload.pubDate + retention < now
        else v.entries[k].payload.pubDate < now)
    ensures forall k :: k in Cleaned(v, url, Cutoff(now, retention)).entries ==>
      Cleaned(v, url, Cutoff(now, retention)).entries[k] == v.entries[k]
  {
  }

  /** Catching up leaves nothing unread, in one feed or in all of them. */
  lemma NothingUnreadAfterCatchUp(v: Rows, url: string)
    ensures UnreadKeys(AllRead(v)) == {}
    ensures UnreadKeys(FeedRead(v, url)) == set k | k in UnreadKeys(v) && k.feed != url
  {
  }

  /** It changes nothing but `Viewed`, and in one feed only there. */
  lemma CatchUpKeepsTheRest(v: Rows, url: string)
    ensures AllRead(v).feeds == FeedRead(v, url).feeds == v.feeds
    ensures AllRead(v).entries.Keys == FeedRead(v, url).entries.Keys == v.entries.Keys
    ensures forall k :: k in v.entries ==>
      && AllRead(v).entries[k] == v.entries[k].(viewed := 1)
      && FeedRead(v, url).entries[k] == if k.feed == url then v.entries[k].(viewed := 1) else v.entries[k]
  {
  }

  /** Toggling makes an unread entry read and a read one unread, and changes nothing else. */
  lemma ToggledFlipsUnread(v: Rows, k: Key)
    requires k in v.entries
    ensures var v' := EntryChanged(v, k, Toggled(v.entries[k]));
      && UnreadKeys(v') == (if k in UnreadKeys(v) then UnreadKeys(v) - {k} else UnreadKeys(v) + {k})
      && v'.entries[k].viewed == (if v.entries[k].viewed == 0 then 1 else 0)
      && v'.entries[k].current == v.entries[k].current && v'.entries[k].payload == v.entries[k].payload
      && v'.feeds == v.feeds && v'.entries - {k} == v.entries - {k}
  {
    assert EntryChanged(v, k, Toggled(v.entries[k])).entries - {k} == v.entries - {k};
  }

  // ---------------------------------------------------------------- the tables

  /** The primary keys and (URL), (FeedID, UniqueId) are unique and every entry has a feed. */
  ghost predicate UniqueKeys(feeds: map<int, FeedRow>, entries: map<int, EntryRow>)
  {
    && (forall a, b :: a in feeds && b in feeds && feeds[a].url == feeds[b].url ==> a == b)
    && (forall e :: e in entries ==> entries[e].feedId in feeds)
    && (forall a, b | a in entries && b in entries && entries[a].feedId == entries[b].feedId
                   && entries[a].uid == entries[b].uid :: a == b)
  }

  function KeyOf(feeds: map<int, FeedRow>, row: EntryRow): Key
    requires row.feedId in feeds
  {
    Key(feeds[row.feedId].url, row.uid)
  }

  lemma FreshId(used: set<int>)
    ensures exists id: int :: id > 0 && id !in used
  {
    var bound := UpperBound(used);
    assert bound + 1 > 0 && bound + 1 !in used;
  }

  lemma UpperBound(used: set<int>) returns (bound: int)
    ensures bound >= 0 && forall id :: id in used ==> id <= bound
    decreases |used|
  {
    if x :| x in used {
      var b := UpperBound(used - {x});
      bound := if x > b then x else b;
      assert forall id :: id in used ==> id == x || id in used - {x};
    } else {
      bound := 0;
    }
  }

  /** The indexes name the row of every feed and entry. */
  ghost predicate Indexed(feeds: map<int, FeedRow>, entries: map<int, EntryRow>,
                          feedOf: map<string, int>, entryOf: map<Key, int>)
  {
    && (forall u :: u in feedOf ==> feedOf[u] in feeds && feeds[feedOf[u]].url == u)
    && (forall id :: id in feeds ==> id > 0 && feeds[id].url in feedOf && feedOf[feeds[id].url] == id)
    && (forall k :: k in entryOf ==> NamesEntry(feeds, entries, k, entryOf[k]))
    && (forall id | id in entries :: id > 0 && entries[id].feedId in feeds
          && KeyOf(feeds, entries[id]) in entryOf && entryOf[KeyOf(feeds, entries[id])] == id)
  }

  ghost predicate NamesEntry(feeds: map<int, FeedRow>, entries: map<int, EntryRow>, k: Key, id: int)
  {
    id in entries && entries[id].feedId in feeds && KeyOf(feeds, entries[id]) == k
  }

  ghost function FeedTexts(feeds: map<int, FeedRow>, feedOf: map<string, int>): map<string, FeedText>
    requires forall u :: u in feedOf ==> feedOf[u] in feeds
  {
    map u | u in feedOf :: feeds[feedOf[u]].text
  }

  ghost function RowsOf(feeds: map<int, FeedRow>, entries: map<int, EntryRow>,
                        feedOf: map<string, int>, entryOf: map<Key, int>): Rows
    requires Indexed(feeds, entries, feedOf, entryOf)
  {
    Rows(FeedTexts(feeds, feedOf),
         map k | k in entryOf :: assert NamesEntry(feeds, entries, k, entryOf[k]); entries[entryOf[k]].data)
  }

  /** Writing the row of a feed: `id` is its row if it has one, and otherwise unused. */
  lemma FeedUpsertKeeps(feeds: map<int, FeedRow>, entries: map<int, EntryRow>,
                        feedOf: map<string, int>, entryOf: map<Key, int>, url: string, text: FeedText, id: int)
    requires Indexed(feeds, entries, feedOf, entryOf) && id > 0
    requires if id in feeds then feeds[id].url == url else url !in feedOf
    ensures Indexed(feeds[id := FeedRow(url, text)], entries, feedOf[url := id], entryOf)
    ensures RowsOf(feeds[id := FeedRow(url, text)], entries, feedOf[url := id], entryOf)
         == FeedUpserted(RowsOf(feeds, entries, feedOf, entryOf), url, text)
  {
    FeedUpsertIndexed(feeds, entries, feedOf, entryOf, url, text, id);
    FeedTextPut(feeds, feedOf, url, text, id);
    var before := RowsOf(feeds, entries, feedOf, entryOf);
    var after := RowsOf(feeds[id := FeedRow(url, text)], entries, feedOf[url := id], entryOf);
    assert after.entries == before.entries;
  }

  lemma FeedTextPut(feeds: map<int, FeedRow>, feedOf: map<string, int>, url: string, text: FeedText, id: int)
    requires forall u :: u in feedOf ==> feedOf[u] in feeds
    requires forall u :: u in feedOf && u != url ==> feedOf[u] != id
    ensures FeedTexts(feeds[id := FeedRow(url, text)], feedOf[url := id]) == FeedTexts(feeds, feedOf)[url := text]
  {
  }

  lemma FeedUpsertIndexed(feeds: map<int, FeedRow>, entries: map<int, EntryRow>,
                          feedOf: map<string, int>, entryOf: map<Key, int>, url: string, text: FeedText, id: int)
    requires Indexed(feeds, entries, feedOf, entryOf) && id > 0
    requires if id in feeds then feeds[id].url == url else url !in feedOf
    ensures Indexed(feeds[id := FeedRow(url, text)], entries, feedOf[url := id], entryOf)
    ensures forall u :: u in feedOf && u != url ==> feedOf[u] != id
  {
    var feeds' := feeds[id := FeedRow(url, text)];
    forall e | e in entries
      ensures entries[e].feedId in feeds' && KeyOf(feeds', entries[e]) == KeyOf(feeds, entries[e])
    {
    }
    forall k | k in entryOf ensures NamesEntry(feeds', entries, k, entryOf[k]) {
      assert NamesEntry(feeds, entries, k, entryOf[k]);
    }
    forall u | u in feedOf && u != url ensures feedOf[u] != id {
    }
  }

  /** Writing an entry: `id` is its row if it has one, and otherwise unused. */
  lemma EntryUpsertKeeps(feeds: map<int, FeedRow>, entries: map<int, EntryRow>,
                         feedOf: map<string, int>, entryOf: map<Key, int>, row: EntryRow, id: int)
    requires Indexed(feeds, entries, feedOf, entryOf) && id > 0 && row.feedId in feeds
    requires if id in entries then entries[id].feedId == row.feedId && entries[id].uid == row.uid
             else KeyOf(feeds, row) !in entryOf
    ensures Indexed(feeds, entries[id := row], feedOf, entryOf[KeyOf(feeds, row) := id])
    ensures RowsOf(feeds, entries[id := row], feedOf, entryOf[KeyOf(feeds, row) := id])
         == EntryChanged(RowsOf(feeds, entries, feedOf, entryOf), KeyOf(feeds, row), row.data)
  {
    EntryUpsertIndexed(feeds, entries, feedOf, entryOf, row, id);
    var k0 := KeyOf(feeds, row);
    var before := RowsOf(feeds, entries, feedOf, entryOf);
    var after := RowsOf(feeds, entries[id := row], feedOf, entryOf[k0 := id]);
    assert after.entries == before.entries[k0 := row.data];
    assert after.feeds == before.feeds;
  }

  lemma EntryUpsertIndexed(feeds: map<int, FeedRow>, entries: map<int, EntryRow>,
                           feedOf: map<string, int>, entryOf: map<Key, int>, row: EntryRow, id: int)
    requires Indexed(feeds, entries, feedOf, entryOf) && id > 0 && row.feedId in feeds
    requires if id in entries then entries[id].feedId == row.feedId && entries[id].uid == row.uid
             else KeyOf(feeds, row) !in entryOf
    ensures Indexed(feeds, entries[id := row], feedOf, entryOf[KeyOf(feeds, row) := id])
    ensures forall k :: k in entryOf && k != KeyOf(feeds, row) ==> entryOf[k] != id
  {
    var k0, entries' := KeyOf(feeds, row), entries[id := row];
    forall k | k in entryOf && k != k0 ensures NamesEntry(feeds, entries', k, entryOf[k]) && entryOf[k] != id {
      assert NamesEntry(feeds, entries, k, entryOf[k]);
    }
    assert NamesEntry(feeds, entries', k0, id);
    forall e | e in entries && e != id ensures KeyOf(feeds, entries[e]) != k0 {
    }
  }

  /** Changing the data of the entries of one feed. */
  lemma DataChangeKeeps(feeds: map<int, FeedRow>, entries: map<int, EntryRow>,
                        feedOf: map<string, int>, entryOf: map<Key, int>, feedId: int, f: EntryData -> EntryData)
    requires Indexed(feeds, entries, feedOf, entryOf) && feedId in feeds
    ensures var entries' := DataChanged(entries, feedId, f);
      && Indexed(feeds, entries', feedOf, entryOf)
      && RowsOf(feeds, entries', feedOf, entryOf) ==
         RowsChanged(RowsOf(feeds, entries, feedOf, entryOf), feeds[feedId].url, f)
  {
    var entries' := DataChanged(entries, feedId, f);
    forall k | k in entryOf
      ensures NamesEntry(feeds, entries, k, entryOf[k]) && NamesEntry(feeds, entries', k, entryOf[k])
      ensures k.feed == feeds[feedId].url <==> entries[entryOf[k]].feedId == feedId
    {
      assert NamesEntry(feeds, entries, k, entryOf[k]);
    }
    assert Indexed(feeds, entries', feedOf, entryOf);
    assert RowsOf(feeds, entries', feedOf, entryOf).entries
        == RowsChanged(RowsOf(feeds, entries, feedOf, entryOf), feeds[feedId].url, f).entries;
  }

  /** Deleting entries of one feed. */
  lemma DeleteKeeps(feeds: map<int, FeedRow>, entries: map<int, EntryRow>,
                    feedOf: map<string, int>, entryOf: map<Key, int>, feedId: int, cutoff: int)
    requires Indexed(feeds, entries, feedOf, entryOf) && feedId in feeds
    ensures var entries' := DataCleaned(entries, feedId, cutoff);
      var entryOf' := map k | k in entryOf && entryOf[k] in entries' :: entryOf[k];
      && Indexed(feeds, entries', feedOf, entryOf')
      && RowsOf(feeds, entries', feedOf, entryOf') ==
         Cleaned(RowsOf(feeds, entries, feedOf, entryOf), feeds[feedId].url, cutoff)
  {
    var entries' := DataCleaned(entries, feedId, cutoff);
    var entryOf' := map k | k in entryOf && entryOf[k] in entries' :: entryOf[k];
    forall k | k in entryOf
      ensures NamesEntry(feeds, entries, k, entryOf[k])
      ensures k.feed == feeds[feedId].url <==> entries[entryOf[k]].feedId == feedId
    {
      assert NamesEntry(feeds, entries, k, entryOf[k]);
    }
    assert Indexed(feeds, entries', feedOf, entryOf');
    assert RowsOf(feeds, entries', feedOf, entryOf').entries
        == Cleaned(RowsOf(feeds, entries, feedOf, entryOf), feeds[feedId].url, cutoff).entries;
  }

  class Cache {
    var feeds: map<int, FeedRow>
    var entries: map<int, EntryRow>
    ghost var feedOf: map<string, int>
    ghost var entryOf: map<Key, int>

    ghost predicate Valid()
      reads this
    {
      Indexed(feeds, entries, feedOf, entryOf)
    }

    ghost function Contents(): Rows
      requires Valid()
      reads this
    {
      RowsOf(feeds, entries, feedOf, entryOf)
    }

    lemma KeysAreUnique()
      requires Valid()
      ensures forall a, b :: a in feeds && b in feeds && feeds[a].url == feeds[b].url ==> a == b
      ensures forall e :: e in entries ==> entries[e].feedId in feeds
      ensures UniqueKeys(feeds, entries)
    {
      forall a, b | a in entries && b in entries && entries[a].feedId == entries[b].feedId
                 && entries[a].uid == entries[b].uid
        ensures a == b
      {
        assert KeyOf(feeds, entries[a]) == KeyOf(feeds, entries[b]);
      }
    }

    /** `create_db`: the tables are empty. */
    constructor ()
      ensures Valid() && Contents() == Rows(map[], map[])
    {
      feeds, entries := map[], map[];
      feedOf, entryOf := map[], map[];
    }

    /** `cache_update_feed`: a known URL keeps its FeedID. */
    method UpdateFeed(url: string, text: FeedText) returns (feedId: int)
      requires Valid()
      modifies this
      ensures Valid() && Contents() == FeedUpserted(old(Contents()), url, text)
      ensures feedId in feeds && feeds[feedId].url == url
      ensures feedOf == old(feedOf)[url := feedId] && (url in old(feedOf) ==> feedId == old(feedOf)[url])
      ensures entryOf == old(entryOf)
    {
      feedId := FeedRowId(url);
      FeedUpsertKeeps(feeds, entries, feedOf, entryOf, url, text, feedId);
      PutFeed(feedId, FeedRow(url, text), feedOf[url := feedId]);
    }

    method PutFeed(feedId: int, row: FeedRow, ghost of: map<string, int>)
      requires Indexed(feeds[feedId := row], entries, of, entryOf)
      modifies this`feeds, this`feedOf
      ensures Valid() && feeds == old(feeds)[feedId := row] && feedOf == of
      ensures Contents() == RowsOf(old(feeds)[feedId := row], entries, of, entryOf)
    {
      feeds := feeds[feedId := row];
      feedOf := of;
    }

    /** `SELECT FeedID FROM Feed WHERE URL=?`, or an id for a new row. */
    method FeedRowId(url: string) returns (feedId: int)
      requires Valid()
      ensures feedId > 0 && (url in feedOf ==> feedId == feedOf[url])
      ensures if feedId in feeds then feeds[feedId].url == url else url !in feedOf
    {
      ghost var known: int := if url in feedOf then feedOf[url] else 0;
      assert url in feedOf ==> known in feeds && feeds[known].url == url;
      if id :| id in feeds && feeds[id].url == url {
        feedId := id;
      } else {
        FreshId(feeds.Keys);
        feedId :| feedId > 0 && feedId !in feeds;
      }
    }

    /** `cache_init_cleanup`. */
    method InitCleanup(feedId: int)
      requires Valid() && feedId in feeds
      modifies this`entries
      ensures Valid() && Contents() == Aged(old(Contents()), feeds[feedId].url)
    {
      DataChangeKeeps(feeds, entries, feedOf, entryOf, feedId, Older);
      entries := DataChanged(entries, feedId, Older);
    }

    /** `cache_update_entry`: a known (FeedID, UniqueId) keeps its EntryID. */
    method UpdateEntry(feedId: int, uid: string, p: Payload)
      requires Valid() && feedId in feeds
      modifies this`entries, this`entryOf
      ensures Valid() && Contents() == EntryUpserted(old(Contents()), Key(feeds[feedId].url, uid), p)
      ensures forall k :: k in old(entryOf) ==> k in entryOf && entryOf[k] == old(entryOf)[k]
    {
      var entryId, viewed;
      if id :| id in entries && entries[id].feedId == feedId && entries[id].uid == uid {
        entryId, viewed := id, entries[id].data.viewed;
      } else {
        FreshId(entries.Keys);
        entryId :| entryId > 0 && entryId !in entries;
        viewed := 0;
      }
      EntryUpsertKeeps(feeds, entries, feedOf, entryOf, EntryRow(feedId, uid, EntryData(viewed, 1, p)), entryId);
      entries := entries[entryId := EntryRow(feedId, uid, EntryData(viewed, 1, p))];
      entryOf := entryOf[Key(feeds[feedId].url, uid) := entryId];
    }

    /** `cache_cleanup_old`. */
    method CleanupOld(feedId: int, now: int, retention: int)
      requires Valid() && feedId in feeds
      modifies this`entries, this`entryOf
      ensures Valid() && Contents() == Cleaned(old(Contents()), feeds[feedId].url, Cutoff(now, retention))
      ensures forall k :: k in Contents().entries <==>
        k in old(Contents()).entries &&
        !(k.feed == feeds[feedId].url && old(Contents()).entries[k].current <= -2 &&
          old(Contents()).entries[k].viewed > 0 &&
          if retention >= 0 then old(Contents()).entries[k].payload.pubDate + retention < now
          else old(Contents()).entries[k].payload.pubDate < now)
      ensures forall k :: k in entryOf ==> k in old(entryOf) && entryOf[k] == old(entryOf)[k]
    {
      var cutoff := Cutoff(now, retention);
      CleanedIs(Contents(), feeds[feedId].url, now, retention);
      DeleteKeeps(feeds, entries, feedOf, entryOf, feedId, cutoff);
      entries := DataCleaned(entries, feedId, cutoff);
      entryOf := map k | k in entryOf && entryOf[k] in entries :: entryOf[k];
    }

    /** `cache_toggle_read_entry`: a negative `v` toggles; an unknown id changes nothing. */
    method ToggleReadEntry(id: int, v: int)
      requires Valid()
      modifies this`entries
      ensures Valid() && entries.Keys == old(entries.Keys)
      ensures entries == if id !in old(entries) then old(entries) else
        old(entries)[id := old(entries)[id].(data := if v < 0 then Toggled(old(entries)[id].data)
                                                     else old(entries)[id].data.(viewed := v))]
      ensures id !in old(entries) ==> Contents() == old(Contents())
      ensures id in old(entries) ==>
        var k, d := KeyOf(feeds, old(entries)[id]), old(entries)[id].data;
        Contents() == EntryChanged(old(Contents()), k, if v < 0 then Toggled(d) else d.(viewed := v))
    {
      if id in entries {
        var row := entries[id].(data := if v < 0 then Toggled(entries[id].data) else entries[id].data.(viewed := v));
        EntryUpsertKeeps(feeds, entries, feedOf, entryOf, row, id);
        assert entryOf[KeyOf(feeds, row) := id] == entryOf;
        entries := entries[id := row];
      }
    }

    /** `cache_read_feed`: 0 stands for all feeds. */
    method ReadFeed(feedId: int)
      requires Valid()
      modifies this`entries
      ensures Valid() && entries.Keys == old(entries.Keys)
      ensures feedId == 0 ==> Contents() == AllRead(old(Contents()))
      ensures feedId != 0 && feedId in feeds ==> Contents() == FeedRead(old(Contents()), feeds[feedId].url)
      ensures feedId != 0 && feedId !in feeds ==> Contents() == old(Contents())
      ensures forall k :: k in UnreadKeys(Contents()) <==>
        k in UnreadKeys(old(Contents())) && feedId != 0 && (feedId in feeds ==> k.feed != feeds[feedId].url)
    {
      NothingUnreadAfterCatchUp(Contents(), if feedId in feeds then feeds[feedId].url else []);
      if feedId == 0 {
        ReadAll();
      } else {
        if feedId in feeds {
          DataChangeKeeps(feeds, entries, feedOf, entryOf, feedId, Read);
        }
        forall e | e in entries ensures entries[e].feedId in feeds {
        }
        assert feedId !in feeds ==> DataChanged(entries, feedId, Read) == entries;
        entries := DataChanged(entries, feedId, Read);
      }
    }

    /** `UPDATE Entry SET Viewed=1`. */
    method ReadAll()
      requires Valid()
      modifies this`entries
      ensures Valid() && entries.Keys == old(entries.Keys)
      ensures Contents() == AllRead(old(Contents()))
    {
      forall k | k in entryOf ensures NamesEntry(feeds, entries, k, entryOf[k]) {
      }
      entries := map id | id in entries :: entries[id].(data := Read(entries[id].data));
    }

    /** `get_num_unread`: `SELECT COUNT(EntryID) FROM Entry WHERE Viewed=0`. */
    method GetNumUnread() returns (n: nat)
      requires Valid()
      ensures n == |UnreadKeys(Contents())|
    {
      var ids := set id | id in entries && entries[id].data.viewed == 0;
      ghost var keys := UnreadKeys(Contents());
      forall id ensures id in ids <==> exists k :: k in keys && entryOf[k] == id {
        if id in ids {
          var k := KeyOf(feeds, entries[id]);
          assert k in keys && entryOf[k] == id;
        }
      }
      SameSize(ids, keys, entryOf);
      n := |ids|;
    }
  }

  /** A set and its image under an injective map have the same size. */
  lemma SameSize<K, V>(image: set<V>, keys: set<K>, f: map<K, V>)
    requires keys <= f.Keys
    requires forall a, b :: a in keys && b in keys && f[a] == f[b] ==> a == b
    requires forall v :: v in image <==> exists k :: k in keys && f[k] == v
    ensures |image| == |keys|
    decreases |keys|
  {
    if keys == {} {
      assert image == {};
    } else {
      var k :| k in keys;
      assert f[k] in image;
      SameSize(image - {f[k]}, keys - {k}, f);
    }
  }
}
