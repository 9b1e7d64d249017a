/**
  Refreshing a feed, src/xmlproc.c: from a transformed document to the cache.

  libxml2 and libxslt end where a document's fields are known; a date is the number of seconds
  that `strftime` prints for it, and `random` is the UniqueId that `cache_get_new_uid` would make
  up for an entry without one.
*/
module FeedRefresh {
  import opened Options
  import opened ArticleCache

  datatype DocEntry = DocEntry(title: Option<string>, published: Option<int>, updated: Option<int>,
                               url: Option<string>, authorName: Option<string>, authorEmail: Option<string>,
                               description: Option<string>, content: Option<string>,
                               uid: Option<string>, random: string)
  datatype Node = EntryNode(entry: DocEntry) | OtherNode
  datatype Document = Document(feed: FeedText, nodes: seq<Node>)

  /** One finished download: no document stands for a missing root element. */
  datatype Job = Job(url: string, doc: Option<Document>, now: int, retention: int)

  // ---------------------------------------------------------------- one entry

  const TITLE_LENGTH: nat := 49

  function Truncated(s: string): string { if |s| <= TITLE_LENGTH then s else s[..TITLE_LENGTH] }

  function UidOf(e: DocEntry): string { if e.uid.Some? then e.uid.value else e.random }

  function TitleOf(e: DocEntry): string
  {
    if e.title.Some? then e.title.value
    else if e.description.Some? then Truncated(e.description.value)
    else if e.content.Some? then Truncated(e.content.value)
    else UidOf(e)
  }

  /** `sqlite3_bind_int` keeps the low 32 bits. */
  function AsInt32(n: int): int
  {
    var low := n % 0x1_0000_0000;
    if low < 0x8000_0000 then low else low - 0x1_0000_0000
  }

  function DateOf(d: Option<int>): int { if d.Some? then AsInt32(d.value) else 0 }

  function PayloadOf(e: DocEntry): Payload
  {
    Payload(DateOf(if e.published.Some? then e.published else e.updated), DateOf(e.updated),
            EntryText(TitleOf(e), e.url, e.authorName, e.authorEmail, e.description, e.content))
  }

  // ---------------------------------------------------------------- one refresh

  function EntriesOf(nodes: seq<Node>): seq<DocEntry>
  {
    if nodes == [] then []
    else
      var last := nodes[|nodes| - 1];
      EntriesOf(nodes[..|nodes| - 1]) + if last.EntryNode? then [last.entry] else []
  }

  function EntriesUpserted(v: Rows, url: string, es: seq<DocEntry>): Rows
  {
    if es == [] then v
    else
      var last := es[|es| - 1];
      EntryUpserted(EntriesUpserted(v, url, es[..|es| - 1]), Key(url, UidOf(last)), PayloadOf(last))
  }

  function Refreshed(v: Rows, job: Job): Rows
  {
    if job.doc.None? then v
    else
      var upserted := FeedUpserted(v, job.url, job.doc.value.feed);
      var stored := EntriesUpserted(Aged(upserted, job.url), job.url, EntriesOf(job.doc.value.nodes));
      Cleaned(stored, job.url, Cutoff(job.now, job.retention))
  }

  /** The UniqueIds of a document. */
  function Uids(job: Job): set<string>
  {
    if job.doc.None? then {} else set e | e in EntriesOf(job.doc.value.nodes) :: UidOf(e)
  }

  /** The entries that a refresh stores for the first time. */
  function NewKeys(v: Rows, job: Job): set<Key>
  {
    set x | x in Uids(job) && Key(job.url, x) !in v.entries :: Key(job.url, x)
  }

  function Lookup(v: Rows, k: Key): Option<EntryData>
  {
    if k in v.entries then Some(v.entries[k]) else None
  }

  // ---------------------------------------------------------------- refreshing, entry by entry

  /** The payload of the last entry with this UniqueId. */
  function LastPayload(es: seq<DocEntry>, uid: string): Payload
    requires exists e :: e in es && UidOf(e) == uid
  {
    var last := es[|es| - 1];
    if UidOf(last) == uid then PayloadOf(last)
    else
      assert es == es[..|es| - 1] + [last];
      LastPayload(es[..|es| - 1], uid)
  }

  /** What a refresh makes of one entry, given only that entry and the document. */
  function EntryAfter(old': Option<EntryData>, job: Job, k: Key): Option<EntryData>
  {
    if job.doc.None? || k.feed != job.url then old'
    else if k.uid in Uids(job) then
      Some(EntryData(if old'.Some? then old'.value.viewed else 0, 1,
                     LastPayload(EntriesOf(job.doc.value.nodes), k.uid)))
    else if old'.None? || Deletable(Older(old'.value), Cutoff(job.now, job.retention)) then None
    else Some(Older(old'.value))
  }

  lemma {:induction false} UpsertsAt(v: Rows, url: string, es: seq<DocEntry>, k: Key)
    ensures EntriesUpserted(v, url, es).feeds == v.feeds
    ensures k.feed != url || (forall e :: e in es ==> UidOf(e) != k.uid) ==>
      Lookup(EntriesUpserted(v, url, es), k) == Lookup(v, k)
    ensures k.feed == url && (exists e :: e in es && UidOf(e) == k.uid) ==>
      Lookup(EntriesUpserted(v, url, es), k) ==
      Some(EntryData(if k in v.entries then v.entries[k].viewed else 0, 1, LastPayload(es, k.uid)))
  {
    if es != [] {
      var front, last := es[..|es| - 1], es[|es| - 1];
      assert es == front + [last];
      UpsertsAt(v, url, front, k);
    }
  }

  /** A refresh works on every entry separately: entries of other feeds are untouched, an entry in
      the document is stored again as current with its `Viewed` kept, and any other entry of the
      feed gets one older or is deleted. */
  lemma RefreshAt(v: Rows, job: Job, k: Key)
    ensures Lookup(Refreshed(v, job), k) == EntryAfter(Lookup(v, k), job, k)
    ensures Refreshed(v, job).feeds == if job.doc.None? then v.feeds else v.feeds[job.url := job.doc.value.feed]
  {
    if job.doc.Some? {
      var aged := Aged(FeedUpserted(v, job.url, job.doc.value.feed), job.url);
      UpsertsAt(aged, job.url, EntriesOf(job.doc.value.nodes), k);
    }
  }

  /** The unread entries after a refresh are those before it and the new ones: upserts keep
      `Viewed`, and only read entries are deleted. */
  lemma UnreadAfterRefresh(v: Rows, job: Job)
    ensures UnreadKeys(Refreshed(v, job)) == UnreadKeys(v) + NewKeys(v, job)
    ensures |UnreadKeys(Refreshed(v, job))| == |UnreadKeys(v)| + |NewKeys(v, job)|
  {
    forall k ensures k in UnreadKeys(Refreshed(v, job)) <==> k in UnreadKeys(v) || k in NewKeys(v, job) {
      UnreadAt(v, job, k);
    }
    assert UnreadKeys(v) !! NewKeys(v, job);
  }

  lemma UnreadAt(v: Rows, job: Job, k: Key)
    ensures k in UnreadKeys(Refreshed(v, job)) <==> k in UnreadKeys(v) || k in NewKeys(v, job)
  {
    RefreshAt(v, job, k);
    var after := EntryAfter(Lookup(v, k), job, k);
    assert k in UnreadKeys(Refreshed(v, job)) <==> after.Some? && after.value.viewed == 0;
    assert k in NewKeys(v, job) <==> k.feed == job.url && k.uid in Uids(job) && k !in v.entries by {
      if k.feed == job.url { assert Key(job.url, k.uid) == k; }
    }
  }

  // ---------------------------------------------------------------- what a refresh stores

  /** The document's UniqueId of the entry is `x`, or it has none and `x` was made up. */
  ghost predicate HasUid(node: Node, x: string)
  {
    node.EntryNode? && (node.entry.uid == Some(x) || (node.entry.uid == None && node.entry.random == x))
  }

  lemma {:induction false} EntriesAre(nodes: seq<Node>, e: DocEntry)
    ensures e in EntriesOf(nodes) <==> EntryNode(e) in nodes
  {
    if nodes != [] {
      var front, last := nodes[..|nodes| - 1], nodes[|nodes| - 1];
      EntriesAre(front, e);
      assert nodes == front + [last];
    }
  }

  /** The UniqueIds of a document, node by node. */
  lemma UidsAre(job: Job, x: string)
    ensures x in Uids(job) <==>
      job.doc.Some? && exists i :: 0 <= i < |job.doc.value.nodes| && HasUid(job.doc.value.nodes[i], x)
  {
    if job.doc.Some? {
      var nodes := job.doc.value.nodes;
      if i :| 0 <= i < |nodes| && HasUid(nodes[i], x) {
        EntriesAre(nodes, nodes[i].entry);
      }
      if x in Uids(job) {
        var e :| e in EntriesOf(nodes) && UidOf(e) == x;
        EntriesAre(nodes, e);
        var i :| 0 <= i < |nodes| && nodes[i] == EntryNode(e);
        assert HasUid(nodes[i], x);
      }
    }
  }

  /** An entry is new exactly if the document has it and the feed had no row for it. */
  lemma NewKeysAre(v: Rows, job: Job, k: Key)
    ensures k in NewKeys(v, job) <==>
      && k.feed == job.url && k !in v.entries
      && job.doc.Some? && exists i :: 0 <= i < |job.doc.value.nodes| && HasUid(job.doc.value.nodes[i], k.uid)
  {
    UidsAre(job, k.uid);
    if k.feed == job.url {
      assert Key(job.url, k.uid) == k;
    }
  }

  lemma {:induction false} LastPayloadIs(nodes: seq<Node>, x: string, i: nat)
    requires i < |nodes| && HasUid(nodes[i], x) && forall j :: i < j < |nodes| ==> !HasUid(nodes[j], x)
    ensures nodes[i].entry in EntriesOf(nodes) && UidOf(nodes[i].entry) == x
    ensures LastPayload(EntriesOf(nodes), x) == PayloadOf(nodes[i].entry)
  {
    var front, last := nodes[..|nodes| - 1], nodes[|nodes| - 1];
    if i == |front| {
      LastOfMore(EntriesOf(front), last.entry, x);
    } else {
      LastPayloadIs(front, x, i);
      assert !HasUid(last, x);
      if last.EntryNode? {
        LastOfMore(EntriesOf(front), last.entry, x);
      } else {
        assert EntriesOf(nodes) == EntriesOf(front);
      }
    }
  }

  lemma LastOfMore(es: seq<DocEntry>, e: DocEntry, x: string)
    requires UidOf(e) == x || exists e' :: e' in es && UidOf(e') == x
    ensures e in es + [e] && (forall e' :: e' in es ==> e' in es + [e])
    ensures LastPayload(es + [e], x) == if UidOf(e) == x then PayloadOf(e) else LastPayload(es, x)
  {
    var more := es + [e];
    assert more[|more| - 1] == e && more[..|more| - 1] == es;
  }

  /** The columns of a row come from the last entry of the document with its UniqueId. */
  ghost predicate StoredFrom(d: EntryData, e: DocEntry, x: string, viewed: int)
  {
    && d.viewed == viewed && d.current == 1
    && IsDate(d.payload.pubDate, if e.published.Some? then e.published else e.updated)
    && IsDate(d.payload.modDate, e.updated)
    && (e.title.Some? ==> d.payload.text.title == e.title.value)
    && (e.title.None? && e.description.Some? ==> IsCut(d.payload.text.title, e.description.value))
    && (e.title.None? && e.description.None? && e.content.Some? ==> IsCut(d.payload.text.title, e.content.value))
    && (e.title.None? && e.description.None? && e.content.None? ==> d.payload.text.title == x)
    && d.payload.text.url == e.url && d.payload.text.description == e.description
    && d.payload.text.authorName == e.authorName && d.payload.text.authorEmail == e.authorEmail
    && d.payload.text.content == e.content
  }

  /** The row under this key comes from the entry; a row that was there keeps its `Viewed`. */
  ghost predicate StoredAs(v: Rows, v': Rows, k: Key, e: DocEntry)
  {
    k in v'.entries && StoredFrom(v'.entries[k], e, k.uid, if k in v.entries then v.entries[k].viewed else 0)
  }

  lemma UpsertStores(v: Rows, url: string, e: DocEntry)
    ensures forall x :: HasUid(EntryNode(e), x) ==>
      StoredAs(v, EntryUpserted(v, Key(url, UidOf(e)), PayloadOf(e)), Key(url, x), e)
  {
    forall x | HasUid(EntryNode(e), x)
      ensures StoredAs(v, EntryUpserted(v, Key(url, UidOf(e)), PayloadOf(e)), Key(url, x), e)
    {
      var k := Key(url, x);
      PayloadIs(e, x, if k in v.entries then v.entries[k].viewed else 0);
    }
  }

  /** The low 32 bits of the date as a signed number, or 0 without a date. */
  ghost predicate IsDate(n: int, date: Option<int>)
  {
    if date.None? then n == 0 else (date.value - n) % 0x1_0000_0000 == 0 && -0x8000_0000 <= n < 0x8000_0000
  }

  /** The first 49 characters. */
  ghost predicate IsCut(title: string, text: string)
  {
    title <= text && |title| == if |text| < 49 then |text| else 49
  }

  /** After a refresh every entry of the document is stored, with all its columns. */
  lemma PresentEntryIsStored(v: Rows, job: Job, x: string, i: nat)
    requires job.doc.Some? && i < |job.doc.value.nodes| && HasUid(job.doc.value.nodes[i], x)
    requires forall j :: i < j < |job.doc.value.nodes| ==> !HasUid(job.doc.value.nodes[j], x)
    ensures var k, after := Key(job.url, x), Refreshed(v, job);
      && k in after.entries
      && StoredFrom(after.entries[k], job.doc.value.nodes[i].entry, x,
                    if k in v.entries then v.entries[k].viewed else 0)
  {
    var k := Key(job.url, x);
    UidsAre(job, x);
    LastPayloadIs(job.doc.value.nodes, x, i);
    RefreshAt(v, job, k);
    assert Lookup(Refreshed(v, job), k) == EntryAfter(Lookup(v, k), job, k);
    PayloadIs(job.doc.value.nodes[i].entry, x, if k in v.entries then v.entries[k].viewed else 0);
  }

  lemma PayloadIs(e: DocEntry, x: string, viewed: int)
    requires HasUid(EntryNode(e), x)
    ensures StoredFrom(EntryData(viewed, 1, PayloadOf(e)), e, x, viewed)
  {
  }

  /** Any other entry of the feed gets one older, or is deleted if it is read, at its third absence and
      too old; the entries of other feeds stay as they are. */
  lemma AbsentEntryAges(v: Rows, job: Job, k: Key)
    requires job.doc.Some? && k in v.entries
    requires k.feed == job.url ==>
      forall i :: 0 <= i < |job.doc.value.nodes| ==> !HasUid(job.doc.value.nodes[i], k.uid)
    ensures var d, after := v.entries[k], Refreshed(v, job).entries;
      if k.feed != job.url then k in after && after[k] == d
      else if d.current - 1 <= -2 && d.viewed > 0 &&
           (if job.retention >= 0 then d.payload.pubDate + job.retention < job.now else d.payload.pubDate < job.now)
      then k !in after
      else k in after && after[k] == d.(current := d.current - 1)
  {
    UidsAre(job, k.uid);
    RefreshAt(v, job, k);
    assert Lookup(Refreshed(v, job), k) == EntryAfter(Lookup(v, k), job, k);
  }

  /** Refreshing again with UniqueIds that the feed gave before brings nothing new, whatever is made up
      for entries without one. */
  lemma KnownUidsAreNotNew(v: Rows, job: Job, again: Job)
    requires job.doc.Some? && again.doc.Some? && job.url == again.url
    requires SameGivenUids(again.doc.value.nodes, job.doc.value.nodes)
    ensures NewKeys(Refreshed(v, job), again) == {}
  {
    forall k ensures k !in NewKeys(Refreshed(v, job), again) {
      NewKeysAre(Refreshed(v, job), again, k);
      var nodes := again.doc.value.nodes;
      if i :| k.feed == job.url && 0 <= i < |nodes| && HasUid(nodes[i], k.uid) {
        assert GivenIn(nodes[i], job.doc.value.nodes);
        UidsAre(job, k.uid);
        RefreshAt(v, job, k);
        assert Lookup(Refreshed(v, job), k) == EntryAfter(Lookup(v, k), job, k);
      }
    }
  }

  ghost predicate GivenIn(node: Node, nodes: seq<Node>)
  {
    node.EntryNode? ==>
      node.entry.uid.Some? &&
      exists j :: 0 <= j < |nodes| && nodes[j].EntryNode? && nodes[j].entry.uid == node.entry.uid
  }

  /** Every entry of the first list has a UniqueId, and the second list has it too. */
  ghost predicate SameGivenUids(nodes: seq<Node>, nodes': seq<Node>)
  {
    forall i :: 0 <= i < |nodes| ==> GivenIn(nodes[i], nodes')
  }

  // ---------------------------------------------------------------- the code

  /** `update_entry`. */
  method UpdateEntry(cache: Cache, feedId: int, e: DocEntry)
    requires cache.Valid() && feedId in cache.feeds
    modifies cache`entries, cache`entryOf
    ensures cache.Valid()
    ensures cache.Contents() ==
      EntryUpserted(old(cache.Contents()), Key(cache.feeds[feedId].url, UidOf(e)), PayloadOf(e))
    ensures forall x :: HasUid(EntryNode(e), x) ==>
      StoredAs(old(cache.Contents()), cache.Contents(), Key(cache.feeds[feedId].url, x), e)
    ensures forall k :: k in old(cache.entryOf) ==> k in cache.entryOf && cache.entryOf[k] == old(cache.entryOf)[k]
  {
    UpsertStores(cache.Contents(), cache.feeds[feedId].url, e);
    var published := e.published;
    if e.updated.Some? {
      if e.published.None? {
        published := e.updated;
      }
    }
    var uid := e.random;
    if e.uid.Some? {
      uid := e.uid.value;
    }
    var title := uid;
    if e.title.Some? {
      title := e.title.value;
    } else if e.description.Some? {
      title := Truncated(e.description.value);
    } else if e.content.Some? {
      title := Truncated(e.content.value);
    }
    var text := EntryText(title, e.url, e.authorName, e.authorEmail, e.description, e.content);
    cache.UpdateEntry(feedId, uid, Payload(DateOf(published), DateOf(e.updated), text));
  }

  /** `update_entries`. */
  method UpdateEntries(cache: Cache, feedId: int, nodes: seq<Node>, now: int, retention: int)
    requires cache.Valid() && feedId in cache.feeds
    modifies cache`entries, cache`entryOf
    ensures cache.Valid()
    ensures var url := cache.feeds[feedId].url;
      cache.Contents() ==
      Cleaned(EntriesUpserted(Aged(old(cache.Contents()), url), url, EntriesOf(nodes)), url, Cutoff(now, retention))
    ensures forall k :: k in cache.entryOf && k in old(cache.entryOf) ==> cache.entryOf[k] == old(cache.entryOf)[k]
  {
    cache.InitCleanup(feedId);
    StoreEntries(cache, feedId, nodes);
    cache.CleanupOld(feedId, now, retention);
  }

  method StoreNode(cache: Cache, feedId: int, node: Node)
    requires cache.Valid() && feedId in cache.feeds
    modifies cache`entries, cache`entryOf
    ensures cache.Valid()
    ensures cache.Contents() == NodeUpserted(old(cache.Contents()), cache.feeds[feedId].url, node)
    ensures forall k :: k in old(cache.entryOf) ==> k in cache.entryOf && cache.entryOf[k] == old(cache.entryOf)[k]
  {
    if node.EntryNode? {
      UpdateEntry(cache, feedId, node.entry);
    }
  }

  function NodeUpserted(v: Rows, url: string, node: Node): Rows
  {
    if node.EntryNode? then EntryUpserted(v, Key(url, UidOf(node.entry)), PayloadOf(node.entry)) else v
  }

  /** The loop over the sibling nodes, of which only entries count. */
  method StoreEntries(cache: Cache, feedId: int, nodes: seq<Node>)
    requires cache.Valid() && feedId in cache.feeds
    modifies cache`entries, cache`entryOf
    ensures cache.Valid()
    ensures cache.Contents() == EntriesUpserted(old(cache.Contents()), cache.feeds[feedId].url, EntriesOf(nodes))
    ensures forall k :: k in old(cache.entryOf) ==> k in cache.entryOf && cache.entryOf[k] == old(cache.entryOf)[k]
  {
    ghost var rows, url := cache.Contents(), cache.feeds[feedId].url;
    var i := 0;
    while i < |nodes|
      invariant i <= |nodes| && cache.Valid()
      invariant cache.Contents() == EntriesUpserted(rows, url, EntriesOf(nodes[..i]))
      invariant forall k :: k in old(cache.entryOf) ==> k in cache.entryOf && cache.entryOf[k] == old(cache.entryOf)[k]
    {
      NodeStored(rows, url, nodes, i);
      StoreNode(cache, feedId, nodes[i]);
      i := i + 1;
    }
    assert nodes[..|nodes|] == nodes;
  }

  lemma NodeStored(v: Rows, url: string, nodes: seq<Node>, i: nat)
    requires i < |nodes|
    ensures EntriesUpserted(v, url, EntriesOf(nodes[..i + 1])) ==
      NodeUpserted(EntriesUpserted(v, url, EntriesOf(nodes[..i])), url, nodes[i])
  {
    assert nodes[..i + 1][..i] == nodes[..i];
    var es, es' := EntriesOf(nodes[..i]), EntriesOf(nodes[..i + 1]);
    if nodes[i].EntryNode? {
      assert es' == es + [nodes[i].entry];
      assert es'[..|es'| - 1] == es && es'[|es'| - 1] == nodes[i].entry;
    } else {
      assert es' == es;
    }
  }

  /** `update_feed` and `update_entries`. */
  method RefreshFeed(cache: Cache, job: Job)
    requires cache.Valid() && job.doc.Some?
    modifies cache
    ensures cache.Valid() && cache.Contents() == Refreshed(old(cache.Contents()), job)
    ensures forall u :: u in old(cache.feedOf) ==> u in cache.feedOf && cache.feedOf[u] == old(cache.feedOf)[u]
    ensures forall k :: k in cache.entryOf && k in old(cache.entryOf) ==> cache.entryOf[k] == old(cache.entryOf)[k]
  {
    var feedId := cache.UpdateFeed(job.url, job.doc.value.feed);
    UpdateEntries(cache, feedId, job.doc.value.nodes, job.now, job.retention);
  }

  /** `xmlproc_update_cache`: reports 1 exactly when an entry was stored for the first time.  Known
      feeds and entries keep their row ids. */
  method UpdateCache(cache: Cache, job: Job) returns (newEntry: bool)
    requires cache.Valid()
    modifies cache
    ensures cache.Valid() && cache.Contents() == Refreshed(old(cache.Contents()), job)
    ensures newEntry <==> NewKeys(old(cache.Contents()), job) != {}
    ensures newEntry <==> job.doc.Some? && HasNewUid(old(cache.Contents()), job)
    ensures forall u :: u in old(cache.feedOf) ==> u in cache.feedOf && cache.feedOf[u] == old(cache.feedOf)[u]
    ensures forall k :: k in cache.entryOf && k in old(cache.entryOf) ==> cache.entryOf[k] == old(cache.entryOf)[k]
  {
    if job.doc.None? {
      return false;
    }
    var before := cache.GetNumUnread();
    UnreadAfterRefresh(cache.Contents(), job);
    NewKeysExist(cache.Contents(), job);
    RefreshFeed(cache, job);
    var after := cache.GetNumUnread();
    newEntry := before < after;
  }

  /** The same feed twice: with the UniqueIds it gave before, the second refresh reports nothing. */
  method RefreshTwice(cache: Cache, job: Job, again: Job) returns (first: bool, second: bool)
    requires cache.Valid() && job.doc.Some? && again.doc.Some? && job.url == again.url
    requires SameGivenUids(again.doc.value.nodes, job.doc.value.nodes)
    modifies cache
    ensures cache.Valid() && !second
    ensures first <==> HasNewUid(old(cache.Contents()), job)
  {
    ghost var v := cache.Contents();
    KnownUidsAreNotNew(v, job, again);
    first := UpdateCache(cache, job);
    second := UpdateCache(cache, again);
    NewKeysExist(v, job);
  }

  /** Some entry of the document has a UniqueId that the feed has no row for. */
  ghost predicate HasNewUid(v: Rows, job: Job)
    requires job.doc.Some?
  {
    exists i, x ::
      0 <= i < |job.doc.value.nodes| && HasUid(job.doc.value.nodes[i], x) && Key(job.url, x) !in v.entries
  }

  lemma NewKeysExist(v: Rows, job: Job)
    requires job.doc.Some?
    ensures NewKeys(v, job) != {} <==> HasNewUid(v, job)
  {
    if k :| k in NewKeys(v, job) {
      NewKeysAre(v, job, k);
      var i :| 0 <= i < |job.doc.value.nodes| && HasUid(job.doc.value.nodes[i], k.uid);
      assert Key(job.url, k.uid) == k;
    }
    if i, x :| 0 <= i < |job.doc.value.nodes| && HasUid(job.doc.value.nodes[i], x) && Key(job.url, x) !in v.entries {
      NewKeysAre(v, job, Key(job.url, x));
    }
  }
}
