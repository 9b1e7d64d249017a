/**
  src/urlparse.c: the list of feeds and the index from tags to feeds.

  A `struct urlitem *` is the number of the line that made the item, counted from 0 in file
  order; a tag list is a sequence of those.
*/
module UrlIndex {
  import opened Options
  import opened HashTable
  import opened LineWords
  import opened LineReader
  import opened LineReading

  datatype UrlItem = UrlItem(id: nat, url: string, nHttpErr: int)

  type TagTable = map<string, Option<seq<nat>>>

  // ---------------------------------------------------------------- what the index holds

  function LineTags(line: string): seq<string>
  {
    if Words(line) == [] then [] else Words(line)[1..]
  }

  /** `set_urltag` on the list that `get_urltag` found, with one more item in front. */
  function AddTag(vars: TagTable, tag: string, id: nat): TagTable
  {
    vars[tag := Some([id] + TagListOf(vars, tag))]
  }

  /** The list stored for a tag; an unused tag gives NULL, the empty list. */
  function TagListOf(vars: TagTable, tag: string): seq<nat>
  {
    if tag in vars && vars[tag].Some? then vars[tag].value else []
  }

  function AddTags(vars: TagTable, tags: seq<string>, id: nat): TagTable
    decreases |tags|
  {
    if tags == [] then vars else AddTags(AddTag(vars, tags[0], id), tags[1..], id)
  }

  function Index(lines: seq<string>): TagTable
  {
    if lines == [] then map[]
    else AddTags(Index(lines[..|lines| - 1]), LineTags(lines[|lines| - 1]), |lines| - 1)
  }

  /** How often a line carries a tag. */
  function Carries(line: string, tag: string): nat { multiset(LineTags(line))[tag] }

  function TagSet(tags: seq<string>): set<string> { set t | t in tags }

  function AllTags(lines: seq<string>): set<string>
  {
    set i, t | 0 <= i < |lines| && t in LineTags(lines[i]) :: t
  }

  function Copies(n: nat, id: nat): seq<nat> { seq(n, _ => id) }

  lemma {:induction false} AddTagsTo(vars: TagTable, tags: seq<string>, id: nat, tag: string)
    ensures TagListOf(AddTags(vars, tags, id), tag) == Copies(multiset(tags)[tag], id) + TagListOf(vars, tag)
    decreases |tags|
  {
    if tags != [] {
      var n, before := multiset(tags[1..])[tag], TagListOf(vars, tag);
      AddTagsTo(AddTag(vars, tags[0], id), tags[1..], id, tag);
      CountHead(tags, tag);
      if tags[0] == tag {
        OneMoreCopy(n, id, before);
      }
    }
  }

  lemma OneMoreCopy(n: nat, id: nat, ids: seq<nat>)
    ensures Copies(n, id) + ([id] + ids) == Copies(n + 1, id) + ids
  {
  }

  lemma CountHead(tags: seq<string>, tag: string)
    requires tags != []
    ensures multiset(tags)[tag] == multiset(tags[1..])[tag] + if tags[0] == tag then 1 else 0
  {
    assert tags == [tags[0]] + tags[1..];
  }

  lemma {:induction false} AddTagsKeys(vars: TagTable, tags: seq<string>, id: nat)
    ensures AddTags(vars, tags, id).Keys == vars.Keys + TagSet(tags)
    decreases |tags|
  {
    if tags != [] {
      AddTagsKeys(AddTag(vars, tags[0], id), tags[1..], id);
      assert tags == [tags[0]] + tags[1..];
    }
  }

  ghost predicate Descending(ids: seq<nat>)
  {
    forall a, b :: 0 <= a < b < |ids| ==> ids[a] >= ids[b]
  }

  lemma IndexOfLast(lines: seq<string>, tag: string)
    requires lines != []
    ensures var last := |lines| - 1;
      TagListOf(Index(lines), tag) ==
      Copies(Carries(lines[last], tag), last) + TagListOf(Index(lines[..last]), tag)
  {
    AddTagsTo(Index(lines[..|lines| - 1]), LineTags(lines[|lines| - 1]), |lines| - 1, tag);
  }

  /** The list of a tag holds exactly the items whose lines carry it, as often as they carry it. */
  lemma {:induction false} ListedAsOftenAsCarried(lines: seq<string>, tag: string, i: nat)
    ensures multiset(TagListOf(Index(lines), tag))[i] == if i < |lines| then Carries(lines[i], tag) else 0
  {
    if lines != [] {
      var last := |lines| - 1;
      ListedAsOftenAsCarried(lines[..last], tag, i);
      IndexOfLast(lines, tag);
      CopiesCount(Carries(lines[last], tag), last, TagListOf(Index(lines[..last]), tag), i);
    }
  }

  lemma {:induction false} CopiesCount(n: nat, id: nat, ids: seq<nat>, i: nat)
    ensures multiset(Copies(n, id) + ids)[i] == multiset(ids)[i] + if i == id then n else 0
  {
    if n > 0 {
      CopiesCount(n - 1, id, ids, i);
      assert Copies(n, id) + ids == [id] + (Copies(n - 1, id) + ids);
    } else {
      assert Copies(n, id) + ids == ids;
    }
  }

  /** The list of a tag runs from the last line that carries it to the first. */
  lemma {:induction false} ListedFromLastToFirst(lines: seq<string>, tag: string)
    ensures Descending(TagListOf(Index(lines), tag))
    ensures Below(TagListOf(Index(lines), tag), |lines|)
  {
    if lines != [] {
      var last := |lines| - 1;
      ListedFromLastToFirst(lines[..last], tag);
      IndexOfLast(lines, tag);
      CopiesInFront(Carries(lines[last], tag), last, TagListOf(Index(lines[..last]), tag));
    }
  }

  ghost predicate Below(ids: seq<nat>, n: nat)
  {
    forall k :: 0 <= k < |ids| ==> ids[k] < n
  }

  lemma CopiesInFront(n: nat, id: nat, ids: seq<nat>)
    requires Descending(ids) && Below(ids, id)
    ensures Descending(Copies(n, id) + ids) && Below(Copies(n, id) + ids, id + 1)
  {
    var all := Copies(n, id) + ids;
    assert forall k :: 0 <= k < n ==> all[k] == id;
    assert forall k :: n <= k < |all| ==> all[k] == ids[k - n];
  }

  /** The table's names are the tags of the file; every other tag gives NULL. */
  lemma {:induction false} IndexedTags(lines: seq<string>)
    ensures Index(lines).Keys == AllTags(lines)
  {
    if lines != [] {
      var front, last := lines[..|lines| - 1], lines[|lines| - 1];
      IndexedTags(front);
      AddTagsKeys(Index(front), LineTags(last), |lines| - 1);
      assert lines == front + [last];
      forall t ensures t in AllTags(lines) <==> t in AllTags(front) || t in LineTags(last) {
        if t in AllTags(front) {
          var i :| 0 <= i < |front| && t in LineTags(front[i]);
          assert t in LineTags(lines[i]);
        }
        if t in LineTags(last) {
          assert t in LineTags(lines[|lines| - 1]);
        }
        if t in AllTags(lines) {
          var i :| 0 <= i < |lines| && t in LineTags(lines[i]);
          assert i < |front| ==> t in LineTags(front[i]);
        }
      }
    } else {
      assert AllTags(lines) == {};
    }
  }

  // ---------------------------------------------------------------- urlparse

  /** The list of feeds: the items in reverse file order, none of them fetched yet. */
  ghost predicate ReverseOfFile(urls: seq<UrlItem>, lines: seq<string>)
  {
    && |urls| == |lines|
    && forall i :: 0 <= i < |lines| ==>
         Words(lines[i]) != [] && urls[|lines| - 1 - i] == UrlItem(i, Words(lines[i])[0], -1)
  }

  /** Reads the words of one line: the feed's address, then its tags. */
  method IndexLine(buf: array<char>, ghost line: string, id: nat, tags: VarTable<seq<nat>>)
    returns (url: string)
    requires StringAt(buf[..], 0, line) && line != []
    requires tags.Valid() && |tags.vars.Keys + TagSet(LineTags(line))| <= INITIAL_LOCTAB_SIZE
    modifies buf, tags, tags.tab
    ensures tags.Valid() && tags.tab == old(tags.tab)
    ensures buf[|line| + 1..] == old(buf[|line| + 1..])
    ensures Words(line) != [] && url == Words(line)[0]
    ensures tags.vars == AddTags(old(tags.vars), LineTags(line), id)
  {
    var bp, next := NextWord(buf, 0, line);
    url := bp.value;
    TagsOfLine(line);
    IndexTags(buf, next, AfterWord(line), id, tags);
  }

  lemma TagsOfLine(line: string)
    requires line != []
    ensures Words(line) != [] && Words(line)[0] == FirstWord(line) && LineTags(line) == Words(AfterWord(line))
  {
  }

  /** The inner loop: every further word of the line is a tag. */
  method IndexTags(buf: array<char>, p: nat, ghost s: string, id: nat, tags: VarTable<seq<nat>>)
    requires StringAt(buf[..], p, s)
    requires tags.Valid() && |tags.vars.Keys + TagSet(Words(s))| <= INITIAL_LOCTAB_SIZE
    modifies buf, tags, tags.tab
    ensures tags.Valid() && tags.tab == old(tags.tab)
    ensures buf[p + |s| + 1..] == old(buf[p + |s| + 1..])
    ensures tags.vars == AddTags(old(tags.vars), Words(s), id)
  {
    ghost var r := s;
    var next: nat := p;
    while true
      invariant tags.Valid() && tags.tab == old(tags.tab)
      invariant next + |r| == p + |s| && StringAt(buf[..], next, r)
      invariant buf[p + |s| + 1..] == old(buf[p + |s| + 1..])
      invariant |tags.vars.Keys + TagSet(Words(r))| <= INITIAL_LOCTAB_SIZE
      invariant AddTags(tags.vars, Words(r), id) == AddTags(old(tags.vars), Words(s), id)
      decreases |r|
    {
      var more;
      more, next := IndexTag(buf, next, r, id, tags);
      if !more {
        return;
      }
      r := AfterWord(r);
    }
  }

  method IndexTag(buf: array<char>, p: nat, ghost s: string, id: nat, tags: VarTable<seq<nat>>)
    returns (more: bool, next: nat)
    requires StringAt(buf[..], p, s)
    requires tags.Valid() && |tags.vars.Keys + TagSet(Words(s))| <= INITIAL_LOCTAB_SIZE
    modifies buf, tags, tags.tab
    ensures tags.Valid() && tags.tab == old(tags.tab)
    ensures StringAt(buf[..], next, AfterWord(s)) && next + |AfterWord(s)| == p + |s|
    ensures buf[p + |s| + 1..] == old(buf[p + |s| + 1..])
    ensures more <==> s != []
    ensures !more ==> tags.vars == old(tags.vars)
    ensures more ==> AddTags(tags.vars, Words(AfterWord(s)), id) == AddTags(old(tags.vars), Words(s), id)
    ensures more ==> |tags.vars.Keys + TagSet(Words(AfterWord(s)))| <= INITIAL_LOCTAB_SIZE
  {
    var bp;
    bp, next := NextWord(buf, p, s);
    if bp.None? {
      return false, next;
    }
    RoomForTag(tags.vars, s, id);
    AddOneTag(tags, bp.value, id);
    return true, next;
  }

  /** `get_line_word` and the text of the word. */
  method NextWord(buf: array<char>, p: nat, ghost s: string) returns (word: Option<string>, next: nat)
    requires StringAt(buf[..], p, s)
    modifies buf
    ensures word == if s == [] then None else Some(FirstWord(s))
    ensures StringAt(buf[..], next, AfterWord(s)) && next + |AfterWord(s)| == p + |s|
    ensures buf[p + |s| + 1..] == old(buf[p + |s| + 1..])
  {
    var bp;
    bp, next := GetLineWord(buf, p, s);
    if bp.None? {
      return None, p;
    }
    var text, after := CopyString(buf, bp.value, FirstWord(s));
    word := Some(text);
  }

  /** `get_urltag`, `LIST_ADD` and `set_urltag` for one tag. */
  method AddOneTag(tags: VarTable<seq<nat>>, tag: string, id: nat)
    requires tags.Valid() && Admits(tags.vars, tag)
    modifies tags, tags.tab
    ensures tags.Valid() && tags.tab == old(tags.tab)
    ensures tags.vars == AddTag(old(tags.vars), tag, id)
  {
    var tlp := tags.Get(Some(tag));
    if tlp.None? {
      tlp := Some([id]);
      assert [id] == [id] + [];
    } else {
      tlp := Some([id] + tlp.value);
    }
    tags.Set(tag, tlp);
  }

  lemma RoomForTag(vars: TagTable, s: string, id: nat)
    requires s != [] && |vars.Keys + TagSet(Words(s))| <= INITIAL_LOCTAB_SIZE
    ensures Admits(vars, FirstWord(s))
    ensures |AddTag(vars, FirstWord(s), id).Keys + TagSet(Words(AfterWord(s)))| <= INITIAL_LOCTAB_SIZE
  {
    var w, rest := FirstWord(s), Words(AfterWord(s));
    assert Words(s) == [w] + rest;
    TagSetHead(vars.Keys, w, rest);
    assert AddTag(vars, w, id).Keys == vars.Keys + {w};
    SubsetSize(vars.Keys + {w}, vars.Keys + {w} + TagSet(rest));
    if w !in vars {
      assert |vars.Keys + {w}| == |vars.Keys| + 1;
    }
  }

  lemma TagSetHead(names: set<string>, w: string, rest: seq<string>)
    ensures names + TagSet([w] + rest) == names + {w} + TagSet(rest)
  {
    assert TagSet([w] + rest) == {w} + TagSet(rest);
  }

  lemma SubsetSize<T>(a: set<T>, b: set<T>)
    requires a <= b
    ensures |a| <= |b|
  {
    assert b == a + (b - a);
  }

  /** The lines from `id` on are still to be read. */
  ghost predicate Unread(c: ConfRead, file: InputFile, lines: seq<string>, id: nat)
    reads c, c.buf, file
  {
    && c.Valid() && file.Valid() && !c.eof
    && id <= |lines|
    && Lines(c.Pending() + file.Rest()) == lines[id..]
    && Leftover(c.Pending() + file.Rest()) == []
  }

  /** `read_config_line` in the middle of an admissible file. */
  method NextLine(c: ConfRead, file: InputFile, ghost lines: seq<string>, ghost id: nat) returns (more: bool)
    requires Unread(c, file, lines, id)
    requires forall i :: 0 <= i < |lines| ==> NUL !in lines[i]
    modifies c, c.buf, file
    ensures c.buf == old(c.buf) || fresh(c.buf)
    ensures more <==> id < |lines|
    ensures more ==> Unread(c, file, lines, id + 1) && lines[id] != []
    ensures more ==> c.Holds(lines[id]) && StringAt(c.buf[..], 0, lines[id])
  {
    ghost var p, r := c.Pending(), file.Rest();
    NothingLeft(p, r);
    more := c.ReadConfigLine(file, p, r, p + r);
    if more {
      var line := FirstLine(p + r);
      assert lines[id..][0] == lines[id] == line;
      assert lines[id + 1..] == lines[id..][1..];
      assert c.buf[..c.lRet][..|line|] == line && c.buf[..c.lRet][|line|] == NUL;
    }
  }

  lemma NothingLeft(p: seq<char>, r: seq<char>)
    requires Leftover(p + r) == []
    ensures HasLine(p + r) <==> Lines(p + r) != []
    ensures !HasLine(p + r) ==> p == [] && r == []
    ensures HasLine(p + r) ==> FirstLine(p + r) != []
  {
    FirstLineIs(p + r);
  }

  lemma LineFits(lines: seq<string>, id: nat)
    requires id < |lines| && |AllTags(lines)| <= INITIAL_LOCTAB_SIZE
    ensures |Index(lines[..id]).Keys + TagSet(LineTags(lines[id]))| <= INITIAL_LOCTAB_SIZE
  {
    IndexedTags(lines[..id]);
    var now := AllTags(lines[..id]) + TagSet(LineTags(lines[id]));
    forall t | t in now ensures t in AllTags(lines) {
      if t in LineTags(lines[id]) {
      } else {
        var i :| 0 <= i < id && t in LineTags(lines[..id][i]);
        assert t in LineTags(lines[i]);
      }
    }
    SubsetSize(now, AllTags(lines));
  }

  /** `urlparse` on an admissible file with at most 32 distinct tags, for every way `read` may split
      it and any hash function. */
  method UrlParse(data: seq<char>, schedule: nat -> nat, hash: HashFunction)
    returns (urls: seq<UrlItem>, tags: VarTable<seq<nat>>)
    requires Admissible(data) && |AllTags(NonEmptyLines(data))| <= INITIAL_LOCTAB_SIZE
    ensures ReverseOfFile(urls, NonEmptyLines(data))
    ensures tags.Valid() && tags.vars == Index(NonEmptyLines(data))
  {
    ghost var lines := NonEmptyLines(data);
    LinesAreNonEmptyLines(data);
    NothingLeftExactlyWhen(data);
    NulFreeLines(data);
    var c := new ConfRead();
    var file := new InputFile(data, schedule);
    tags := new VarTable<seq<nat>>(hash);
    urls := [];
    var id := 0;
    assert c.Pending() + file.Rest() == data;
    while true
      invariant Unread(c, file, lines, id)
      invariant tags.Valid() && tags.vars == Index(lines[..id])
      invariant ReverseOfFile(urls, lines[..id])
      invariant fresh(c) && fresh(c.buf) && fresh(file) && fresh(tags) && fresh(tags.tab)
      decreases |lines| - id
    {
      var more, url := ParseLine(c, file, tags, lines, id);
      if !more {
        assert lines[..id] == lines;
        return;
      }
      OneMoreItem(urls, lines, id, url);
      urls := [UrlItem(id, url, -1)] + urls;
      id := id + 1;
    }
  }

  /** `urlparse` and then `get_urltag`: the items whose lines carry the tag, as often as they carry
      it, from the last line to the first. */
  method ParseAndLookUp(data: seq<char>, schedule: nat -> nat, hash: HashFunction, tag: string)
    returns (urls: seq<UrlItem>, listed: seq<nat>)
    requires Admissible(data) && |AllTags(NonEmptyLines(data)) + {tag}| <= INITIAL_LOCTAB_SIZE
    ensures ReverseOfFile(urls, NonEmptyLines(data))
    ensures Descending(listed)
    ensures forall i: nat ::
      multiset(listed)[i] == if i < |NonEmptyLines(data)| then Carries(NonEmptyLines(data)[i], tag) else 0
  {
    ghost var lines := NonEmptyLines(data);
    RoomForLookUp(lines, tag);
    var tags;
    urls, tags := UrlParse(data, schedule, hash);
    IndexedTags(lines);
    var found := tags.Get(Some(tag));
    listed := match found case None => [] case Some(ids) => ids;
    ListingIs(lines, tag, listed);
  }

  lemma ListingIs(lines: seq<string>, tag: string, listed: seq<nat>)
    requires listed == TagListOf(Index(lines), tag)
    ensures Descending(listed)
    ensures forall i: nat :: multiset(listed)[i] == if i < |lines| then Carries(lines[i], tag) else 0
  {
    ListedFromLastToFirst(lines, tag);
    forall i: nat ensures multiset(listed)[i] == if i < |lines| then Carries(lines[i], tag) else 0 {
      ListedAsOftenAsCarried(lines, tag, i);
    }
  }

  lemma RoomForLookUp(lines: seq<string>, tag: string)
    requires |AllTags(lines) + {tag}| <= INITIAL_LOCTAB_SIZE
    ensures |AllTags(lines)| <= INITIAL_LOCTAB_SIZE && Admits(Index(lines), tag)
  {
    IndexedTags(lines);
    SubsetSize(AllTags(lines), AllTags(lines) + {tag});
    assert |Index(lines).Keys| == |Index(lines)|;
  }

  lemma OneMoreItem(urls: seq<UrlItem>, lines: seq<string>, id: nat, url: string)
    requires id < |lines| && ReverseOfFile(urls, lines[..id])
    requires Words(lines[id]) != [] && url == Words(lines[id])[0]
    ensures ReverseOfFile([UrlItem(id, url, -1)] + urls, lines[..id + 1])
  {
    var front, all := lines[..id], lines[..id + 1];
    var urls' := [UrlItem(id, url, -1)] + urls;
    forall i | 0 <= i < |all|
      ensures Words(all[i]) != [] && urls'[|all| - 1 - i] == UrlItem(i, Words(all[i])[0], -1)
    {
      if i < id {
        assert all[i] == front[i];
        assert urls'[|all| - 1 - i] == urls[|front| - 1 - i];
      }
    }
  }

  lemma IndexNext(lines: seq<string>, id: nat)
    requires id < |lines|
    ensures Index(lines[..id + 1]) == AddTags(Index(lines[..id]), LineTags(lines[id]), id)
  {
    assert lines[..id + 1][..id] == lines[..id];
  }

  /** Tokenizing the current line leaves the unread tail of the buffer alone. */
  method IndexCurrent(c: ConfRead, file: InputFile, tags: VarTable<seq<nat>>, ghost lines: seq<string>, id: nat)
    returns (url: string)
    requires id < |lines| && Unread(c, file, lines, id + 1) && lines[id] != []
    requires c.Holds(lines[id]) && StringAt(c.buf[..], 0, lines[id])
    requires tags.Valid() && |tags.vars.Keys + TagSet(LineTags(lines[id]))| <= INITIAL_LOCTAB_SIZE
    modifies c.buf, tags, tags.tab
    ensures tags.tab == old(tags.tab) && tags.Valid() && Unread(c, file, lines, id + 1)
    ensures tags.vars == AddTags(old(tags.vars), LineTags(lines[id]), id)
    ensures Words(lines[id]) != [] && url == Words(lines[id])[0]
  {
    url := IndexFront(c, tags, lines[id], id, c.Pending());
  }

  /** The same for the line at the front of the buffer and the bytes `p` behind it. */
  method IndexFront(c: ConfRead, tags: VarTable<seq<nat>>, ghost line: string, id: nat, ghost p: seq<char>)
    returns (url: string)
    requires c.Valid() && c.Holds(line) && p == c.Pending() && line != [] && StringAt(c.buf[..], 0, line)
    requires tags.Valid() && |tags.vars.Keys + TagSet(LineTags(line))| <= INITIAL_LOCTAB_SIZE
    modifies c.buf, tags, tags.tab
    ensures tags.tab == old(tags.tab) && tags.Valid() && p == c.Pending()
    ensures tags.vars == AddTags(old(tags.vars), LineTags(line), id)
    ensures Words(line) != [] && url == Words(line)[0]
  {
    ghost var b := c.buf[..];
    url := IndexLine(c.buf, line, id, tags);
    assert c.buf[..][c.lRet..] == b[c.lRet..];
    SameTail(b, c.buf[..], c.lRet, c.bStored);
  }

  lemma SameTail(b: seq<char>, b': seq<char>, lo: nat, hi: nat)
    requires lo <= hi <= |b| == |b'| && b[lo..] == b'[lo..]
    ensures b[lo..hi] == b'[lo..hi]
  {
    assert b[lo..hi] == b[lo..][..hi - lo] == b'[lo..][..hi - lo] == b'[lo..hi];
  }

  /** One turn of the outer loop. */
  method ParseLine(c: ConfRead, file: InputFile, tags: VarTable<seq<nat>>, ghost lines: seq<string>, id: nat)
    returns (more: bool, url: string)
    requires Unread(c, file, lines, id) && |AllTags(lines)| <= INITIAL_LOCTAB_SIZE
    requires forall i :: 0 <= i < |lines| ==> NUL !in lines[i]
    requires tags.Valid() && tags.vars == Index(lines[..id])
    modifies c, c.buf, file, tags, tags.tab
    ensures (c.buf == old(c.buf) || fresh(c.buf)) && tags.tab == old(tags.tab) && tags.Valid()
    ensures more <==> id < |lines|
    ensures more ==> Unread(c, file, lines, id + 1) && tags.vars == Index(lines[..id + 1])
    ensures more ==> Words(lines[id]) != [] && url == Words(lines[id])[0]
    ensures !more ==> tags.vars == old(tags.vars)
  {
    url := [];
    more := NextLine(c, file, lines, id);
    if more {
      url := IndexNextLine(c, file, tags, lines, id);
    }
  }

  method IndexNextLine(c: ConfRead, file: InputFile, tags: VarTable<seq<nat>>, ghost lines: seq<string>, id: nat)
    returns (url: string)
    requires id < |lines| && |AllTags(lines)| <= INITIAL_LOCTAB_SIZE
    requires Unread(c, file, lines, id + 1) && lines[id] != []
    requires c.Holds(lines[id]) && StringAt(c.buf[..], 0, lines[id])
    requires tags.Valid() && tags.vars == Index(lines[..id])
    modifies c.buf, tags, tags.tab
    ensures tags.tab == old(tags.tab) && tags.Valid() && Unread(c, file, lines, id + 1)
    ensures tags.vars == Index(lines[..id + 1])
    ensures Words(lines[id]) != [] && url == Words(lines[id])[0]
  {
    LineFits(lines, id);
    IndexNext(lines, id);
    url := IndexCurrent(c, file, tags, lines, id);
  }

  // ---------------------------------------------------------------- writing a file and indexing it

  /** One feed as the user writes it: its address and its tags. */
  datatype Feed = Feed(url: string, tags: seq<string>)

  /** Neither empty nor containing a separator. */
  predicate IsWord(w: string)
  {
    w != [] && ' ' !in w && '\t' !in w && '\n' !in w && '\0' !in w
  }

  predicate IsFeed(f: Feed) { IsWord(f.url) && forall i :: 0 <= i < |f.tags| ==> IsWord(f.tags[i]) }

  function TagsOf(feeds: seq<Feed>): set<string>
  {
    set i, t | 0 <= i < |feeds| && t in feeds[i].tags :: t
  }

  function LineOf(f: Feed): string { Join([f.url] + f.tags) }

  function FileLines(feeds: seq<Feed>): (lines: seq<string>)
    ensures |lines| == |feeds| && forall i :: 0 <= i < |feeds| ==> lines[i] == LineOf(feeds[i])
  {
    seq(|feeds|, i requires 0 <= i < |feeds| => LineOf(feeds[i]))
  }

  lemma {:induction false} JoinOfWords(words: seq<string>)
    requires words != [] && forall i :: 0 <= i < |words| ==> IsWord(words[i])
    ensures Join(words) != [] && '\n' !in Join(words) && '\0' !in Join(words)
  {
    if |words| > 1 {
      JoinOfWords(words[1..]);
    }
  }

  lemma LineOfFeed(f: Feed)
    requires IsFeed(f)
    ensures LineOf(f) != [] && '\n' !in LineOf(f) && '\0' !in LineOf(f)
    ensures Words(LineOf(f)) == [f.url] + f.tags && LineTags(LineOf(f)) == f.tags
  {
    var words := [f.url] + f.tags;
    forall i | 0 <= i < |words| ensures IsWord(words[i]) && BlankFree(words[i]) {
      assert forall k :: 0 <= k < |words[i]| ==> words[i][k] in words[i];
    }
    JoinOfWords(words);
    SplitOfJoin(words);
  }

  /** Writing a list of feeds into a file, reading it with `urlparse` and looking up a tag: the feeds
      come in reverse order with their addresses, not yet fetched, and the tag has the feeds that
      carry it, as often as they carry it, from the last to the first. */
  method WriteParseLookUp(feeds: seq<Feed>, schedule: nat -> nat, hash: HashFunction, tag: string)
    returns (urls: seq<UrlItem>, listed: seq<nat>)
    requires forall i :: 0 <= i < |feeds| ==> IsFeed(feeds[i])
    requires |TagsOf(feeds) + {tag}| <= 32
    ensures |urls| == |feeds|
    ensures forall i :: 0 <= i < |feeds| ==> urls[|feeds| - 1 - i] == UrlItem(i, feeds[i].url, -1)
    ensures forall a, b :: 0 <= a < b < |listed| ==> listed[a] >= listed[b]
    ensures forall i: nat :: multiset(listed)[i] == if i < |feeds| then multiset(feeds[i].tags)[tag] else 0
  {
    var lines := FileLines(feeds);
    FileIsFeeds(feeds, lines);
    urls, listed := ParseAndLookUp(Unlines(lines), schedule, hash, tag);
    ItemsOfFeeds(feeds, lines, urls);
    ListedOfFeeds(feeds, lines, tag, listed);
  }

  lemma ItemsOfFeeds(feeds: seq<Feed>, lines: seq<string>, urls: seq<UrlItem>)
    requires lines == FileLines(feeds) && forall i :: 0 <= i < |feeds| ==> IsFeed(feeds[i])
    requires ReverseOfFile(urls, lines)
    ensures |urls| == |feeds|
    ensures forall i :: 0 <= i < |feeds| ==> urls[|feeds| - 1 - i] == UrlItem(i, feeds[i].url, -1)
  {
    forall i | 0 <= i < |feeds| ensures urls[|feeds| - 1 - i] == UrlItem(i, feeds[i].url, -1) {
      LineOfFeed(feeds[i]);
      assert Words(lines[i])[0] == feeds[i].url;
    }
  }

  lemma ListedOfFeeds(feeds: seq<Feed>, lines: seq<string>, tag: string, listed: seq<nat>)
    requires lines == FileLines(feeds) && forall i :: 0 <= i < |feeds| ==> IsFeed(feeds[i])
    requires forall i: nat :: multiset(listed)[i] == if i < |lines| then Carries(lines[i], tag) else 0
    ensures forall i: nat :: multiset(listed)[i] == if i < |feeds| then multiset(feeds[i].tags)[tag] else 0
  {
    forall i: nat ensures multiset(listed)[i] == if i < |feeds| then multiset(feeds[i].tags)[tag] else 0 {
      if i < |feeds| {
        LineOfFeed(feeds[i]);
      }
    }
  }

  lemma FileIsFeeds(feeds: seq<Feed>, lines: seq<string>)
    requires lines == FileLines(feeds) && forall i :: 0 <= i < |feeds| ==> IsFeed(feeds[i])
    ensures Admissible(Unlines(lines)) && NonEmptyLines(Unlines(lines)) == lines
    ensures AllTags(lines) == TagsOf(feeds)
  {
    forall i | 0 <= i < |feeds|
      ensures lines[i] != [] && '\n' !in lines[i] && '\0' !in lines[i] && LineTags(lines[i]) == feeds[i].tags
    {
      LineOfFeed(feeds[i]);
    }
    UnlinesAdmissible(lines);
    LinesOfUnlines(lines);
    NothingEmpty(lines);
  }
}
