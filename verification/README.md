# newsbaoter: the stateful cores

newsbaoter reads feeds in a terminal. A refresh cycle downloads a list of feeds in batches, every
document that arrives is merged into an SQLite cache, and the cache is shown one page at a time.
The list of feeds and the options are read line by line from text files, and tags and key bindings
live in small hash tables. This project models those parts and proves what they are for, over every
input, every run and every order of events. `dafny verify dfyconfig.toml` checks all of it.

| Part of the program | Files |
|---|---|
| hash table with tombstones, and its clients | `HashTable`, `KeyBindings`, `UrlIndex` |
| line reader and tokenizer | `LineReader`, `LineReading`, `LineWords` |
| batch fetch scheduler | `FetchRounds`, `FetchScheduler`, `FetchCycle`, `FetchRuns` |
| article cache and refreshes | `ArticleCache`, `FeedRefresh`, `RefreshOrder`, `CacheRuns` |
| scheduler and cache together | `CachedCycle` |
| paged lists and the cursor | `ScreenLines`, `ListPaging`, `ListCursor`, `ListToggle` |

Each part has the same layers: classes and methods that change arrays and fields as the C code
does, each with a contract that gives the new state as a function of the old one; functions that
say what that state is; lemmas about those functions; and a method that runs any sequence of calls
from the initial state (`RunTable`, `RunKeys`, `ReadAll`, `ParseAndLookUp`, `RunCycle`, `Run`,
`RunReports`, `RunCachedCycle`, `ReadFeedList`, `Browse`, `ReadWritten`, `WriteParseLookUp`), where the two meet.

What libcurl, libxml2, SQLite and ncurses do is a parameter: the outcome of each transfer, the order
in which transfers finish, the fields of a document, how many bytes each `read` delivers, the hash
function, and the order in which SQL returns groups.

## Where the code does less than it promises

The code is modelled as it is. These are the places where a promise fails, each with the exact
condition under which it holds:

- **Endless cycles.** A successful retry does not reset `n_httperr` (`src/httpfetch.c:178-184`), so a
  feed that failed once and then succeeds is selected again. A cycle is certain to end if and only
  if `dl_retries` is at most 1 (`EndsExactlyWhen`); for any value, the number of fetches is at most
  N * max(dl_retries, 1) plus the number of successful retries (`FetchesAreBounded`).
- **Files with an unusual end.** The newline added at `src/config.c:333-334` is not counted in
  `b_stored`. A file is read as its non-empty lines for every way of splitting it into `read`s if and
  only if it has no NUL and is empty or ends in a non-empty terminated line (`ReadAll`; every other
  file goes wrong when bytes arrive one at a time, a blank line at the end in `ReadBlankEnd`).
- **Separators in options.** The second pass of `copy_strarr` skips one character of a separator, not
  all of it. The copy is the list of words if and only if no two words are more than one blank apart
  (`CopiedExactlyWhen`, with "a  b" as the instance in `CopyKeepsSpareBlank`).
- **A table that never grows.** The test at `src/hash.c:112` runs after the slot was filled, so `cap`
  never rises and the branch at line 102 is never taken. With 32 live names, `find_hash` answers -1
  for any other name (`FindHash` gives the equivalence), and its callers would index the table with
  it; the state is therefore carried with `Admits` as a precondition. Eighteen binds besides the
  default keys are enough (`EighteenBindsFillTheTable`, and `LookUpInFullTable` in the code).
- **The help screen.** Its scan of `handler_names` stops at the first entry without a handler
  (`src/ui/keys.c:201`). Without a downloader, `unset_handler("download")` makes that the fifth
  entry, and only four of the fourteen operations are listed (`HelpIsCutByMissingDownloader`). That
  call is reached only if there is a configuration file (`src/config.c:417-448`); without one the
  handler stays and the list is complete.
- **Deletion.** `share/config.sample:57` says that unread articles are deleted; the statement deletes
  read ones (`src/sql/create.c:66`). The comment at `src/sql/cache.h:14` speaks of two cycles; since
  a new entry starts at 1, three absences in a row are needed (`DeletedExactlyWhen`). A negative
  retention makes the statement end in `--`, a comment, and the cutoff is then the present
  (`Cutoff`).
- **A cursor without a row.** Where only unread entries are listed, toggling an entry takes its row
  away. There are two ways to lose the cursor. If the entry was the last of the list and not alone on
  its page, the cursor stands on the blank line behind it (`ReadLastEntry`); next does not leave that
  line, every other move does (`MoveCursor`). If it was alone on its page, the list of feeds comes
  back; but if read feeds are hidden, this was its feed's last unread entry and the feed was alone on
  its page, that page is gone too, the answer of `request_list_update` is ignored
  (`src/ui/view.c:146-151`), and the entry stays on display as if it were a feed (`ReadLastFeed`). In
  all other cases, and only in those, the cursor is on a row (`ToggleRead`, with the condition in
  terms of the lists and tables before the toggle).
- **Narrow windows.** The first row of a page counts as a row if and only if the window has at least
  three columns (`FirstRowCountsExactlyWhen`); the cursor is proved for such windows.

## Model

| member | source | states |
|---|---|---|
| `HashTable.ProbeIgnoresWrap` | src/hash.c:62-63 | The 32-bit wrap of `i+k` does not change which slot is examined, because the size divides 2^32 |
| `HashTable.ProbeReaches` | src/hash.c:62-63 | Every slot is examined at some step of a full probe, from any home slot |
| `HashTable.FullIffThirtyTwo` | src/hash.c:57-79 | Every slot is live exactly when 32 names are stored; never more |
| `HashTable.VarTable.constructor` | src/hash.c:149-155 | A new table stores the empty map |
| `HashTable.VarTable.FindHash` | src/hash.c:57-79 | Finds the live slot of a stored name; for another name the first slot on its probe sequence that is not live; -1 exactly when the name is absent and all 32 slots are live |
| `HashTable.VarTable.NullEndsSearch` | src/hash.c:69-73 | A NULL slot on the probe sequence proves that the name is not stored, whatever was deleted before |
| `HashTable.SetKeepsWellFormed` | src/hash.c:107-115 | Filling the found slot keeps every live name unique and reachable without crossing a NULL slot, and stores exactly the updated map |
| `HashTable.UnsetKeepsWellFormed` | src/hash.c:124-129 | A tombstone keeps every other live name reachable and removes exactly one name from the map |
| `HashTable.VarTable.Set` | src/hash.c:98-116 | The stored map is updated at one name; the growth branch is unreachable and `cap` stays non-positive |
| `HashTable.VarTable.Unset` | src/hash.c:118-130 | The name is removed from the stored map; an absent name changes nothing |
| `HashTable.VarTable.Get` | src/hash.c:132-145 | The stored value, or NULL for a NULL or unknown name |
| `HashTable.VarTable.NextPair` | src/hash.c:81-96 | The first live slot at or after the offset, with the offset moved behind it; NULL exactly when there is none |
| `HashTable.LivePairsExact` | src/hash.c:81-96 | The live slots in table order are the stored map, each name once |
| `HashTable.MapHoldsLastSet` | src/hash.c:98-145 | After any sequence of calls, a map holds for a name the last value set and not unset since |
| `HashTable.RunTable` | src/hash.c:98-145 | For any hash function and any run within capacity, each `get` answers with the last value set for its name and not unset since |
| `KeyBindings.PrintThenParse` | src/ui/keys.c:150-157 | Reading back a number printed in hexadecimal gives the number |
| `KeyBindings.KeyNameRoundTrip` | src/ui/keys.c:200-204 | `%x` followed by `strtol` and the cast is the identity on all 32-bit key codes, negative ones included, and the name fits its buffer |
| `KeyBindings.KeyNameExamples` | src/ui/keys.c:150-157 | The printed names of three codes, one of them negative |
| `KeyBindings.AdmitsKey` | src/ui/keys.c:168-179 | The table has room for a key exactly when the key is bound or fewer than 32 keys are |
| `KeyBindings.KeyMap.constructor` | src/ui/keys.c:247-254 | The bindings are the default keys |
| `KeyBindings.DefaultKeysDo` | src/ui/keys.c:89-107 | Which character each operation is bound to by default |
| `KeyBindings.KeyMap.BindKey` | src/ui/keys.c:150-157 | Exactly one key changes its handler |
| `KeyBindings.KeyMap.UnbindKey` | src/ui/keys.c:159-166 | Exactly one key loses its handler |
| `KeyBindings.KeyMap.ProcessKey` | src/ui/keys.c:168-179 | Dispatches to the handler bound to the key, or to none |
| `KeyBindings.KeysHoldLastBound` | src/ui/keys.c:150-166 | After any calls the handler of a key is the last one bound to it and not unbound since |
| `KeyBindings.RunKeys` | src/ui/keys.c:150-179 | In any run after `bind_defaults` within capacity, each key press dispatches to the last handler bound to its key and not unbound since, for any hash function |
| `KeyBindings.Walk` | src/ui/keys.c:231-243 | The loop over `next_uikey_pair` from offset 0 meets the live slots in table order and then stops |
| `KeyBindings.KeyMap.Bindings` | src/ui/keys.c:231-243 | That loop meets every binding, with its key code read back, exactly once and nothing else |
| `KeyBindings.KeyMap.FootHelpKeys` | src/ui/keys.c:221-245 | The footer shows a key bound to exit and a key bound to help, and a blank exactly if there is none |
| `KeyBindings.KeyMap.HelpLines` | src/ui/keys.c:200-209 | The help screen has exactly one line for each binding whose handler the scan of the names reaches, at increasing places of the table, and no other line |
| `KeyBindings.ListedAt` | src/ui/keys.c:201-208 | The scan finds a handler unless an empty entry comes first |
| `KeyBindings.UnsetHandlerAt` | src/ui/keys.c:142-148 | Every entry of the name, and no other, loses its handler |
| `KeyBindings.HelpNames` | src/ui/keys.c:114-130 | The name under which each operation is listed |
| `KeyBindings.HelpIsCutByMissingDownloader` | src/ui/keys.c:201-208 | With a downloader every operation can be listed; without one exactly exit, next, prev and select |
| `KeyBindings.EighteenBindsFillTheTable` | src/hash.c:118-145 | A reachable run within capacity after which looking up any unbound key is outside it |
| `KeyBindings.LookUpInFullTable` | src/hash.c:132-145 | In that state `find_hash` answers -1 for exactly the unbound keys, for any hash function |
| `LineWords.SplitOfCompose` | src/config.c:352-374 | A line written as blank-free words between non-empty runs of blanks is split into those words and runs |
| `LineWords.ComposeOfSplit` | src/config.c:352-374 | Words and separators found in a line, written out again, are the line, and form such a split |
| `LineWords.WordsExact` | src/config.c:352-374 | A list of words is the result of splitting a line if and only if the line can be written as a split with these words |
| `LineWords.EmptyWords` | src/config.c:352-374 | The first word is empty exactly when the line starts with a blank; no other word is |
| `LineWords.SeparatorsExactly` | src/config.c:359-366 | A character separates words if and only if it is a space or a tab |
| `LineWords.SplitOfJoin` | src/config.c:352-374 | Splitting the single-blank join of non-empty blank-free words returns them |
| `LineWords.GetLineWord` | src/config.c:352-374 | Returns the first word in place and where the rest begins; one NUL is written, inside the line; at the end of the line or for a NULL buffer the answer is NULL and nothing is written |
| `LineWords.CutWord` | src/config.c:369-373 | The NUL leaves the word and the rest of the line as two strings |
| `LineWords.CountWords` | src/config.c:57-59 | The first pass counts the words and leaves the line with every word cut off and nothing else changed |
| `LineWords.CopyString` | src/config.c:67-68 | `strdup` and the walk to the next NUL |
| `LineWords.CopyPieces` | src/config.c:64-69 | The second pass, walking over the NULs of the first, copies one piece per word |
| `LineWords.CopiedPiece` | src/config.c:64-69 | Piece i is word i preceded by its separator without the first blank; there are as many pieces as words |
| `LineWords.CopiedExactlyWhen` | src/config.c:49-75 | The copy is the list of words if and only if every separator between words is one blank |
| `LineWords.CopyKeepsSpareBlank` | src/config.c:49-75 | "a  b" is copied as "a" and " b" |
| `LineWords.CopyStrArr` | src/config.c:49-75 | Fails exactly on an empty line; otherwise as many strings as words, in order, each its word behind the separator without the first blank, and then NULL |
| `LineReader.InputFile.Read` | src/config.c:328-328 | `read` delivers the next bytes of the file, any number it likes, and 0 only at the end or for a request of none |
| `LineReader.ConfRead.MoveBuf` | src/config.c:278-283 | The pending bytes move to the front, and the returned part ends at the offset |
| `LineReader.LineScanStops` | src/config.c:291-295 | The two scans stop at the start and the end of the first non-empty line, and there is a terminated one exactly if the second stops early |
| `LineReader.ConfRead.TakeLine` | src/config.c:295-299 | The line stands at the front as a C string and exactly the bytes behind its newline stay pending |
| `LineReader.ConfRead.CheckForLine` | src/config.c:285-304 | Finds a line exactly if a non-empty terminated one is pending, and takes it; otherwise only leading newlines are dropped |
| `LineReader.PendingLines` | src/config.c:316-341 | Looking at the pending bytes alone finds the first line of pending and unread bytes together; dropping leading newlines loses nothing |
| `LineReader.ConfRead.Fill` | src/config.c:328-340 | Between reads the buffer is never full, so `read` answers 0 exactly at the end of the file; no byte is lost or moved when the buffer grows |
| `LineReader.ConfRead.FillUntilLine` | src/config.c:327-341 | The loop ends with the first line at the front, or at the end of a file without one |
| `LineReader.ConfRead.ReadConfigLine` | src/config.c:307-350 | Returns the first non-empty terminated line of what is pending and unread, for every way of splitting, and keeps the rest; without such a line, answers 1 once more exactly if something other than newlines already buffered is left |
| `LineReading.LinesAreNonEmptyLines` | src/config.c:285-304 | The lines found are the non-empty pieces between newlines, without an unterminated last one |
| `LineReading.NothingLeftExactlyWhen` | src/config.c:333-349 | Nothing is left behind the last line exactly if the file is empty or ends in a non-empty terminated line |
| `LineReading.CollectedExactly` | src/config.c:307-350 | A stray line or a NUL makes what a client collects differ from the lines of the file, and nothing else does |
| `LineReading.ReadOne` | src/config.c:307-350 | One turn of a client's loop adds the next line, or ends |
| `LineReading.ReadAll` | src/config.c:307-350 | An admissible file gives exactly its non-empty lines in order and then 0, however it is split; any other file gives something else when it comes byte by byte |
| `LineReading.ReadWritten` | src/config.c:307-350 | Lines that are not empty and hold neither newline nor NUL, written with a newline each, are read back as they were, however the file is split |
| `LineReading.ReadBlankEnd` | src/config.c:333-349 | The file "a", newline, newline, arriving byte by byte, is not read as its one line |
| `UrlIndex.AddTagsTo` | src/urlparse.c:44-56 | The tags of a line put its item in front of each tag's list as often as the line carries the tag |
| `UrlIndex.ListedAsOftenAsCarried` | src/urlparse.c:44-56 | The list of a tag holds exactly the items whose lines carry it, with multiplicity |
| `UrlIndex.ListedFromLastToFirst` | src/urlparse.c:44-56 | The list of a tag runs from the last line that carries it to the first |
| `UrlIndex.IndexedTags` | src/urlparse.c:44-56 | The index has exactly the tags of the file; any other tag gives NULL |
| `UrlIndex.AddOneTag` | src/urlparse.c:45-55 | One item is put in front of one tag's list |
| `UrlIndex.IndexTags` | src/urlparse.c:44-56 | The inner loop indexes every further word of the line and changes no byte behind the line |
| `UrlIndex.IndexCurrent` | src/urlparse.c:35-56 | Tokenizing the current line leaves the lines still in the buffer unread and unchanged |
| `UrlIndex.NextLine` | src/urlparse.c:34-37 | In an admissible file the loop ends exactly after the last line |
| `UrlIndex.UrlParse` | src/urlparse.c:15-64 | The feeds are the first words of the lines in reverse file order, untried, and the tag table stores exactly the index of the file, for any hash function and any splitting |
| `UrlIndex.ParseAndLookUp` | src/urlparse.c:15-64 | After `urlparse`, looking up any tag gives the items whose lines carry it, with multiplicity, from the last line to the first |
| `UrlIndex.WriteParseLookUp` | src/urlparse.c:15-64 | Feeds written one per line with their tags come back in reverse order with their addresses, and a tag lists exactly the feeds written with it, with multiplicity, from last to first |
| `FetchRounds.SelectedExact` | src/httpfetch.c:202-248 | A batch is the first min(npara, count) eligible feeds in list order without repetition, and is empty exactly when none is eligible |
| `FetchScheduler.HttpData.constructor` | src/httpfetch.c:91-98 | No cycle is running |
| `FetchScheduler.HttpData.FetchInit` | src/httpfetch.c:108-128 | Every feed is untried and no new entry is known, for any setting; without a positive one `npara` stays and there is room for five |
| `FetchScheduler.HttpData.Advance` | src/httpfetch.c:212-223 | Stops at the next eligible feed, marks it tried if it was not, and skips only feeds that are not eligible |
| `FetchScheduler.HttpData.LoadNewHandles` | src/httpfetch.c:202-257 | The rescan from the head loads exactly the batch and ends the cycle if it is empty |
| `FetchScheduler.HttpData.Report` | src/httpfetch.c:163-184 | What one outcome does to its feed's counter and to the new-entry flag |
| `FetchScheduler.SettleOne` | src/httpfetch.c:151-189 | A report changes its own feed alone, whichever have reported before |
| `FetchScheduler.HttpData.FinishBatch` | src/httpfetch.c:145-196 | For every order of reports the counters end up the same, and the flag is the OR of all results |
| `FetchScheduler.HttpData.HandleUrls` | src/httpfetch.c:259-273 | -1 exactly while some feed is eligible; otherwise the OR of all new-entry results of the cycle |
| `FetchCycle.CounterIsHistory` | src/httpfetch.c:163-223 | In every run a counter is determined by its own feed's outcomes, and every fetch but the first was a retry of an eligible feed |
| `FetchCycle.CounterCountsFailures` | src/httpfetch.c:163-184 | Without a hard error the counter is the number of soft failures, never above max(R,1); a hard error is the feed's last fetch |
| `FetchCycle.SoftFailuresByPlace` | src/httpfetch.c:163-183 | Soft failures are the timeouts and parse failures of a history |
| `FetchCycle.RetriesByPlace` | src/httpfetch.c:178-184 | Successful retries are the successes behind the first fetch |
| `FetchCycle.FetchesBounded` | src/httpfetch.c:163-223 | A feed's fetches plus its remaining weight are at most max(R,1) plus its successful retries; one fetch at most if R <= 1 |
| `FetchCycle.DoneExactlyWhen` | src/httpfetch.c:163-223 | A tried feed is done with exactly if its first fetch succeeded, its last failed hard, or it failed softly R times |
| `FetchCycle.CycleOverExactlyWhen` | src/httpfetch.c:250-273 | A cycle is over exactly when every feed was tried and is done with |
| `FetchCycle.RoundLowersMeasure` | src/httpfetch.c:145-257 | No batch increases the summed weights, and each fetch other than a successful retry lowers the sum by at least one |
| `FetchCycle.RoundLowersWeight` | src/httpfetch.c:163-223 | Feed by feed, a fetch lowers the weight, except that a successful retry leaves the counter as it is |
| `FetchCycle.FetchesAreBounded` | src/httpfetch.c:145-273 | A run has at most N*max(R,1) fetches plus its successful retries, and no more batches than fetches |
| `FetchCycle.OneAttemptInListOrder` | src/httpfetch.c:202-257 | With R <= 1 the batches take the feeds in list order, npara at a time |
| `FetchCycle.OnceEach` | src/httpfetch.c:202-273 | With R <= 1 a cycle has exactly ceil(N/npara) batches and fetches every feed exactly once |
| `FetchCycle.EndlessRun` | src/httpfetch.c:178-184 | With R >= 2 there are runs of any length: one timeout, then successes |
| `FetchCycle.EndsExactlyWhen` | src/httpfetch.c:145-273 | A cycle ends whatever the outcomes if and only if R <= 1 |
| `FetchRuns.RunCycle` | src/httpfetch.c:259-273 | In every run from the start of a cycle and for every order of reports, `handle_urls` answers -1 until every feed was tried and is done with, and then whether any fetch of the cycle brought a new entry |
| `ArticleCache.FeedUpsertKeeps` | src/sql/create.c:78-85 | Replacing a feed row under its old id, or a fresh one, changes one feed and keeps all keys unique |
| `ArticleCache.EntryUpsertKeeps` | src/sql/create.c:97-116 | The same for an entry row |
| `ArticleCache.DataChangeKeeps` | src/sql/create.c:57-59 | An UPDATE restricted to one FeedID is the change of the entries under that feed's URL and of no other |
| `ArticleCache.DeleteKeeps` | src/sql/create.c:62-69 | A DELETE restricted to one FeedID removes the deletable entries under that URL and keeps all keys unique |
| `ArticleCache.AgedIs` | src/sql/create.c:53-60 | Ageing takes 1 from `Current` of the feed's entries and changes nothing else |
| `ArticleCache.EntryUpsertedIs` | src/sql/create.c:97-116 | The upsert sets `Current` to 1, keeps a known `Viewed`, replaces the other columns, and leaves other entries alone |
| `ArticleCache.CleanedIs` | src/sql/create.c:62-69 | Exactly those entries of the feed go that are at -2 or below, read, and published more than the retention time ago |
| `ArticleCache.NothingUnreadAfterCatchUp` | src/sql/create.c:156-166 | After a catch-up nothing is unread in the feed, or in all feeds, and the rest is as unread as before |
| `ArticleCache.CatchUpKeepsTheRest` | src/sql/create.c:156-166 | A catch-up sets `Viewed` of these entries to 1 and changes nothing else |
| `ArticleCache.ToggledFlipsUnread` | src/sql/create.c:146-154 | A toggle makes an unread entry read and a read one unread, and changes nothing else |
| `ArticleCache.Cache.constructor` | src/sql/create.c:19-50 | The tables are empty |
| `ArticleCache.Cache.KeysAreUnique` | src/sql/create.c:71-120 | Feed URLs and (FeedID, UniqueId) pairs are unique and every entry's feed exists |
| `ArticleCache.Cache.UpdateFeed` | src/sql/create.c:71-86 | One feed is stored; a known URL keeps its FeedID; the answer is its id |
| `ArticleCache.Cache.InitCleanup` | src/sql/create.c:53-60 | The feed's entries, and no others, get one older |
| `ArticleCache.Cache.UpdateEntry` | src/sql/create.c:88-120 | One entry is stored as current; a known one keeps its EntryID and `Viewed`; all others keep theirs |
| `ArticleCache.Cache.CleanupOld` | src/sql/create.c:62-69 | Exactly the feed's entries at -2 or below are deleted that are read and published before now minus retention, or before now for a negative retention; the others keep their ids |
| `ArticleCache.Cache.ToggleReadEntry` | src/sql/create.c:146-154 | `Viewed` of one entry is flipped or set; an unknown id changes nothing |
| `ArticleCache.Cache.ReadFeed` | src/sql/create.c:156-166 | The entries of one feed, or of all for 0, are no longer unread; all others are as unread as before, and nothing else changes |
| `ArticleCache.Cache.GetNumUnread` | src/sql/viewio.c:346-350 | The number of unread entries |
| `FeedRefresh.UpsertsAt` | src/xmlproc.c:501-505 | After all upserts an entry in the document has the payload of its last occurrence and its old `Viewed`; any other is unchanged |
| `FeedRefresh.RefreshAt` | src/xmlproc.c:496-531 | A refresh treats entries independently: other feeds untouched, present entries current with `Viewed` kept, absent ones one older or deleted |
| `FeedRefresh.UnreadAfterRefresh` | src/xmlproc.c:512-531 | The unread entries after a refresh are those before and the new ones, so the count grows by the number of new UniqueIds |
| `FeedRefresh.UidsAre` | src/xmlproc.c:472-475 | The UniqueIds of a document are those it gives, and a made-up one for each entry without |
| `FeedRefresh.PresentEntryIsStored` | src/xmlproc.c:446-494 | After a refresh each UniqueId of the document has a row, with all columns from its last occurrence: dates, title with its fallbacks, texts; `Viewed` kept, `Current` 1 |
| `FeedRefresh.AbsentEntryAges` | src/xmlproc.c:496-510 | Any other entry of the feed gets one older with all else kept, or goes at its third absence if read and too old; other feeds stay as they are |
| `FeedRefresh.KnownUidsAreNotNew` | src/xmlproc.c:512-531 | Refreshing with UniqueIds given before brings nothing new, whatever would be made up |
| `FeedRefresh.RefreshTwice` | src/xmlproc.c:512-531 | The second of two refreshes with the same given UniqueIds reports nothing; the first reports exactly a UniqueId without a row |
| `FeedRefresh.UpdateEntry` | src/xmlproc.c:446-494 | The entry is stored under the UniqueId it gives, or a made-up one, with dates and title taken from the fields in the order of the code; a known row keeps `Viewed` and its id |
| `FeedRefresh.UpdateEntries` | src/xmlproc.c:496-510 | Ageing, upserts in document order and deletion; surviving entries keep their ids |
| `FeedRefresh.UpdateCache` | src/xmlproc.c:512-531 | Reports 1 exactly when the document has a UniqueId without a row; known feeds and entries keep their row ids; without a root element nothing changes |
| `RefreshOrder.AllRefreshedAt` | src/xmlproc.c:496-531 | After several refreshes an entry depends only on the one of its own feed |
| `RefreshOrder.AnyNewEntryIs` | src/httpfetch.c:184-184 | Some refresh reports a new entry exactly when some document has an entry unknown at the start |
| `RefreshOrder.OrderIsIrrelevant` | src/httpfetch.c:151-189 | Refreshes of distinct feeds give the same rows and the same flag in every order |
| `RefreshOrder.RefreshInOrder` | src/xmlproc.c:512-531 | Refreshes one after the other leave the rows of their composition, and the OR of their reports is 1 exactly if one of them stored an entry for the first time |
| `CacheRuns.CurrentCountsAbsences` | src/sql/create.c:53-120 | In every reachable state `Current` is 1 minus the latest consecutive absences, `Viewed` is 0 or 1, and the entry's feed is stored |
| `CacheRuns.AbsencesAre` | src/sql/create.c:53-120 | These absences are the latest refreshes without the entry, up to one that has it |
| `CacheRuns.DeletedExactlyWhen` | src/sql/create.c:62-69 | An entry goes exactly by a refresh of its feed that makes three absences in a row, if it is read and PubDate + retention < now (PubDate < now for a negative retention) |
| `CacheRuns.StoredExactlyWhen` | src/sql/create.c:88-120 | An entry appears exactly by a refresh of its feed whose document has it |
| `CacheRuns.Perform` | src/sql/create.c:53-166 | Each call on the tables does to the rows what its step says |
| `CacheRuns.Run` | src/sql/create.c:53-166 | Every run from an empty database reaches exactly the rows its steps say, with unique keys, existing feeds and boolean `Viewed` |
| `CacheRuns.RunReports` | src/xmlproc.c:512-531 | In every run from an empty database each call reports a new entry exactly when its document has one unknown so far, and the final unread count is that of the rows |
| `CacheRuns.UnreadAfterStep` | src/sql/create.c:53-166 | Exactly which entries are unread after each call: a refresh adds the new ones, a toggle flips one, a mark or a catch-up removes those it names |
| `CacheRuns.CountAfterCatchUp` | src/sql/create.c:156-166 | Counting after a catch-up gives 0 for all feeds, and the unread entries of the other feeds for one |
| `CacheRuns.ToggleTwice` | src/sql/create.c:146-154 | Two toggles of an entry move the unread count by one and back |
| `CachedCycle.AnyOrderSameRows` | src/httpfetch.c:151-189 | The documents of a batch leave the same rows in every order of reports |
| `CachedCycle.ReportsAtStart` | src/httpfetch.c:178-184 | In any order, a slot reports a new entry exactly if its document has one unknown before the batch |
| `CachedCycle.DeliverBatch` | src/httpfetch.c:151-189 | Over the slots of a batch, rows and outcomes are those of the slot order, whatever the order of reports; late transfers time out, unparsed ones fail to parse, broken ones fail hard |
| `CachedCycle.SlotRows` | src/httpfetch.c:163-184 | Within a batch a document refreshes exactly the entries of its own feed, and a late, broken or unparsed transfer changes no entry |
| `CachedCycle.SlotCounter` | src/httpfetch.c:163-184 | Behind a batch a feed's counter is one more after a late or unparsed transfer, R after a broken one, and unchanged after a document |
| `CachedCycle.BrokenIsLast` | src/httpfetch.c:170-173 | A feed whose transfer broke is in no later batch of the cycle |
| `CachedCycle.UnreadAfterBatch` | src/httpfetch.c:184-184 | A batch raises the unread count exactly if one of its outcomes carries a new entry, and never lowers it |
| `CachedCycle.FinishBatchInCache` | src/httpfetch.c:259-273 | One call of `handle_urls` on the batch in flight refreshes the feeds of that batch and counts its failures |
| `CachedCycle.CycleAnswersAt` | src/httpfetch.c:259-273 | Each answer depends on the batches so far and on no order of reports |
| `CachedCycle.RunCachedCycle` | src/httpfetch.c:145-273 | For a whole cycle over different addresses, feeds refreshed again in later batches included, the final rows and all answers are the same for every order of reports in each batch; the last answer is 1 exactly if the unread count rose over the cycle |
| `ListPaging.PagesCoverList` | src/sql/viewio.c:107-139 | The pages put together are the list, without gap or repetition |
| `ListPaging.RowsAreCounted` | src/ui/view.c:395-399 | In a window of three columns or more, the lines that `print_crop` counts are exactly the rows of the page |
| `ListPaging.ShownRowReads` | src/sql/viewio.c:71-98 | Line i of the display is seen as number i + 1 with the title of row i, if it fits |
| `ListPaging.FeedWindow` | src/sql/viewio.c:113-121 | The two adjustments by one select the window of the list with the unread row in front |
| `ListPaging.WriteFeedLines` | src/sql/viewio.c:107-139 | The display shows that window; "end" exactly if it is empty, and then nothing is written |
| `ListPaging.WriteEntryLines` | src/sql/viewio.c:182-217 | The same for the entries of a feed |
| `ListPaging.FeedCountsUnread` | src/sql/viewio.c:57-69 | COUNT minus SUM of `Viewed` is the feed's number of unread entries, with or without the read ones in the join |
| `ListPaging.UnreadRowIsSum` | src/sql/viewio.c:113-123 | The counts of all feed rows add up to the count in the row of unread articles, for either setting of `show_read_feeds` |
| `ListPaging.ReadAllPages` | src/sql/viewio.c:107-139 | Turning pages until the end is reported shows every row of the list once, in order |
| `ListPaging.ReadFeedList` | src/sql/viewio.c:57-139 | Over all pages on display, the count in the first row is the sum of the counts in all other rows and the number of unread entries |
| `ScreenLines.PrintCrop` | src/ui/view.c:348-371 | Pads a line with blanks in place; it counts as a row unless empty or blank over the whole width |
| `ScreenLines.PrintedAgain` | src/ui/view.c:348-371 | Printing a padded line again gives the same text; a cleared line stays uncounted and a line with any other character counted |
| `ScreenLines.OverwrittenText` | src/ui/view.c:336-346 | A text written over an old one is read back, as far as it fits, whatever stood there |
| `ScreenLines.RowCounts` | src/sql/viewio.c:71-72 | Every row has a visible character within the first three columns, whatever its title |
| `ScreenLines.RowTextReads` | src/sql/viewio.c:71-72 | The text of row i is the number i + 1 right-aligned to three characters, two blanks, and the title |
| `ScreenLines.FirstRowCountsExactlyWhen` | src/sql/viewio.c:71-72 | The first row of a page counts if and only if the window has three columns |
| `ListCursor.NextsGoDown` | src/ui/view.c:97-114 | Pressing next k times goes to min(a+k, N-1) across all page boundaries |
| `ListCursor.PrevsGoUp` | src/ui/view.c:131-144 | Pressing prev k times goes to max(a-k, 0) |
| `ListCursor.PageMoves` | src/ui/view.c:76-144 | Low and then next turn the page forward, high and then previous turn it back, and mid is half-way between high and low |
| `ListCursor.TopOf` | src/sql/viewio.c:260-260 | The top row of a page can be computed from the index under the cursor alone, so page number and cursor carry no more than that index |
| `ListCursor.MainWindow.RequestListUpdate` | src/sql/viewio.c:256-275 | The display shows the current page, or the page is empty and nothing is written |
| `ListCursor.MainWindow.UpdateView` | src/ui/view.c:395-399 | Every line is printed through `print_crop`, and `content_bw_max` becomes the last line that counts, or stays if none does |
| `ListCursor.LastRowIsLastCounted` | src/ui/view.c:395-399 | The last line that counts is the last row of the page |
| `ListCursor.RepaintedShows` | src/ui/view.c:395-399 | Printing in place changes nothing that the user sees, and no line starts or stops being a row |
| `ListCursor.MainWindow.ShowPage` | src/ui/view.c:373-402 | On a page with rows `content_bw_max` is its last row |
| `ListCursor.MainWindow.LowItem` | src/ui/view.c:76-81 | The cursor goes to the last row of the page |
| `ListCursor.MainWindow.MidItem` | src/ui/view.c:83-88 | The cursor goes to the middle row |
| `ListCursor.MainWindow.NextItem` | src/ui/view.c:97-114 | The index into the list grows by one, except on the last row; a failed page turn is undone, display included |
| `ListCursor.MainWindow.PrevItem` | src/ui/view.c:131-144 | The index shrinks by one, except on the first row |
| `ListCursor.MainWindow.MoveCursor` | src/ui/view.c:76-144 | Each move key follows the index into the whole list; from the blank line behind the list every move but next leads back to a row |
| `ListCursor.MainWindow.MoveAll` | src/ui/view.c:76-144 | Any sequence of moves follows one index into the whole list, and the display always holds its page |
| `ListCursor.MainWindow.SelectItem` | src/ui/view.c:153-167 | A feed with entries is entered at its first page and the feed position saved; one without leaves context, page, cursor and display as they were |
| `ListCursor.MainWindow.ContextExit` | src/ui/view.c:237-248 | Leaves a feed to the saved page and cursor of the list of feeds, with the display unchanged if that page is gone and the cursor on a row exactly if the saved row is still there; leaves the list of feeds to the shell |
| `ListCursor.MainWindow.Relist` | src/ui/view.c:168-173 | After any change of rows the same page is shown with the cursor where it was; if it is gone, the saved page of the list of feeds; if that is gone too, the old display in the context of the list of feeds |
| `ListCursor.MainWindow.ChangeRows` | src/ui/view.c:168-173 | The same followed by `update_view`, in all three cases |
| `ListCursor.MainWindow.ViewToFeeds` | src/ui/view.c:146-151 | The saved page of the list of feeds comes back, or the display stays as it was if there is no such page |
| `ListCursor.MainWindow.LoseRow` | src/ui/view.c:218-229 | When a row leaves the list, the cursor is on a row exactly if that row was not the last, or was alone on its page while the saved page of the list of feeds still has rows; the remaining states are described too |
| `ListToggle.SelectedAfterToggle` | src/sql/viewio.c:187-191 | Toggling a listed entry takes it off a list of unread entries and leaves any other list as it is |
| `ListToggle.GroupedAfterToggle` | src/sql/viewio.c:121-121 | The list of feeds loses one row exactly if read feeds are hidden and this was the feed's last unread entry |
| `ListToggle.ToggleRead` | src/ui/view.c:218-229 | On the tables: the cursor is on a row afterwards if and only if read entries stay listed, or the row was not the last of the list, or it was alone on its page and the saved page of feeds still has a row, counted before the toggle |
| `ListToggle.ReadLastEntry` | src/ui/view.c:218-229 | The first failure: reading the second of two entries leaves the cursor behind the list |
| `ListToggle.ReadLastFeed` | src/ui/view.c:146-151 | The second failure: reading the only entry of the only feed of a page leaves that entry on display in the list of feeds |
| `ListCursor.Browse` | src/ui/view.c:76-248 | A session of moves and visits to feeds ends on the row that the moves in the list of feeds alone lead to, with its page on display |
| `ListCursor.MainWindow.Excursion` | src/ui/view.c:146-248 | Entering a feed, any moves and leaving restore the feed list's page, cursor and rows |

## Left out

- HashTable.VarTable.Set: requires a stored name or a free slot; at 32 live names the C code would index the table with -1, which is not given a meaning. `grow_hash` is not modelled because it is unreachable. The mixing steps of `hash_func` are not modelled; any function of the name may take its place.
- UrlIndex.UrlParse: requires an admissible file and at most 32 distinct tags, for the reasons given above. The URL file that cannot be opened, and the `exit` it leads to, are not modelled.
- UrlIndex.ParseAndLookUp: the same files; a tag that is looked up but not in the file counts among the 32.
- LineReader.ConfRead.ReadConfigLine: a `read` that fails, and the `exit` it leads to, are not modelled; sizes are unbounded integers.
- LineReader.InputFile.Read: a file that grows while it is read is not modelled.
- FetchScheduler.HttpData.HandleUrls: requires a non-empty feed list, `parallel_reload` of at least 1 and a non-negative `dl_retries`. Matching a curl message to its slot, messages other than CURLMSG_DONE, and options of a transfer are reduced to one outcome per slot. `doc` pointers and their release are not modelled.
- FeedRefresh.UpdateEntry: dates are the seconds that `strftime` prints; parsing them is not modelled. A made-up UniqueId is a parameter and may even clash with a known one. A title made from another field keeps its first 49 characters; bytes and characters are not told apart.
- ArticleCache.Cache.UpdateFeed: a new row may get any positive id that is not in use; SQLite's own choice, its errors and `exit(2)`, and the query buffers are not modelled. The same holds for `UpdateEntry`.
- RefreshOrder.OrderIsIrrelevant: requires the refreshed feeds to have distinct URLs and fixes each one's `now`; with the same URL twice the last document wins. The same holds for `RunCachedCycle`, where the documents of a batch reach the cache before its outcomes reach the counters.
- ListPaging.WriteFeedLines: the order in which SQL returns groups is a parameter and stays the same while pages are turned. The text of a row is its number and an arbitrary title; how a title is put together, colours and the page title are not modelled, and each line has a buffer of its own.
- ListCursor.MainWindow.UpdateView: requires nothing of the window, but the results about pages ask for three columns. Resizing is not modelled, nor is the printing of the line under the cursor after a move, which by `RepaintedShows` changes nothing that is seen.
- ListCursor.MainWindow.SelectItem: covers the list of feeds. In a list of entries the function pipes the article to a pager and marks it read; `ChangeRows` covers what the list does then, for any new rows.
- ListCursor.MainWindow.ChangeRows: `catchup_feed` in the list of feeds itself is not modelled.
- ListCursor.MainWindow.MoveAll: the data set is fixed between moves.
- The XSL stylesheets, `get_spec_sheet`, the XML parser and the code under `#if 0` in `src/xmlproc.c`.
- Curses windows, colours, wide-character conversion, pagers, downloaders, timers, signals and `select`.
- The option table of `src/config.c`, `copy_int` and the other single-value readers, `set_nbcolor`: easy look-ups.
- `next_unread_item` and `cache_next_unread`, which are unfinished in the program.
