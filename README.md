# spotlight: a verified model of the file indexer's core

spotlight is a desktop file search tool. A crawler walks the file system
from a root directory. For every file it records the name, the absolute
path, the extension and a set of lower-case tokens. The records go to a
SQLite database in batches of 1000, and the names also go to an in-memory
prefix trie. The trie can be saved to a file and loaded back. The client
asks the trie or the database's full-text index for names that start with
what the user typed.

This project models that core in Dafny and proves properties of it:

- `TrieNodes`, `TrieEdit`, `TrieCollect`, `TrieBfs`, `TrieSnapshot` and `Trie`
  model `src/common/trie.cpp`. The trie is a value tree
  `Node(isLeaf, info, children: map<char, Node>)` held in the field `root`
  of the class `TrieSearch`. Its meaning is the map `Contents(root)` from
  each stored name to its `FileInfo`. The traversals over the children of a
  node (an `std::unordered_map`) take their iteration order as a parameter
  `ord`. The snapshot format is modelled byte for byte.
- `Tokenizer` models `tokenize`. `Paths` models `slice_after_last`, the path
  join of the directory iterator, and both revisions of `is_ignorable`.
- `DirWalk` models the stack traversal that both crawlers share, over a
  directory tree given as a value. `Crawler` models the current
  `FileSystemCrawler` (`crawl`, `process_files`). `IndexerCrawler` models the
  earlier one in `src/indexer/`, which only prints what it meets.
- `SqliteStore` models `SQLiteWrapper` over an abstract database. The
  database holds a catalog of schema objects, the rows of `index_table`
  keyed by `fileid`, the token text of `fts_index` keyed by `fileid`, and the
  highest id handed out so far. Of the engine's behaviour the model fixes:
  the UNIQUE constraint on `absolute_path` (`InsertRow` fails on a known
  path), the AUTOINCREMENT on `fileid` (each new id is one above the last one
  handed out), `CREATE TABLE IF NOT EXISTS` (`CreateIfMissing` adds a missing
  table and leaves an existing one), the catalog query of `check_tables`
  (`CountWanted` counts the objects named `index_table` or `fts_index`), and
  `LIMIT ? OFFSET ?` (`Page`: a negative offset counts as 0, a negative limit
  as no limit). Full-text matching itself is a parameter.

## Model

| member | source | states |
|---|---|---|
| TrieNodes.GetChildFind | src/common/trie.cpp:48-53 | get_child is one step of the walk: its node is `Find(n, [c])`, storing exactly the keys of `n` that start with `c`, minus the `c`; with no child no such key is stored |
| TrieNodes.AddChildContents | src/common/trie.cpp:55-60 | add_child never changes what the node stores, and afterwards the walk along `c` reaches the child it returned |
| Trie.TrieSearch.constructor | src/common/trie.cpp:66-68 | a new trie is one empty, non-leaf root and stores nothing |
| Trie.TrieSearch.Descend | src/common/trie.cpp:85-96 | the loop that follows the characters of a key reaches the node `Find` gives, or none |
| Trie.TrieSearch.Insert | src/common/trie.cpp:74-83 | afterwards the trie maps `filename` to the new record and every other name as before; the pruned shape is kept |
| TrieEdit.InsertAt | src/common/trie.cpp:74-83 | the tree insert leaves: its lookups are given by InsertLookup, its contents by InsertContents, and its shape by InsertKeepsChildren and InsertPruned |
| TrieEdit.InsertLookup | src/common/trie.cpp:74-83 | after an insert, looking up the inserted key gives the new record and every other key gives what it gave before |
| TrieEdit.InsertContents | src/common/trie.cpp:74-83 | insert is a map update of the trie's contents |
| TrieEdit.InsertKeepsChildren | src/common/trie.cpp:74-83 | insert only marks the node of the key as a leaf; that node's children stay |
| TrieEdit.InsertPruned | src/common/trie.cpp:74-83 | insert keeps the invariant that every non-root childless node is a leaf |
| Trie.TrieSearch.Search | src/common/trie.cpp:85-96 | true exactly when the name is stored |
| TrieEdit.RemoveAt | src/common/trie.cpp:166-189 | remove_helper's answer and the tree it leaves: characterised by RemoveAbsent, RemoveErase, RemoveLookup, RemoveContents, RemoveOffPath and RemovePruned |
| TrieEdit.RemoveAbsent | src/common/trie.cpp:166-189 | removing a name that is not stored changes nothing and returns false |
| TrieEdit.RemoveErase | src/common/trie.cpp:166-189 | the flag is true exactly when the name was stored and the root ends childless and not a leaf |
| TrieEdit.RemoveLookup | src/common/trie.cpp:166-189 | after a remove, the removed key finds nothing and every other key finds what it found before |
| TrieEdit.RemoveContents | src/common/trie.cpp:166-189 | remove takes the key out of the contents and leaves the rest |
| TrieEdit.RemoveOffPath | src/common/trie.cpp:166-189 | subtrees off the removed key's path are left untouched |
| TrieEdit.RemovePruned | src/common/trie.cpp:166-189 | remove keeps the pruned invariant: childless non-leaf nodes are deleted on the way back up |
| TrieEdit.RemoveResult | src/common/trie.cpp:162-189 | on a pruned trie, remove returns true exactly when the name was stored and the trie is now empty |
| Trie.TrieSearch.Remove | src/common/trie.cpp:162-189 | the new contents are the old ones without `filename`; the flag as in RemoveResult |
| TrieCollect.MatchesContents | src/common/trie.cpp:98-112 | a pair is a match of `prefix` exactly when the name is stored with that record and starts with `prefix` |
| TrieCollect.EntriesAreMatches | src/common/trie.cpp:98-112 | the entries below the node of `prefix` are the matches of `prefix`; with no such node there are none |
| TrieCollect.Dfs | src/common/trie.cpp:152-160 | collect_all_files' order: the node's own record, then each child's listing in the map's order; DfsEntries and DfsCount state what it lists |
| TrieCollect.DfsEntries | src/common/trie.cpp:152-160 | the depth-first collection lists every entry below a node exactly once, in any child order |
| TrieCollect.DfsCount | src/common/trie.cpp:152-160 | the collection has as many records as there are entries below the node |
| Trie.TrieSearch.CollectAllFiles | src/common/trie.cpp:152-160 | the recursive collection appends exactly the records of the depth-first listing |
| Trie.CollectedMatches | src/common/trie.cpp:98-112 | search_prefix's listing holds each match exactly once and nothing else |
| Trie.TrieSearch.SearchPrefix | src/common/trie.cpp:98-112 | one record per stored filename starting with the prefix, each a record the trie stores; the listing behind it holds every match once |
| TrieBfs.BfsCount | src/common/trie.cpp:130-150 | the breadth-first search never finds more entries than exist, and finds them all when its queue runs empty |
| TrieBfs.BfsShortest | src/common/trie.cpp:130-150 | every entry found is no longer than any entry not found: the search takes the shortest names first |
| TrieBfs.BfsResult | src/common/trie.cpp:130-150 | when the loop stops, min(n - have, number of entries) distinct entries are found (none when n <= have), in nondecreasing length, and no entry left out is shorter than one found |
| Trie.TrieSearch.PushChildren | src/common/trie.cpp:146-148 | the queue gains the node's children with their paths, in the map's order |
| Trie.TrieSearch.CollectNFiles | src/common/trie.cpp:130-150 | the records appended are a shortest-first, duplicate-free selection of entries, stopping once `n` results exist |
| Trie.TrieSearch.SearchPrefixNResults | src/common/trie.cpp:114-128 | min(numResults, number of matches) stored records, none for a non-positive count; the matches behind them are distinct, shortest names first, and no shorter match is left out |
| TrieSnapshot.LittleEndianRoundTrip | src/common/trie.cpp:5-18 | the native 8-byte size field reads back as the value written |
| TrieSnapshot.DecodeEncodeString | src/common/trie.cpp:5-18 | read_string after write_string gives back the string and leaves the rest of the stream |
| TrieSnapshot.WriteString | src/common/trie.cpp:5-9 | write_string appends the length field and then the characters |
| TrieSnapshot.ReadString | src/common/trie.cpp:12-18 | read_string consumes exactly one encoded string and returns it |
| TrieSnapshot.DecodeEncodeInfo | src/common/trie.cpp:210-255 | the record of a leaf reads back as written; a non-leaf node has none |
| TrieSnapshot.EncodeNode | src/common/trie.cpp:210-228 | save_node's byte layout; DecodeEncodeNode states that DecodeNode reads it back |
| TrieSnapshot.DecodeNode | src/common/trie.cpp:230-255 | load_node's reading, None when the bytes run out; it always consumes at least one byte, and DecodeEncodeNode states that it inverts EncodeNode |
| TrieSnapshot.DecodeEncodeNode | src/common/trie.cpp:210-255 | load_node after save_node gives the canonical form of the subtree and leaves the rest of the stream |
| TrieSnapshot.CanonicalContents | src/common/trie.cpp:230-255 | the canonical form (no record on non-leaf nodes) stores the same names with the same records |
| TrieSnapshot.CanonicalPruned | src/common/trie.cpp:230-255 | reading back a pruned tree gives a pruned tree: every child subtree still stores a key |
| TrieSnapshot.SaveNode | src/common/trie.cpp:210-228 | save_node writes the pre-order encoding of the subtree: flag, record of a leaf, child count, then each child's key and encoding |
| TrieSnapshot.LoadNode | src/common/trie.cpp:230-255 | load_node reads back the node that the unread bytes encode and consumes exactly its encoding |
| Trie.SnapshotRoundTrip | src/common/trie.cpp:191-208 | loading a saved trie consumes the whole file and yields a trie with exactly the same contents, pruned when the saved one was |
| Trie.TrieSearch.Save | src/common/trie.cpp:191-198 | an openable file receives the encoding of the whole trie; otherwise nothing is written |
| Trie.TrieSearch.Load | src/common/trie.cpp:200-208 | an unopenable file leaves the trie as it was; otherwise the trie is the decoded one |
| Tokenizer.ToLower | src/common/file_crawler.cpp:8-45 | the lower-cased character is never upper case and is a separator exactly when the original is |
| Tokenizer.Tokenize | src/common/file_crawler.cpp:8-45 | the loop yields exactly the lower-cased maximal runs: split at every isspace character and at '-', '_', '.', '/', '\\', '(', ')', '[', ']', '{', '}', and before each upper-case letter |
| Tokenizer.TokenShape | src/common/file_crawler.cpp:8-45 | every token is non-empty and holds no separator and no upper-case letter |
| Tokenizer.TokenSource | src/common/file_crawler.cpp:8-45 | every token is the lower-cased text of a stretch of the input |
| Tokenizer.TokensExample | src/common/file_crawler.cpp:8-45 | "MyFile.TAR" gives {my, file, t, a, r}: each capital starts a token of its own |
| Paths.FindLastOfSpec | src/common/file_crawler.cpp:47-59 | find_last_of gives npos only when the character is absent, and otherwise its last position |
| Paths.SliceAfterLastFind | src/common/file_crawler.cpp:47-59 | the model of slice_after_last agrees with the find_last_of and substr it is written with, including both early returns |
| Paths.SliceAfterLastSpec | src/indexer/file_crawler.cpp:5-14 | the result is the longest suffix without the delimiter: the whole string without one, empty when the delimiter ends it |
| Paths.JoinLastComponent | src/common/file_crawler.cpp:78 | slicing an entry's path after its last '/' gives back the entry's name |
| Paths.IsIgnorable | src/common/file_crawler.cpp:114-121 | both revisions of is_ignorable, by their list (the earlier one is src/indexer/file_crawler.cpp:41-46): on the list, or first character '.'; an empty name reads the terminating '\0' and is ignorable only if listed; IgnoreRevisions compares the two |
| Paths.IgnoreRevisions | src/indexer/file_crawler.cpp:41-46 | the two is_ignorable revisions differ on "R" alone; ".git" is already covered by the dot rule |
| DirWalk.Walk | src/common/file_crawler.cpp:67-106 | the events of the stack traversal: pop the top directory, then Scan its entries; CrawlReaches states what it reaches |
| DirWalk.Scan | src/common/file_crawler.cpp:72-105 | one directory's entries in iterator order: a file is met, a folder is met and pushed unless is_ignorable holds of the text after its last '/' |
| DirWalk.CrawlReaches | src/common/file_crawler.cpp:61-112 | with well-formed names, the traversal sees each file outside ignorable folders once and pops each reachable folder once |
| Crawler.RecordShape | src/common/file_crawler.cpp:86-92 | the record keeps the full path; its name has no '/' and its extension no '.'; no dot gives the whole path as extension |
| Crawler.InsertAllContents | src/common/file_crawler.cpp:92 | inserting the crawled records adds their names to the trie, the last record of a name winning |
| Crawler.NameIndexLast | src/common/file_crawler.cpp:92 | a name maps to the record of the last file that had it |
| Crawler.PathsOfRecords | src/common/file_crawler.cpp:86-91 | the records list exactly the crawled paths, in order |
| Crawler.FileSystemCrawler.constructor | include/file_crawler.h:29-36 | the crawler owns a database on the default path, in the state the wrapper's recovery leaves, and an empty trie; no batch has been handed to process_files yet |
| Crawler.FileSystemCrawler.ProcessFiles | src/common/file_crawler.cpp:131-134 | process_files is one batch insert of the given records, and the batch is logged as the next call (`calls`) |
| Crawler.FileSystemCrawler.Crawl | src/common/file_crawler.cpp:61-112 | the calls crawl makes to process_files are exactly the returned batches, in order; these hold every file the traversal meets once, in order, 1000 to a batch except the last, which holds 1 to 1000; the database ends as those batches stored one after another and the trie has every record inserted |
| Crawler.CrawlFiles | src/common/file_crawler.cpp:61-112 | with well-formed names, the recorded paths are the files outside ignorable folders, each once |
| IndexerCrawler.FileSystemCrawler.constructor | src/indexer/file_crawler.h:21 | the crawler remembers its root path |
| IndexerCrawler.FileSystemCrawler.Crawl | src/indexer/file_crawler.cpp:17-39 | the output has one line per entry met, "Folder: " or "File: " and the name; with well-formed names each reachable folder is popped once |
| IndexerCrawler.Lines | src/indexer/file_crawler.cpp:27-32 | the lines crawl writes for the events in order; LinesCount and EntryLine state their number and content |
| IndexerCrawler.LinesCount | src/indexer/file_crawler.cpp:17-39 | every event but a pop writes exactly one line |
| IndexerCrawler.EntryLine | src/indexer/file_crawler.cpp:27-32 | the line for an entry carries the entry's own name |
| SqliteStore.SqliteWrapper.constructor | src/common/sqlite_wrapper.cpp:8-24 | an empty path selects the default; an openable file with both tables is kept; any other file is replaced by freshly created tables |
| SqliteStore.RecoveredReady | src/common/sqlite_wrapper.cpp:8-24 | after recovery an openable database always has both tables and is consistent |
| SqliteStore.CountTwo | src/common/sqlite_wrapper.cpp:38-57 | with distinct object names, counting the two wanted names gives 2 exactly when both tables exist |
| SqliteStore.SqliteWrapper.CheckTables | src/common/sqlite_wrapper.cpp:31-58 | true exactly when the file opens and both tables exist |
| SqliteStore.FreshReady | src/common/sqlite_wrapper.cpp:60-87 | creating the tables in an empty database gives exactly the two tables and no rows |
| SqliteStore.SqliteWrapper.InitTables | src/common/sqlite_wrapper.cpp:60-87 | CREATE ... IF NOT EXISTS adds the missing tables and keeps the rows |
| SqliteStore.InitTablesConsistent | src/common/sqlite_wrapper.cpp:71-79 | creating missing tables keeps the store consistent |
| SqliteStore.InsertRow | src/common/sqlite_wrapper.cpp:103-128 | the INSERT INTO index_table under UNIQUE and AUTOINCREMENT; InsertRowSpec states when it succeeds and what it leaves |
| SqliteStore.InsertRowSpec | src/common/sqlite_wrapper.cpp:103-128 | an insert succeeds exactly when the table exists and the path is new; the new id exceeds all earlier ids and the old rows stay |
| SqliteStore.SqliteWrapper.InsertFile | src/common/sqlite_wrapper.cpp:103-128 | insert_file returns the new fileid and stores the row, or returns -1 and changes nothing |
| SqliteStore.SqliteWrapper.GetFileId | src/common/sqlite_wrapper.cpp:135-155 | the fileid of the row with that path, or -1 when there is none or the table cannot be read |
| SqliteStore.SqliteWrapper.FileExists | src/common/sqlite_wrapper.cpp:130-133 | true exactly when a row has that path |
| SqliteStore.FileIdOf | src/common/sqlite_wrapper.cpp:135-155 | -1 exactly when no row has the path; otherwise an id whose row has it |
| SqliteStore.SqliteWrapper.JoinTokens | src/common/sqlite_wrapper.cpp:209-214 | the loop builds every token followed by one space |
| SqliteStore.WordsJoined | src/common/sqlite_wrapper.cpp:209-214 | splitting the joined text at spaces gives back the tokens when none holds a space |
| SqliteStore.JoinedEmpty | src/common/sqlite_wrapper.cpp:216 | the joined text is empty exactly when there are no tokens, so only a token-less file gets no token row |
| SqliteStore.StoreRecord | src/common/sqlite_wrapper.cpp:198-228 | one iteration of batch_insert_files' loop; StoreRecordSpec states its effect |
| SqliteStore.StoreBatch | src/common/sqlite_wrapper.cpp:179-235 | the loop over a batch, record by record; StoreBatchGrows and StoreBatchConcat state its effect |
| SqliteStore.StoreRecordSpec | src/common/sqlite_wrapper.cpp:198-228 | a record with a known path changes nothing; a new one gets the next id and its token text when it has tokens |
| SqliteStore.StoreBatchGrows | src/common/sqlite_wrapper.cpp:179-235 | a batch never loses or changes a row, adds at most one row per record, and only under ids above the old ones |
| SqliteStore.StoreBatchConcat | src/common/sqlite_wrapper.cpp:179-235 | two batches in a row store what their concatenation stores, so batch size does not matter |
| SqliteStore.SqliteWrapper.BatchInsertFiles | src/common/sqlite_wrapper.cpp:179-235 | an openable database gets each record in turn; otherwise nothing changes |
| SqliteStore.Page | src/common/sqlite_wrapper.cpp:300-317 | LIMIT ? OFFSET ? on the rows the statement yields; PageSpec states its shape |
| SqliteStore.PageSpec | src/common/sqlite_wrapper.cpp:291-330 | LIMIT/OFFSET returns a contiguous run of the matches, no longer than the limit and duplicate-free when they are |
| SqliteStore.SqliteWrapper.Search | src/common/sqlite_wrapper.cpp:291-330 | the query matches `prefix*` in the full-text index and pages the result; a database that cannot be opened gives nothing |

## Left out

- Heap nodes linked by address and their in-place updates in the trie are modelled as path copying on a value tree held in `TrieSearch.root`. The model does not capture aliasing between nodes or deleting nodes.
- The iteration order of `std::unordered_map` (the trie's children) and `std::unordered_set` (a record's tokens) is unspecified. It is a parameter (`ord`, `listing`), and the contracts hold for every valid order.
- Trie.TrieSearch.Load: a snapshot that does not decode is excluded by its precondition. The code reads past the end of the stream into an unspecified tree.
- Trie.SnapshotRoundTrip: the loaded trie equals the saved one only up to `Canonical`, because a non-leaf node's record is not written. The contents are equal. Characters are assumed below 256, since a char is written as one byte.
- Tokenizer.Tokenize: the code is followed. An upper-case letter always starts a new token, so "TAR" gives "t", "a", "r" and not a single token. `isupper` and `tolower` are modelled for ASCII only.
- Directory trees are values, so file system errors, `skip_permission_denied`, symbolic link cycles and entries changing during the walk are not modelled. The directory iterator's order is the order of the entry list.
- Standard output and standard error are not modelled. The earlier crawler's output is modelled as a sequence of lines.
- SQLite itself is abstract. FTS5 matching is the `matching` parameter of `Search`. The model leaves out PRAGMAs, transactions (BEGIN/COMMIT), prepare and exec errors during init_tables and batches, and truncation of `fileid` to `int`.
- SqliteStore.SqliteWrapper.Search: `limit` and `offset` are `short` in the source; the model does not truncate them to 16 bits.
- SqliteStore.SqliteWrapper.constructor: `fs::remove` is assumed to succeed. A missing file that can be created gets fresh tables. A path that cannot be opened ends with no database at all (`disk == None`): check_tables fails, the file is removed, and init_tables cannot create anything.
- insert_token, the commented-out debug printers, initializing_crawl and check_sudo, index_search and get_trie are not modelled. They are thin forwarding or diagnostic code.
- The service daemon, the client and the GUI are not part of this model. The header and the source disagree on the signature of `search`; the source's is modelled.
- Paths.SliceAfterLast: defined by recursion from the back. Paths.SliceAfterLastFind proves it equal to the find_last_of and substr form of the source.
