/**
 * FileSystemCrawler (src/common/file_crawler.cpp): the stack traversal of
 * DirWalk run over a directory tree given as data, with the ignore list of
 * include/ignored_folders.h. Every file becomes a record (its name, its
 * path, the text after its last '.', the tokens of its path), is inserted
 * into the trie under its name, and is appended to a batch that goes to the
 * index store whenever it reaches 1000 records and once more at the end.
 */
module Crawler {
  import opened Wrappers
  import opened Paths
  import opened Tokenizer
  import opened DirWalk
  import opened SqliteStore
  import opened TrieNodes
  import opened TrieEdit
  import opened Trie

  const BatchSize: nat := 1000

  /** The record crawl builds for the file at `path`. */
  ghost function RecordOf(path: string): FileRecord
  {
    FileRecord(SliceAfterLast(path, '/'), path, SliceAfterLast(path, '.'), Tokens(path))
  }

  /**
   * A record's name has no '/' and its extension no '.'; a path without '.'
   * is its own extension, and one that ends with '.' has none.
   */
  lemma RecordShape(path: string)
    ensures RecordOf(path).absolutePath == path
    ensures '/' !in RecordOf(path).filename && '.' !in RecordOf(path).extension
    ensures '.' !in path ==> RecordOf(path).extension == path
    ensures path != [] && path[|path| - 1] == '.' ==> RecordOf(path).extension == []
  {
    var r := RecordOf(path);
    assert r.filename == SliceAfterLast(path, '/') && r.extension == SliceAfterLast(path, '.');
    SliceAfterLastSpec(path, '/');
    SliceAfterLastSpec(path, '.');
  }

  /** What the trie stores for a record. */
  function InfoOf(rec: FileRecord): FileInfo
  {
    FileInfo(rec.filename, rec.absolutePath, rec.extension)
  }

  /** The records of the files at `paths`, in order. */
  ghost function Records(paths: seq<string>): (r: seq<FileRecord>)
    ensures |r| == |paths|
  {
    if paths == [] then [] else Records(paths[..|paths| - 1]) + [RecordOf(paths[|paths| - 1])]
  }

  lemma RecordsSnoc(paths: seq<string>, p: string)
    ensures Records(paths + [p]) == Records(paths) + [RecordOf(p)]
  {
    assert (paths + [p])[..|paths|] == paths;
  }

  /** The paths of some records. */
  function PathsOf(recs: seq<FileRecord>): seq<string>
  {
    if recs == [] then [] else PathsOf(recs[..|recs| - 1]) + [recs[|recs| - 1].absolutePath]
  }

  /** The records of the files at `paths` carry exactly those paths. */
  lemma {:induction false} PathsOfRecords(paths: seq<string>)
    ensures PathsOf(Records(paths)) == paths
  {
    if paths != [] {
      var init := paths[..|paths| - 1];
      PathsOfRecords(init);
      assert Records(paths)[..|paths| - 1] == Records(init);
      assert paths == init + [paths[|paths| - 1]];
    }
  }

  /** The batches one after the other. */
  function Flatten(bs: seq<seq<FileRecord>>): seq<FileRecord>
  {
    if bs == [] then [] else Flatten(bs[..|bs| - 1]) + bs[|bs| - 1]
  }

  lemma FlattenSnoc(bs: seq<seq<FileRecord>>, b: seq<FileRecord>)
    ensures Flatten(bs + [b]) == Flatten(bs) + b
  {
    assert (bs + [b])[..|bs|] == bs;
  }

  /** The trie after inserting the records `recs` in order. */
  ghost function InsertAll(t: Node, recs: seq<FileRecord>): Node
  {
    if recs == [] then t
    else InsertAt(InsertAll(t, recs[..|recs| - 1]), recs[|recs| - 1].filename, InfoOf(recs[|recs| - 1]))
  }

  lemma InsertAllSnoc(t: Node, recs: seq<FileRecord>, rec: FileRecord)
    ensures InsertAll(t, recs + [rec]) == InsertAt(InsertAll(t, recs), rec.filename, InfoOf(rec))
  {
    assert (recs + [rec])[..|recs|] == recs;
  }

  /** What the inserts add to the trie's contents: under each name, the last record with that name. */
  ghost function NameIndex(recs: seq<FileRecord>): map<string, FileInfo>
  {
    if recs == [] then map[]
    else NameIndex(recs[..|recs| - 1])[recs[|recs| - 1].filename := InfoOf(recs[|recs| - 1])]
  }

  /** The inserts, seen through the trie's contents, add NameIndex(recs) over what was there. */
  lemma {:induction false} InsertAllContents(t: Node, recs: seq<FileRecord>)
    ensures Contents(InsertAll(t, recs)) == Contents(t) + NameIndex(recs)
  {
    if recs != [] {
      var init := recs[..|recs| - 1];
      var rec := recs[|recs| - 1];
      InsertAllContents(t, init);
      InsertContents(InsertAll(t, init), rec.filename, InfoOf(rec));
      UnionUpdate(Contents(t), NameIndex(init), rec.filename, InfoOf(rec));
    }
  }

  lemma UnionUpdate<K, V>(a: map<K, V>, b: map<K, V>, k: K, v: V)
    ensures (a + b)[k := v] == a + b[k := v]
  {
  }

  /** The names the inserts add are the names of the records. */
  lemma {:induction false} NameIndexKeys(recs: seq<FileRecord>)
    ensures NameIndex(recs).Keys == set r | r in recs :: r.filename
  {
    if recs != [] {
      var init := recs[..|recs| - 1];
      var last := recs[|recs| - 1];
      NameIndexKeys(init);
      assert recs == init + [last];
      assert (set r | r in recs :: r.filename) == (set r | r in init :: r.filename) + {last.filename};
    }
  }

  /** Under the name of a record that no later record shares, the trie holds that record. */
  lemma {:induction false} NameIndexLast(recs: seq<FileRecord>, i: nat)
    requires i < |recs|
    requires forall j :: i < j < |recs| ==> recs[j].filename != recs[i].filename
    ensures recs[i].filename in NameIndex(recs)
    ensures NameIndex(recs)[recs[i].filename] == InfoOf(recs[i])
  {
    var n := |recs| - 1;
    if i < n {
      var init := recs[..n];
      assert init[i] == recs[i];
      forall j | i < j < |init| ensures init[j].filename != init[i].filename {
        assert init[j] == recs[j];
      }
      NameIndexLast(init, i);
    }
  }

  /**
   * The batching of a crawl that has met the files at `paths`: the flushed
   * batches, each full, followed by the pending one, which is not, hold
   * their records in order.
   */
  ghost predicate Batched(paths: seq<string>, batch: seq<FileRecord>, flushed: seq<seq<FileRecord>>)
  {
    && Flatten(flushed) + batch == Records(paths)
    && |batch| < BatchSize
    && (forall i :: 0 <= i < |flushed| ==> |flushed[i]| == BatchSize)
  }

  /** One more file's record at the end of the pending batch. */
  lemma BatchedAdd(paths: seq<string>, batch: seq<FileRecord>, flushed: seq<seq<FileRecord>>, p: string)
    requires Batched(paths, batch, flushed)
    ensures Flatten(flushed) + (batch + [RecordOf(p)]) == Records(paths + [p])
  {
    RecordsSnoc(paths, p);
    Regroup(Flatten(flushed), batch, [RecordOf(p)]);
  }

  /** A pending batch that has become full moves to the flushed ones. */
  lemma BatchedFull(paths: seq<string>, batch: seq<FileRecord>, flushed: seq<seq<FileRecord>>)
    requires Flatten(flushed) + batch == Records(paths)
    requires |batch| == BatchSize
    requires forall i :: 0 <= i < |flushed| ==> |flushed[i]| == BatchSize
    ensures Batched(paths, [], flushed + [batch])
  {
    FlattenSnoc(flushed, batch);
    assert Flatten(flushed + [batch]) + [] == Flatten(flushed + [batch]);
    assert forall i :: 0 <= i < |flushed| ==> (flushed + [batch])[i] == flushed[i];
  }

  class FileSystemCrawler {
    const rootPath: string
    const dbWrapper: SqliteWrapper
    const trieSearcher: TrieSearch
    /** The batches handed to process_files so far, in order. */
    ghost var calls: seq<seq<FileRecord>>

    /**
     * The crawler of `path`, with the store at DefaultDbPath in the state the
     * wrapper's recovery leaves it (`onDisk` is the file found there) and an
     * empty trie.
     */
    constructor(path: string, onDisk: Option<Store>, canOpen: bool)
      requires onDisk.Some? ==> Consistent(onDisk.value)
      ensures rootPath == path
      ensures fresh(dbWrapper) && fresh(trieSearcher)
      ensures dbWrapper.Valid() && dbWrapper.dbPath == DefaultDbPath && dbWrapper.canOpen == canOpen
      ensures canOpen ==> dbWrapper.disk.Some? && Ready(dbWrapper.disk.value.catalog)
      ensures onDisk.Some? && canOpen && Ready(onDisk.value.catalog) ==> dbWrapper.disk == onDisk
      ensures !(onDisk.Some? && canOpen && Ready(onDisk.value.catalog)) ==> dbWrapper.disk == (if canOpen then Some(Fresh) else None)
      ensures trieSearcher.root == NewNode
      ensures calls == []
    {
      rootPath := path;
      dbWrapper := new SqliteWrapper(DefaultDbPath, onDisk, canOpen);
      trieSearcher := new TrieSearch();
      calls := [];
    }

    /** process_files: the batch goes to the store. */
    method ProcessFiles(files: seq<FileRecord>, listing: set<string> -> seq<string>)
      requires dbWrapper.Valid()
      modifies dbWrapper`disk, this`calls
      ensures dbWrapper.Valid()
      ensures dbWrapper.canOpen ==> dbWrapper.disk == Some(StoreBatch(old(dbWrapper.disk).value, files, listing))
      ensures !dbWrapper.canOpen ==> dbWrapper.disk == old(dbWrapper.disk)
      ensures calls == old(calls) + [files]
    {
      dbWrapper.BatchInsertFiles(files, listing);
      calls := calls + [files];
    }

    /**
     * The batches `flushed` are the process_files calls made after those in
     * `c0`, and the store holds them, one after the other, over `s0`.
     */
    ghost predicate Stored(flushed: seq<seq<FileRecord>>, s0: Option<Store>, c0: seq<seq<FileRecord>>,
                           listing: set<string> -> seq<string>)
      reads this, dbWrapper
    {
      && calls == c0 + flushed
      && dbWrapper.Valid()
      && (dbWrapper.canOpen ==> s0.Some? && dbWrapper.disk == Some(StoreBatch(s0.value, Flatten(flushed), listing)))
      && (!dbWrapper.canOpen ==> dbWrapper.disk == s0)
    }

    /** The trie of a crawl that started with `t0` and has met the files at `paths`: their records inserted in order. */
    ghost predicate Indexed(paths: seq<string>, t0: Node)
      reads this, trieSearcher
    {
      trieSearcher.root == InsertAll(t0, Records(paths))
    }

    /**
     * The state of a crawl that started with the store `s0` and the trie `t0`
     * and has met the files at `paths`: the flushed batches, full, followed by
     * the pending one hold their records; the store holds the flushed ones and
     * the trie all of them.
     */
    ghost predicate Progress(paths: seq<string>, batch: seq<FileRecord>, flushed: seq<seq<FileRecord>>,
                             s0: Option<Store>, t0: Node, c0: seq<seq<FileRecord>>, listing: set<string> -> seq<string>)
      reads this, dbWrapper, trieSearcher
    {
      Batched(paths, batch, flushed) && Stored(flushed, s0, c0, listing) && Indexed(paths, t0)
    }

    /** A call of process_files, seen as one more batch in the store. */
    method FlushBatch(batch: seq<FileRecord>, ghost flushed: seq<seq<FileRecord>>, ghost s0: Option<Store>,
                      ghost c0: seq<seq<FileRecord>>,
                      listing: set<string> -> seq<string>)
      requires Stored(flushed, s0, c0, listing)
      modifies dbWrapper`disk, this`calls
      ensures Stored(flushed + [batch], s0, c0, listing)
      ensures Flatten(flushed + [batch]) == Flatten(flushed) + batch
    {
      ProcessFiles(batch, listing);
      if dbWrapper.canOpen {
        StoreBatchConcat(s0.value, Flatten(flushed), batch, listing);
      }
      FlattenSnoc(flushed, batch);
    }

    /** The record of the file at `filePath`, built as crawl builds it and inserted into the trie under its name. */
    method IndexFile(filePath: string, ghost paths: seq<string>, ghost t0: Node) returns (rec: FileRecord)
      requires Indexed(paths, t0)
      modifies trieSearcher
      ensures rec == RecordOf(filePath)
      ensures Indexed(paths + [filePath], t0)
    {
      var tokens := Tokenize(filePath);
      rec := FileRecord(SliceAfterLast(filePath, '/'), filePath, SliceAfterLast(filePath, '.'), tokens);
      trieSearcher.Insert(rec.filename, rec.absolutePath, rec.extension);
      RecordsSnoc(paths, filePath);
      InsertAllSnoc(t0, Records(paths), rec);
    }

    /** The file branch of crawl: index the file, batch its record, flush a full batch. */
    method AddFile(filePath: string, batch: seq<FileRecord>, ghost flushed: seq<seq<FileRecord>>,
                   ghost paths: seq<string>, ghost s0: Option<Store>, ghost t0: Node, ghost c0: seq<seq<FileRecord>>, listing: set<string> -> seq<string>)
      returns (batch': seq<FileRecord>, ghost flushed': seq<seq<FileRecord>>)
      requires Progress(paths, batch, flushed, s0, t0, c0, listing)
      modifies trieSearcher, dbWrapper`disk, this`calls
      ensures Progress(paths + [filePath], batch', flushed', s0, t0, c0, listing)
    {
      var rec := IndexFile(filePath, paths, t0);
      BatchedAdd(paths, batch, flushed, filePath);
      batch' := batch + [rec];
      flushed' := flushed;
      if |batch'| >= BatchSize {
        FlushBatch(batch', flushed, s0, c0, listing);
        BatchedFull(paths + [filePath], batch', flushed);
        flushed' := flushed + [batch'];
        batch' := [];
      }
    }

    /**
     * One pass of crawl's loop over the entries of `dir`: a folder is
     * reported and pushed unless its name is ignorable, a file goes to
     * AddFile. The traversal moves one event on and its measure goes down.
     */
    method VisitEntry(dir: string, entries: seq<Entry>, j: nat, stack: seq<Frame>, batch: seq<FileRecord>,
                      ghost done: seq<Event>, ghost flushed: seq<seq<FileRecord>>, ghost whole: seq<Event>,
                      ghost s0: Option<Store>, ghost t0: Node, ghost c0: seq<seq<FileRecord>>, listing: set<string> -> seq<string>)
      returns (stack': seq<Frame>, batch': seq<FileRecord>, ghost done': seq<Event>, ghost flushed': seq<seq<FileRecord>>)
      requires j < |entries|
      requires done + Scan(IgnoredFolders, dir, entries[j..], stack) == whole
      requires Progress(FilePaths(done), batch, flushed, s0, t0, c0, listing)
      modifies trieSearcher, dbWrapper`disk, this`calls
      ensures done' + Scan(IgnoredFolders, dir, entries[j + 1..], stack') == whole
      ensures Progress(FilePaths(done'), batch', flushed', s0, t0, c0, listing)
      ensures ListSize(entries[j + 1..]) + StackSize(stack') < ListSize(entries[j..]) + StackSize(stack)
    {
      var entry := entries[j];
      ScanMeasure(dir, entries, j, stack);
      if entry.Dir? {
        var path := Join(dir, entry.name);
        var folderName := SliceAfterLast(path, '/');
        var ev := FolderSeen(path, !IsIgnorable(IgnoredFolders, folderName));
        ScanDirAt(IgnoredFolders, dir, entries, j, stack);
        Regroup(done, [ev], Scan(IgnoredFolders, dir, entries[j + 1..], AfterFolder(IgnoredFolders, dir, entry, stack)));
        FilePathsSnoc(done, ev);
        assert FilePaths(done) + [] == FilePaths(done);
        done' := done + [ev];
        batch', flushed' := batch, flushed;
        stack' := stack;
        if !IsIgnorable(IgnoredFolders, folderName) {
          stack' := stack + [(path, entry.entries)];
        }
      } else {
        var filePath := Join(dir, entry.name);
        var ev := FileSeen(filePath);
        ScanFileAt(IgnoredFolders, dir, entries, j, stack);
        Regroup(done, [ev], Scan(IgnoredFolders, dir, entries[j + 1..], stack));
        FilePathsSnoc(done, ev);
        batch', flushed' := AddFile(filePath, batch, flushed, FilePaths(done), s0, t0, c0, listing);
        done' := done + [ev];
        stack' := stack;
      }
    }

    /** The inner loop of crawl: the entries of the directory `dir` just popped, one by one. */
    method VisitDir(dir: string, entries: seq<Entry>, stack: seq<Frame>, batch: seq<FileRecord>,
                    ghost done: seq<Event>, ghost flushed: seq<seq<FileRecord>>, ghost whole: seq<Event>,
                    ghost s0: Option<Store>, ghost t0: Node, ghost c0: seq<seq<FileRecord>>, listing: set<string> -> seq<string>)
      returns (stack': seq<Frame>, batch': seq<FileRecord>, ghost done': seq<Event>, ghost flushed': seq<seq<FileRecord>>)
      requires done + Scan(IgnoredFolders, dir, entries, stack) == whole
      requires Progress(FilePaths(done), batch, flushed, s0, t0, c0, listing)
      modifies trieSearcher, dbWrapper`disk, this`calls
      ensures done' + Walk(IgnoredFolders, stack') == whole
      ensures Progress(FilePaths(done'), batch', flushed', s0, t0, c0, listing)
      ensures StackSize(stack') <= ListSize(entries) + StackSize(stack)
    {
      stack', batch', done', flushed' := stack, batch, done, flushed;
      assert entries[0..] == entries;
      for j := 0 to |entries|
        invariant done' + Scan(IgnoredFolders, dir, entries[j..], stack') == whole
        invariant Progress(FilePaths(done'), batch', flushed', s0, t0, c0, listing)
        invariant ListSize(entries[j..]) + StackSize(stack') <= ListSize(entries) + StackSize(stack)
      {
        stack', batch', done', flushed' := VisitEntry(dir, entries, j, stack', batch', done', flushed', whole, s0, t0, c0, listing);
      }
      ScanDone(IgnoredFolders, dir, entries, stack');
      assert entries[|entries|..] == [];
    }

    /** The batches of a crawl: full ones, then a last one that is not empty and not over full. */
    lemma BatchSizes(flushed: seq<seq<FileRecord>>, batch: seq<FileRecord>)
      requires forall i :: 0 <= i < |flushed| ==> |flushed[i]| == BatchSize
      requires 1 <= |batch| <= BatchSize
      ensures forall i :: 0 <= i < |flushed + [batch]| ==> 1 <= |(flushed + [batch])[i]| <= BatchSize
      ensures forall i :: 0 <= i < |flushed + [batch]| - 1 ==> |(flushed + [batch])[i]| == BatchSize
    {
    }

    /** The outer loop of crawl: pop a directory and visit its entries, until the stack is empty. */
    method Traverse(root: string, tree: seq<Entry>, ghost s0: Option<Store>, ghost t0: Node, ghost c0: seq<seq<FileRecord>>,
                    listing: set<string> -> seq<string>)
      returns (batch: seq<FileRecord>, ghost flushed: seq<seq<FileRecord>>)
      requires Progress([], [], [], s0, t0, c0, listing)
      modifies trieSearcher, dbWrapper`disk, this`calls
      ensures Progress(FilePaths(Walk(IgnoredFolders, [(root, tree)])), batch, flushed, s0, t0, c0, listing)
    {
      ghost var whole := Walk(IgnoredFolders, [(root, tree)]);
      var stack: seq<Frame> := [(root, tree)];
      batch := [];
      ghost var done: seq<Event> := [];
      flushed := [];
      while stack != []
        invariant done + Walk(IgnoredFolders, stack) == whole
        invariant Progress(FilePaths(done), batch, flushed, s0, t0, c0, listing)
        decreases StackSize(stack)
      {
        WalkPop(IgnoredFolders, stack);
        var dir := stack[|stack| - 1].0;
        var entries := stack[|stack| - 1].1;
        stack := stack[..|stack| - 1];
        Regroup(done, [Enter(dir)], Scan(IgnoredFolders, dir, entries, stack));
        FilePathsSnoc(done, Enter(dir));
        assert FilePaths(done) + [] == FilePaths(done);
        done := done + [Enter(dir)];
        stack, batch, done, flushed := VisitDir(dir, entries, stack, batch, done, flushed, whole, s0, t0, c0, listing);
      }
      assert done + [] == done;
    }

    /** The end of crawl: a pending batch that is not empty goes to process_files as the last one. */
    method FlushLast(batch: seq<FileRecord>, ghost flushed: seq<seq<FileRecord>>, ghost paths: seq<string>,
                     ghost s0: Option<Store>, ghost c0: seq<seq<FileRecord>>, listing: set<string> -> seq<string>)
      returns (ghost batches: seq<seq<FileRecord>>)
      requires Batched(paths, batch, flushed) && Stored(flushed, s0, c0, listing)
      modifies dbWrapper`disk, this`calls
      ensures Flatten(batches) == Records(paths)
      ensures forall i :: 0 <= i < |batches| ==> 1 <= |batches[i]| <= BatchSize
      ensures forall i :: 0 <= i < |batches| - 1 ==> |batches[i]| == BatchSize
      ensures Stored(batches, s0, c0, listing)
    {
      if batch != [] {
        FlushBatch(batch, flushed, s0, c0, listing);
        BatchSizes(flushed, batch);
        batches := flushed + [batch];
      } else {
        assert Flatten(flushed) + [] == Flatten(flushed);
        batches := flushed;
      }
    }

    /**
     * crawl: the stack traversal from `root`, whose entries are `tree`. The
     * batches handed to process_files hold the records of the files met, in
     * the order they are met, 1000 to a batch but the last, which holds 1 to
     * 1000; they are exactly the calls made, the store holds them, and the
     * trie has had every file inserted in that order.
     */
    method Crawl(root: string, tree: seq<Entry>, listing: set<string> -> seq<string>)
      returns (ghost batches: seq<seq<FileRecord>>)
      requires dbWrapper.Valid()
      modifies trieSearcher, dbWrapper`disk, this`calls
      ensures dbWrapper.Valid()
      ensures Flatten(batches) == Records(FilePaths(Walk(IgnoredFolders, [(root, tree)])))
      ensures forall i :: 0 <= i < |batches| ==> 1 <= |batches[i]| <= BatchSize
      ensures forall i :: 0 <= i < |batches| - 1 ==> |batches[i]| == BatchSize
      ensures dbWrapper.canOpen ==> dbWrapper.disk == Some(StoreBatch(old(dbWrapper.disk).value, Flatten(batches), listing))
      ensures !dbWrapper.canOpen ==> dbWrapper.disk == old(dbWrapper.disk)
      ensures trieSearcher.root == InsertAll(old(trieSearcher.root), Flatten(batches))
      ensures calls == old(calls) + batches
    {
      ghost var s0 := dbWrapper.disk;
      ghost var t0 := trieSearcher.root;
      ghost var c0 := calls;
      ghost var paths := FilePaths(Walk(IgnoredFolders, [(root, tree)]));
      var batch;
      ghost var flushed;
      batch, flushed := Traverse(root, tree, s0, t0, c0, listing);
      assert Batched(paths, batch, flushed) && Stored(flushed, s0, c0, listing);
      assert trieSearcher.root == InsertAll(t0, Records(paths));
      batches := FlushLast(batch, flushed, paths, s0, c0, listing);
    }
  }

  /**
   * With well-formed names, the records crawl hands on are those of the
   * files below the root and outside ignorable folders, each once.
   */
  lemma CrawlFiles(root: string, tree: seq<Entry>)
    requires WellNamed(tree)
    ensures multiset(PathsOf(Records(FilePaths(Walk(IgnoredFolders, [(root, tree)]))))) == TreeFiles(IgnoredFolders, root, tree)
  {
    CrawlReaches(IgnoredFolders, root, tree);
    PathsOfRecords(FilePaths(Walk(IgnoredFolders, [(root, tree)])));
  }
}
