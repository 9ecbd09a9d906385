/**
 * SQLiteWrapper (src/common/sqlite_wrapper.cpp) over abstract tables.
 *
 * The database file is a value: the schema catalog (sqlite_master), the
 * rows of index_table keyed by fileid, the token blobs of the fts_index
 * table keyed by rowid, and the AUTOINCREMENT counter. Of the engine's
 * behaviour the model fixes: absolute_path is UNIQUE, so an insert of a
 * path already present fails (InsertRow); fileid is AUTOINCREMENT, so a new
 * row gets one more than the largest id ever handed out; CREATE TABLE IF
 * NOT EXISTS adds a missing table and keeps an existing one
 * (CreateIfMissing); the catalog query counts the objects named index_table
 * or fts_index (CountWanted); and LIMIT ? OFFSET ? treats a negative offset
 * as 0 and a negative limit as no limit (Page). Full-text matching is a
 * parameter. Whether sqlite3_open succeeds on the path is fixed when the
 * wrapper is made.
 */
module SqliteStore {
  import opened Wrappers

  const DefaultDbPath: string := "/home/a7x/crawl.db"
  const IndexTable: string := "index_table"
  const FtsIndex: string := "fts_index"

  /** A row of sqlite_master: its type and its name. */
  datatype SchemaObject = SchemaObject(kind: string, name: string)

  /** A row of index_table, and the columns search returns. */
  datatype FileRow = FileRow(filename: string, absolutePath: string, extension: string)

  /** A crawled file (include/file_crawler.h). */
  datatype FileRecord = FileRecord(filename: string, absolutePath: string, extension: string, tokens: set<string>)

  /** The contents of the database file. */
  datatype Store = Store(catalog: seq<SchemaObject>, files: map<int, FileRow>, blobs: map<int, string>, lastId: int)

  const EmptyStore: Store := Store([], map[], map[], 0)

  /** What any SQLite file with this schema satisfies. */
  ghost predicate Consistent(s: Store)
  {
    && (forall i, j :: 0 <= i < j < |s.catalog| ==> s.catalog[i].name != s.catalog[j].name)
    && s.lastId >= 0
    && (forall id :: id in s.files ==> 0 < id <= s.lastId)
    && (forall i, j :: i in s.files && j in s.files && s.files[i].absolutePath == s.files[j].absolutePath ==> i == j)
    && s.blobs.Keys <= s.files.Keys
  }

  // ---------------------------------------------------------------------------
  // Schema

  /** The catalog query's filter: a table or virtual table named index_table or fts_index. */
  predicate Wanted(o: SchemaObject)
  {
    (o.kind == "table" || o.kind == "virtual") && (o.name == IndexTable || o.name == FtsIndex)
  }

  /** The table `name` is in the catalog. */
  predicate HasTable(cat: seq<SchemaObject>, name: string)
  {
    exists i :: 0 <= i < |cat| && (cat[i].kind == "table" || cat[i].kind == "virtual") && cat[i].name == name
  }

  /** Both tables the wrapper uses are there. */
  predicate Ready(cat: seq<SchemaObject>)
  {
    HasTable(cat, IndexTable) && HasTable(cat, FtsIndex)
  }

  /** The number of rows the catalog query returns. */
  function CountWanted(cat: seq<SchemaObject>): nat
  {
    if cat == [] then 0 else CountWanted(cat[..|cat| - 1]) + (if Wanted(cat[|cat| - 1]) then 1 else 0)
  }

  function Indicator(b: bool): nat
  {
    if b then 1 else 0
  }

  /** With unique names each of the two tables adds at most one row to the count. */
  lemma {:induction false} CountByName(cat: seq<SchemaObject>)
    requires forall i, j :: 0 <= i < j < |cat| ==> cat[i].name != cat[j].name
    ensures CountWanted(cat) == Indicator(HasTable(cat, IndexTable)) + Indicator(HasTable(cat, FtsIndex))
  {
    if cat != [] {
      var init := cat[..|cat| - 1];
      var o := cat[|cat| - 1];
      CountByName(init);
      forall n ensures HasTable(cat, n) <==> HasTable(init, n) || ((o.kind == "table" || o.kind == "virtual") && o.name == n) {
        if HasTable(cat, n) {
          var i :| 0 <= i < |cat| && (cat[i].kind == "table" || cat[i].kind == "virtual") && cat[i].name == n;
          if i < |init| {
            assert init[i] == cat[i];
          }
        }
        if HasTable(init, n) {
          var i :| 0 <= i < |init| && (init[i].kind == "table" || init[i].kind == "virtual") && init[i].name == n;
          assert cat[i] == init[i];
        }
      }
      forall i | 0 <= i < |init| ensures init[i].name != o.name {
        assert init[i] == cat[i];
      }
    }
  }

  /** check_tables: the query finds exactly two rows iff both tables are there. */
  lemma CountTwo(cat: seq<SchemaObject>)
    requires forall i, j :: 0 <= i < j < |cat| ==> cat[i].name != cat[j].name
    ensures CountWanted(cat) == 2 <==> Ready(cat)
  {
    CountByName(cat);
  }

  /** CREATE TABLE IF NOT EXISTS: add the table unless something of that name is there. */
  function CreateIfMissing(cat: seq<SchemaObject>, name: string): seq<SchemaObject>
  {
    if exists i :: 0 <= i < |cat| && cat[i].name == name then cat else cat + [SchemaObject("table", name)]
  }

  /** init_tables on the store `s`. */
  function InitTablesOf(s: Store): Store
  {
    s.(catalog := CreateIfMissing(CreateIfMissing(s.catalog, IndexTable), FtsIndex))
  }

  /** A new store after init_tables: both tables and no rows. */
  const Fresh: Store := InitTablesOf(EmptyStore)

  lemma FreshReady()
    ensures Fresh.catalog == [SchemaObject("table", IndexTable), SchemaObject("table", FtsIndex)]
    ensures Ready(Fresh.catalog) && Consistent(Fresh)
    ensures Fresh.files == map[] && Fresh.blobs == map[]
  {
    var c1 := CreateIfMissing([], IndexTable);
    assert c1 == [SchemaObject("table", IndexTable)];
    assert !(exists i :: 0 <= i < |c1| && c1[i].name == FtsIndex) by {
      assert IndexTable != FtsIndex;
    }
    var cat := Fresh.catalog;
    assert cat[0].kind == "table" && cat[0].name == IndexTable;
    assert cat[1].kind == "table" && cat[1].name == FtsIndex;
  }

  // ---------------------------------------------------------------------------
  // Rows

  /** No row has the path `p`. */
  predicate PathFree(s: Store, p: string)
  {
    forall id :: id in s.files ==> s.files[id].absolutePath != p
  }

  /** The INSERT INTO index_table of `row`: its fileid and the new store, or None when the step fails. */
  function InsertRow(s: Store, row: FileRow): Option<(int, Store)>
  {
    if HasTable(s.catalog, IndexTable) && PathFree(s, row.absolutePath) then
      var id := s.lastId + 1;
      Some((id, s.(files := s.files[id := row], lastId := id)))
    else None
  }

  /** The fileid of the row with path `p`, or -1. */
  ghost function FileIdOf(s: Store, p: string): (r: int)
    requires Consistent(s)
    ensures r == -1 <==> PathFree(s, p)
    ensures r != -1 ==> r in s.files && s.files[r].absolutePath == p
  {
    if PathFree(s, p) then -1 else var id :| id in s.files && s.files[id].absolutePath == p; id
  }

  /**
   * An insert succeeds iff index_table is there and no row has the path
   * (UNIQUE). The new id is above every id handed out before (AUTOINCREMENT),
   * the old rows stay, the store stays consistent and the path now finds
   * the new id.
   */
  lemma InsertRowSpec(s: Store, row: FileRow)
    requires Consistent(s)
    ensures InsertRow(s, row).Some? <==> HasTable(s.catalog, IndexTable) && PathFree(s, row.absolutePath)
    ensures InsertRow(s, row).Some? ==>
      var (id, s') := InsertRow(s, row).value;
      && id > s.lastId && id !in s.files
      && Consistent(s')
      && s'.catalog == s.catalog && s'.blobs == s.blobs
      && (forall k :: k in s.files ==> k in s'.files && s'.files[k] == s.files[k])
      && s'.files.Keys == s.files.Keys + {id}
      && FileIdOf(s', row.absolutePath) == id
  {
  }

  // ---------------------------------------------------------------------------
  // Token blobs

  /** all_tokens: every token followed by one space. */
  function Joined(tokens: seq<string>): string
  {
    if tokens == [] then [] else tokens[0] + " " + Joined(tokens[1..])
  }

  lemma {:induction false} JoinedSnoc(tokens: seq<string>, t: string)
    ensures Joined(tokens + [t]) == Joined(tokens) + t + " "
  {
    if tokens == [] {
      assert [] + [t] == [t];
    } else {
      assert (tokens + [t])[0] == tokens[0] && (tokens + [t])[1..] == tokens[1..] + [t];
      JoinedSnoc(tokens[1..], t);
    }
  }

  /** The position of the first space in `s`, or |s|. */
  function FirstSpace(s: string): (k: nat)
    ensures k <= |s| && ' ' !in s[..k] && (k < |s| ==> s[k] == ' ')
  {
    if s == [] then 0
    else if s[0] == ' ' then 0
    else
      var k := FirstSpace(s[1..]);
      assert s[..k + 1] == [s[0]] + s[1..][..k];
      k + 1
  }

  /** The words of a blob that ends in a space: the pieces between spaces. */
  function Words(s: string): seq<string>
    decreases |s|
  {
    if s == [] then []
    else
      var k := FirstSpace(s);
      if k < |s| then [s[..k]] + Words(s[k + 1..]) else [s]
  }

  /** Splitting the stored blob at its spaces gives back the tokens, which hold no space. */
  lemma {:induction false} WordsJoined(tokens: seq<string>)
    requires forall i :: 0 <= i < |tokens| ==> ' ' !in tokens[i]
    ensures Words(Joined(tokens)) == tokens
  {
    if tokens != [] {
      var t := tokens[0];
      var rest := Joined(tokens[1..]);
      var s := Joined(tokens);
      assert s == t + (" " + rest);
      FirstSpaceAt(t, " " + rest);
      assert s[..|t|] == t && s[|t| + 1..] == rest;
      WordsJoined(tokens[1..]);
    }
  }

  lemma FirstSpaceAt(t: string, u: string)
    requires ' ' !in t && u != [] && u[0] == ' '
    ensures FirstSpace(t + u) == |t|
  {
    var s := t + u;
    var k := FirstSpace(s);
    assert s[|t|] == ' ' && s[..|t|] == t;
    SpaceFree(s, k, |t|);
    SpaceFree(s, |t|, k);
  }

  /** No position before `k` holds a space when the first `k` characters hold none. */
  lemma SpaceFree(s: string, k: int, j: int)
    requires 0 <= k <= |s| && ' ' !in s[..k]
    ensures 0 <= j < k ==> s[j] != ' '
  {
    if 0 <= j < k {
      assert s[..k][j] == s[j];
    }
  }

  /** The blob is empty iff there are no tokens. */
  lemma JoinedEmpty(tokens: seq<string>)
    ensures Joined(tokens) == [] <==> tokens == []
  {
  }

  // ---------------------------------------------------------------------------
  // batch_insert_files

  /** unordered_set iteration lists every element of a set exactly once. */
  ghost predicate ValidListing(listing: set<string> -> seq<string>)
  {
    forall ts: set<string> :: NoDup(listing(ts)) && (forall t :: t in listing(ts) <==> t in ts)
  }

  lemma ListingEmpty(listing: set<string> -> seq<string>, ts: set<string>)
    requires ValidListing(listing)
    ensures listing(ts) == [] <==> ts == {}
  {
    if listing(ts) != [] {
      assert listing(ts)[0] in listing(ts);
    }
    if ts != {} {
      var t :| t in ts;
      assert t in listing(ts);
    }
  }

  function RowOf(rec: FileRecord): FileRow
  {
    FileRow(rec.filename, rec.absolutePath, rec.extension)
  }

  /** One record of the batch: the row insert, then the blob if the row went in and there is a token. */
  function StoreRecord(s: Store, rec: FileRecord, listing: set<string> -> seq<string>): Store
  {
    match InsertRow(s, RowOf(rec))
    case None => s
    case Some((id, s')) =>
      var blob := Joined(listing(rec.tokens));
      if blob != [] && HasTable(s'.catalog, FtsIndex) then s'.(blobs := s'.blobs[id := blob]) else s'
  }

  /** The store after the records of a batch, in order. */
  function StoreBatch(s: Store, recs: seq<FileRecord>, listing: set<string> -> seq<string>): Store
  {
    if recs == [] then s else StoreRecord(StoreBatch(s, recs[..|recs| - 1], listing), recs[|recs| - 1], listing)
  }

  /** One record keeps the store consistent and the catalog as it is, whatever the listing. */
  lemma StoreRecordKeeps(s: Store, rec: FileRecord, listing: set<string> -> seq<string>)
    requires Consistent(s)
    ensures Consistent(StoreRecord(s, rec, listing))
    ensures StoreRecord(s, rec, listing).catalog == s.catalog
    ensures StoreRecord(s, rec, listing).files == (if InsertRow(s, RowOf(rec)).Some? then s.files[s.lastId + 1 := RowOf(rec)] else s.files)
    ensures StoreRecord(s, rec, listing).lastId == (if InsertRow(s, RowOf(rec)).Some? then s.lastId + 1 else s.lastId)
  {
    InsertRowSpec(s, RowOf(rec));
  }

  /**
   * One record: a path already present changes nothing; otherwise, with
   * index_table there, the row goes in under a fresh id and, when the record
   * has tokens and fts_index is there, the blob of its tokens goes in under
   * the same id. Nothing else changes and the store stays consistent.
   */
  lemma StoreRecordSpec(s: Store, rec: FileRecord, listing: set<string> -> seq<string>)
    requires Consistent(s) && ValidListing(listing)
    ensures Consistent(StoreRecord(s, rec, listing))
    ensures !PathFree(s, rec.absolutePath) ==> StoreRecord(s, rec, listing) == s
    ensures HasTable(s.catalog, IndexTable) && PathFree(s, rec.absolutePath) ==>
      var s' := StoreRecord(s, rec, listing);
      var id := s.lastId + 1;
      && s'.lastId == id
      && s'.files == s.files[id := RowOf(rec)]
      && s'.blobs == (if rec.tokens != {} && HasTable(s.catalog, FtsIndex)
                      then s.blobs[id := Joined(listing(rec.tokens))] else s.blobs)
      && s'.catalog == s.catalog
  {
    StoreRecordKeeps(s, rec, listing);
    InsertRowSpec(s, RowOf(rec));
    ListingEmpty(listing, rec.tokens);
    JoinedEmpty(listing(rec.tokens));
  }

  /** The rows a batch adds: at most one per record, under ids above every earlier id; no row is lost or changed. */
  lemma {:induction false} StoreBatchGrows(s: Store, recs: seq<FileRecord>, listing: set<string> -> seq<string>)
    requires Consistent(s)
    ensures var s' := StoreBatch(s, recs, listing);
      && Consistent(s')
      && s'.catalog == s.catalog
      && s.lastId <= s'.lastId
      && (forall k :: k in s.files ==> k in s'.files && s'.files[k] == s.files[k])
      && (forall k :: k in s'.files && k !in s.files ==> k > s.lastId)
      && |s'.files| <= |s.files| + |recs|
  {
    if recs != [] {
      var init := recs[..|recs| - 1];
      StoreBatchGrows(s, init, listing);
      var m := StoreBatch(s, init, listing);
      StoreRecordKeeps(m, recs[|recs| - 1], listing);
      InsertRowSpec(m, RowOf(recs[|recs| - 1]));
      var s' := StoreBatch(s, recs, listing);
      assert s'.files.Keys <= m.files.Keys + {m.lastId + 1};
      SubsetCard(s'.files.Keys, m.files.Keys + {m.lastId + 1});
    }
  }

  /** Two batches one after the other store what their concatenation stores. */
  lemma {:induction false} StoreBatchConcat(s: Store, a: seq<FileRecord>, b: seq<FileRecord>, listing: set<string> -> seq<string>)
    ensures StoreBatch(StoreBatch(s, a, listing), b, listing) == StoreBatch(s, a + b, listing)
  {
    if b == [] {
      assert a + b == a;
    } else {
      StoreBatchConcat(s, a, b[..|b| - 1], listing);
      assert (a + b)[..|a + b| - 1] == a + b[..|b| - 1];
      assert (a + b)[|a + b| - 1] == b[|b| - 1];
    }
  }

  // ---------------------------------------------------------------------------
  // search

  /**
   * LIMIT ? OFFSET ? on the rows the statement yields: a negative offset
   * counts as 0, a negative limit as no limit.
   */
  function Page(rows: seq<FileRow>, limit: int, offset: int): seq<FileRow>
  {
    var start := if offset < 0 then 0 else Min(offset, |rows|);
    var rest := rows[start..];
    if limit < 0 then rest else rest[..Min(limit, |rest|)]
  }

  /** A page is a contiguous run of the rows, no longer than the limit, and duplicate-free when the rows are. */
  lemma PageSpec(rows: seq<FileRow>, limit: int, offset: int)
    ensures var r := Page(rows, limit, offset);
      var start := if offset < 0 then 0 else Min(offset, |rows|);
      && start + |r| <= |rows| && r == rows[start..start + |r|]
      && (limit >= 0 ==> |r| == Min(limit, |rows| - start))
      && (limit < 0 ==> |r| == |rows| - start)
      && (NoDup(rows) ==> NoDup(r))
  {
    var r := Page(rows, limit, offset);
    var start := if offset < 0 then 0 else Min(offset, |rows|);
    assert r == rows[start..start + |r|];
    if NoDup(rows) {
      forall i, j | 0 <= i < j < |r| ensures r[i] != r[j] {
        assert r[i] == rows[start + i] && r[j] == rows[start + j];
      }
    }
  }

  // ---------------------------------------------------------------------------
  // The wrapper

  class SqliteWrapper {
    var dbPath: string
    /** Whether sqlite3_open succeeds on dbPath. */
    const canOpen: bool
    /** The database file, None when there is none. */
    var disk: Option<Store>

    ghost predicate Valid()
      reads this
    {
      && (canOpen ==> disk.Some?)
      && (disk.Some? ==> Consistent(disk.value))
    }

    /**
     * An empty path means DefaultDbPath. A missing file is created with both
     * tables; a file whose check_tables fails is removed and created afresh;
     * a file that passes is left as it is. When the path cannot be opened
     * nothing can be created.
     */
    constructor(path: string, onDisk: Option<Store>, canOpen: bool)
      requires onDisk.Some? ==> Consistent(onDisk.value)
      ensures dbPath == (if path == [] then DefaultDbPath else path)
      ensures this.canOpen == canOpen
      ensures Valid()
      ensures canOpen ==> disk.Some? && Ready(disk.value.catalog)
      ensures onDisk.Some? && canOpen && Ready(onDisk.value.catalog) ==> disk == onDisk
      ensures !(onDisk.Some? && canOpen && Ready(onDisk.value.catalog)) ==> disk == (if canOpen then Some(Fresh) else None)
    {
      dbPath := if path == [] then DefaultDbPath else path;
      this.canOpen := canOpen;
      disk := onDisk;
      new;
      FreshReady();
      if disk.None? {
        InitTables();
        return;
      }
      var ok := CheckTables();
      if !ok {
        disk := None;
        InitTables();
      }
    }

    /** check_tables: count the catalog rows for the two tables; true iff there are exactly two. */
    method CheckTables() returns (ok: bool)
      requires canOpen ==> disk.Some?
      requires disk.Some? ==> Consistent(disk.value)
      ensures ok <==> canOpen && Ready(disk.value.catalog)
    {
      if !canOpen {
        return false;
      }
      var cat := disk.value.catalog;
      var count := 0;
      for i := 0 to |cat|
        invariant count == CountWanted(cat[..i])
      {
        assert cat[..i + 1][..i] == cat[..i];
        if Wanted(cat[i]) {
          count := count + 1;
        }
      }
      assert cat[..|cat|] == cat;
      CountTwo(cat);
      ok := count == 2;
    }

    /** init_tables: create whichever of the two tables is missing, on a file opened or created. */
    method InitTables()
      requires disk.Some? ==> Consistent(disk.value)
      modifies this`disk
      ensures !canOpen ==> disk == old(disk)
      ensures canOpen ==> disk == Some(InitTablesOf(if old(disk).Some? then old(disk).value else EmptyStore))
      ensures disk.Some? ==> Consistent(disk.value)
    {
      if !canOpen {
        return;
      }
      var s := if disk.Some? then disk.value else EmptyStore;
      disk := Some(InitTablesOf(s));
      InitTablesConsistent(s);
    }

    /** insert_file: the new fileid, or -1 when the file cannot be opened or the insert fails. */
    method InsertFile(filename: string, absPath: string, ext: string) returns (id: int)
      requires Valid()
      modifies this`disk
      ensures Valid()
      ensures var row := FileRow(filename, absPath, ext);
        if canOpen && InsertRow(old(disk).value, row).Some? then
          (id, disk.value) == InsertRow(old(disk).value, row).value
        else
          id == -1 && disk == old(disk)
    {
      if !canOpen {
        return -1;
      }
      var s := disk.value;
      var row := FileRow(filename, absPath, ext);
      InsertRowSpec(s, row);
      if HasTable(s.catalog, IndexTable) && PathFree(s, absPath) {
        id := s.lastId + 1;
        disk := Some(s.(files := s.files[id := row], lastId := id));
      } else {
        id := -1;
      }
    }

    /** get_fileid: the fileid of the row with this path, or -1. */
    method GetFileId(absPath: string) returns (id: int)
      requires Valid()
      ensures canOpen && HasTable(disk.value.catalog, IndexTable) ==> id == FileIdOf(disk.value, absPath)
      ensures !(canOpen && HasTable(disk.value.catalog, IndexTable)) ==> id == -1
    {
      if !canOpen {
        return -1;
      }
      var s := disk.value;
      if !HasTable(s.catalog, IndexTable) {
        return -1;
      }
      if PathFree(s, absPath) {
        id := -1;
      } else {
        id :| id in s.files && s.files[id].absolutePath == absPath;
      }
    }

    /** file_exists: get_fileid found a row. */
    method FileExists(absPath: string) returns (b: bool)
      requires Valid()
      ensures b <==> canOpen && HasTable(disk.value.catalog, IndexTable) && !PathFree(disk.value, absPath)
    {
      var id := GetFileId(absPath);
      b := id != -1;
    }

    /** The blob insert of batch_insert_files for the row `id`: every token followed by a space. */
    method JoinTokens(tokens: seq<string>) returns (all: string)
      ensures all == Joined(tokens)
    {
      all := [];
      for k := 0 to |tokens|
        invariant all == Joined(tokens[..k])
      {
        assert tokens[..k + 1] == tokens[..k] + [tokens[k]];
        JoinedSnoc(tokens[..k], tokens[k]);
        all := all + tokens[k] + " ";
      }
      assert tokens[..|tokens|] == tokens;
    }

    /**
     * batch_insert_files: each record in turn, in one transaction; a record
     * whose row insert fails is skipped and the rest go on.
     */
    method BatchInsertFiles(files: seq<FileRecord>, listing: set<string> -> seq<string>)
      requires Valid()
      modifies this`disk
      ensures Valid()
      ensures canOpen ==> disk == Some(StoreBatch(old(disk).value, files, listing))
      ensures !canOpen ==> disk == old(disk)
    {
      if !canOpen {
        return;
      }
      ghost var s0 := disk.value;
      for i := 0 to |files|
        invariant disk.Some? && disk.value == StoreBatch(s0, files[..i], listing)
        invariant Consistent(disk.value)
      {
        var rec := files[i];
        var s := disk.value;
        assert files[..i + 1][..i] == files[..i];
        StoreRecordKeeps(s, rec, listing);
        if HasTable(s.catalog, IndexTable) && PathFree(s, rec.absolutePath) {
          var fileid := s.lastId + 1;
          var s1 := s.(files := s.files[fileid := RowOf(rec)], lastId := fileid);
          var all := JoinTokens(listing(rec.tokens));
          if all != [] && HasTable(s1.catalog, FtsIndex) {
            s1 := s1.(blobs := s1.blobs[fileid := all]);
          }
          disk := Some(s1);
        }
      }
      assert files[..|files|] == files;
    }

    /**
     * search: MATCH prefix* on fts_index joined with index_table, one page of
     * the distinct rows. `matching` is the engine's answer to the MATCH and
     * the join, in the order it yields the rows; it sees the store and the
     * match term. Empty when the file cannot be opened or the statement
     * cannot be prepared for want of a table.
     */
    method Search(prefix: string, limit: int, offset: int, matching: (Store, string) -> seq<FileRow>)
      returns (results: seq<FileRow>)
      requires Valid()
      ensures canOpen && Ready(disk.value.catalog) ==> results == Page(matching(disk.value, prefix + "*"), limit, offset)
      ensures !(canOpen && Ready(disk.value.catalog)) ==> results == []
    {
      results := [];
      if !canOpen {
        return;
      }
      if !Ready(disk.value.catalog) {
        return;
      }
      var term := prefix + "*";
      var stepped := Page(matching(disk.value, term), limit, offset);
      // The sqlite3_step loop: each row the statement yields is pushed onto results.
      for k := 0 to |stepped|
        invariant results == stepped[..k]
      {
        assert stepped[..k + 1] == stepped[..k] + [stepped[k]];
        results := results + [stepped[k]];
      }
      assert stepped[..|stepped|] == stepped;
    }
  }

  /** init_tables keeps a store consistent. */
  lemma InitTablesConsistent(s: Store)
    requires Consistent(s)
    ensures Consistent(InitTablesOf(s))
  {
    CreateKeepsNames(s.catalog, IndexTable);
    CreateKeepsNames(CreateIfMissing(s.catalog, IndexTable), FtsIndex);
  }

  lemma CreateKeepsNames(cat: seq<SchemaObject>, name: string)
    requires forall i, j :: 0 <= i < j < |cat| ==> cat[i].name != cat[j].name
    ensures var c := CreateIfMissing(cat, name);
      forall i, j :: 0 <= i < j < |c| ==> c[i].name != c[j].name
  {
  }

  /** After the constructor an openable store has both tables, whatever the file held before. */
  lemma RecoveredReady(onDisk: Option<Store>)
    requires onDisk.Some? ==> Consistent(onDisk.value)
    ensures var d := if onDisk.Some? && Ready(onDisk.value.catalog) then onDisk else Some(Fresh);
      d.Some? && Ready(d.value.catalog) && Consistent(d.value)
  {
    FreshReady();
  }
}
