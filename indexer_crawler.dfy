/**
 * The earlier FileSystemCrawler (src/indexer/file_crawler.cpp): the same
 * stack traversal as DirWalk, with the member ignore list of
 * src/indexer/file_crawler.h, that only reports what it meets on standard
 * output: "Folder: <name>" for every folder, pushed or not, and
 * "File: <name>" for every file.
 */
module IndexerCrawler {
  import opened Wrappers
  import opened Paths
  import opened DirWalk

  /** What crawl writes for one event of the traversal; popping a directory writes nothing. */
  function Line(e: Event): seq<string>
  {
    match e
    case Enter(_) => []
    case FileSeen(path) => ["File: " + SliceAfterLast(path, '/') + "\n"]
    case FolderSeen(path, _) => ["Folder: " + SliceAfterLast(path, '/') + "\n"]
  }

  /** What crawl writes for the events `ev`, in order. */
  function Lines(ev: seq<Event>): seq<string>
  {
    if ev == [] then [] else Line(ev[0]) + Lines(ev[1..])
  }

  lemma {:induction false} LinesAppend(a: seq<Event>, b: seq<Event>)
    ensures Lines(a + b) == Lines(a) + Lines(b)
  {
    if a != [] {
      assert (a + b)[0] == a[0] && (a + b)[1..] == a[1..] + b;
      LinesAppend(a[1..], b);
    } else {
      assert a + b == b;
    }
  }

  lemma LinesSnoc(done: seq<Event>, e: Event)
    ensures Lines(done + [e]) == Lines(done) + Line(e)
  {
    LinesAppend(done, [e]);
    assert [e][1..] == [];
  }

  /** Every event but a pop writes exactly one line. */
  lemma {:induction false} LinesCount(ev: seq<Event>)
    ensures |Lines(ev)| == |ev| - |Entered(ev)|
  {
    if ev != [] {
      LinesCount(ev[1..]);
    }
  }

  /** With well-formed names, the line of a met entry carries the entry's own name. */
  lemma EntryLine(dir: string, e: Entry)
    requires EntryName(e.name)
    ensures e.File? ==> Line(FileSeen(Join(dir, e.name))) == ["File: " + e.name + "\n"]
    ensures e.Dir? ==> forall b :: Line(FolderSeen(Join(dir, e.name), b)) == ["Folder: " + e.name + "\n"]
  {
    JoinLastComponent(dir, e.name);
  }

  class FileSystemCrawler {
    const rootPath: string

    constructor(path: string)
      ensures rootPath == path
    {
      rootPath := path;
    }

    /**
     * crawl over the tree below rootPath, whose entries are `tree`: the lines
     * written are those of the traversal with the member ignore list, and,
     * with well-formed names, the directories popped are rootPath and every
     * folder neither ignorable nor inside an ignorable one, each once.
     */
    method Crawl(tree: seq<Entry>) returns (out: seq<string>, ghost visited: seq<string>)
      ensures out == Lines(Walk(IndexerIgnoredFolders, [(rootPath, tree)]))
      ensures visited == Entered(Walk(IndexerIgnoredFolders, [(rootPath, tree)]))
      ensures WellNamed(tree) ==> multiset(visited) == multiset{rootPath} + TreeFolders(IndexerIgnoredFolders, rootPath, tree)
    {
      ghost var whole := Walk(IndexerIgnoredFolders, [(rootPath, tree)]);
      var dirs: seq<Frame> := [(rootPath, tree)];
      out := [];
      ghost var done: seq<Event> := [];
      while dirs != []
        invariant done + Walk(IndexerIgnoredFolders, dirs) == whole
        invariant out == Lines(done)
        decreases StackSize(dirs)
      {
        ghost var measure := StackSize(dirs);
        WalkPop(IndexerIgnoredFolders, dirs);
        var currentDir := dirs[|dirs| - 1].0;
        var entries := dirs[|dirs| - 1].1;
        dirs := dirs[..|dirs| - 1];
        Regroup(done, [Enter(currentDir)], Scan(IndexerIgnoredFolders, currentDir, entries, dirs));
        LinesSnoc(done, Enter(currentDir));
        done := done + [Enter(currentDir)];
        assert entries[0..] == entries;
        for j := 0 to |entries|
          invariant done + Scan(IndexerIgnoredFolders, currentDir, entries[j..], dirs) == whole
          invariant out == Lines(done)
          invariant ListSize(entries[j..]) + StackSize(dirs) < measure
        {
          var entry := entries[j];
          ScanMeasure(currentDir, entries, j, dirs);
          var path := Join(currentDir, entry.name);
          if entry.Dir? {
            var folderName := SliceAfterLast(path, '/');
            var ev := FolderSeen(path, !IsIgnorable(IndexerIgnoredFolders, folderName));
            ScanDirAt(IndexerIgnoredFolders, currentDir, entries, j, dirs);
            Regroup(done, [ev], Scan(IndexerIgnoredFolders, currentDir, entries[j + 1..], AfterFolder(IndexerIgnoredFolders, currentDir, entry, dirs)));
            LinesSnoc(done, ev);
            out := out + ["Folder: " + folderName + "\n"];
            done := done + [ev];
            if !IsIgnorable(IndexerIgnoredFolders, folderName) {
              dirs := dirs + [(path, entry.entries)];
            }
          } else {
            var ev := FileSeen(path);
            ScanFileAt(IndexerIgnoredFolders, currentDir, entries, j, dirs);
            Regroup(done, [ev], Scan(IndexerIgnoredFolders, currentDir, entries[j + 1..], dirs));
            LinesSnoc(done, ev);
            out := out + ["File: " + SliceAfterLast(path, '/') + "\n"];
            done := done + [ev];
          }
        }
        ScanDone(IndexerIgnoredFolders, currentDir, entries, dirs);
      }
      assert done + [] == done;
      visited := Entered(done);
      if WellNamed(tree) {
        CrawlReaches(IndexerIgnoredFolders, rootPath, tree);
      }
    }
  }
}
