/**
 * The directory traversal both crawl revisions share: a stack of
 * directories, seeded with the root; the top directory is popped and its
 * entries are met in the directory iterator's order; a file is handled on
 * the spot; a folder is pushed unless is_ignorable rejects the last
 * component of its path.
 *
 * The file system is a finite tree given as a value (the entries of each
 * directory in iteration order), and the traversal is a list of events.
 * The events are related to tree-recursive definitions of the files and
 * folders reachable without passing through an ignorable folder.
 */
module DirWalk {
  import opened Paths

  /** A directory entry: a file, or a folder with its own entries. */
  datatype Entry = File(name: string) | Dir(name: string, entries: seq<Entry>)

  /** A directory on the stack: its path and its entries. */
  type Frame = (string, seq<Entry>)

  /** What the traversal does: pop a directory, meet a file, meet a folder and push it or not. */
  datatype Event = Enter(path: string) | FileSeen(path: string) | FolderSeen(path: string, pushed: bool)

  function EntrySize(e: Entry): nat
    ensures EntrySize(e) >= 1
  {
    match e
    case File(_) => 1
    case Dir(_, es) => 2 + ListSize(es)
  }

  function ListSize(es: seq<Entry>): nat
  {
    if es == [] then 0 else EntrySize(es[0]) + ListSize(es[1..])
  }

  function StackSize(stack: seq<Frame>): nat
  {
    if stack == [] then 0 else ListSize(stack[|stack| - 1].1) + 1 + StackSize(stack[..|stack| - 1])
  }

  lemma StackSizePush(stack: seq<Frame>, f: Frame)
    ensures StackSize(stack + [f]) == ListSize(f.1) + 1 + StackSize(stack)
  {
    assert (stack + [f])[..|stack|] == stack;
  }

  /** Every name in the tree is a valid entry name. */
  ghost predicate WellNamed(es: seq<Entry>)
    decreases ListSize(es), 1
  {
    es != [] ==> WellNamedEntry(es[0]) && WellNamed(es[1..])
  }

  ghost predicate WellNamedEntry(e: Entry)
    decreases EntrySize(e), 0
  {
    EntryName(e.name) && (e.Dir? ==> WellNamed(e.entries))
  }

  ghost predicate WellNamedStack(stack: seq<Frame>)
  {
    forall i :: 0 <= i < |stack| ==> WellNamed(stack[i].1)
  }

  // ---------------------------------------------------------------------------
  // The traversal

  /** The events of the loop from the stack `stack` on. */
  ghost function Walk(ignored: set<string>, stack: seq<Frame>): seq<Event>
    decreases StackSize(stack), 0
  {
    if stack == [] then []
    else
      var top := stack[|stack| - 1];
      [Enter(top.0)] + Scan(ignored, top.0, top.1, stack[..|stack| - 1])
  }

  /** The events of the loop while the entries `es` of the directory `dir` remain to be met. */
  ghost function Scan(ignored: set<string>, dir: string, es: seq<Entry>, stack: seq<Frame>): seq<Event>
    decreases ListSize(es) + StackSize(stack), 1
  {
    if es == [] then Walk(ignored, stack)
    else
      match es[0]
      case File(name) => [FileSeen(Join(dir, name))] + Scan(ignored, dir, es[1..], stack)
      case Dir(name, sub) =>
        var path := Join(dir, name);
        var pushed := !IsIgnorable(ignored, SliceAfterLast(path, '/'));
        StackSizePush(stack, (path, sub));
        assert ListSize(es) == 2 + ListSize(sub) + ListSize(es[1..]);
        [FolderSeen(path, pushed)] + Scan(ignored, dir, es[1..], if pushed then stack + [(path, sub)] else stack)
  }

  /** The loop pops the top of a nonempty stack and starts on its entries. */
  lemma WalkPop(ignored: set<string>, stack: seq<Frame>)
    requires stack != []
    ensures Walk(ignored, stack) == [Enter(stack[|stack| - 1].0)] + Scan(ignored, stack[|stack| - 1].0, stack[|stack| - 1].1, stack[..|stack| - 1])
  {
  }

  /** After the last entry of a directory the loop goes back to the stack. */
  lemma ScanDone(ignored: set<string>, dir: string, es: seq<Entry>, stack: seq<Frame>)
    ensures Scan(ignored, dir, es[|es|..], stack) == Walk(ignored, stack)
  {
    assert es[|es|..] == [];
  }

  /** The entry `j` of a directory is a file: one event, the stack as it is. */
  lemma ScanFileAt(ignored: set<string>, dir: string, es: seq<Entry>, j: nat, stack: seq<Frame>)
    requires j < |es| && es[j].File?
    ensures Scan(ignored, dir, es[j..], stack) == [FileSeen(Join(dir, es[j].name))] + Scan(ignored, dir, es[j + 1..], stack)
  {
    assert es[j..][0] == es[j] && es[j..][1..] == es[j + 1..];
  }

  /** The stack after the folder `e` met in `dir`, with the test on the last component of its path. */
  function AfterFolder(ignored: set<string>, dir: string, e: Entry, stack: seq<Frame>): seq<Frame>
    requires e.Dir?
  {
    var path := Join(dir, e.name);
    if IsIgnorable(ignored, SliceAfterLast(path, '/')) then stack else stack + [(path, e.entries)]
  }

  /** The entry `j` of a directory is a folder: one event, and the folder pushed unless it is ignorable. */
  lemma ScanDirAt(ignored: set<string>, dir: string, es: seq<Entry>, j: nat, stack: seq<Frame>)
    requires j < |es| && es[j].Dir?
    ensures var path := Join(dir, es[j].name);
      Scan(ignored, dir, es[j..], stack)
      == [FolderSeen(path, !IsIgnorable(ignored, SliceAfterLast(path, '/')))]
         + Scan(ignored, dir, es[j + 1..], AfterFolder(ignored, dir, es[j], stack))
  {
    assert es[j..][0] == es[j] && es[j..][1..] == es[j + 1..];
  }

  /** How far the loop is from its end: the measure of Scan, which each step lowers. */
  lemma ScanMeasure(dir: string, es: seq<Entry>, j: nat, stack: seq<Frame>)
    requires j < |es|
    ensures ListSize(es[j..]) == EntrySize(es[j]) + ListSize(es[j + 1..])
    ensures es[j].Dir? ==> ListSize(es[j..]) + StackSize(stack) > ListSize(es[j + 1..]) + StackSize(stack + [(Join(dir, es[j].name), es[j].entries)])
  {
    assert es[j..][0] == es[j] && es[j..][1..] == es[j + 1..];
    if es[j].Dir? {
      StackSizePush(stack, (Join(dir, es[j].name), es[j].entries));
    }
  }

  /** The paths of the files met, in order. */
  function FilePaths(ev: seq<Event>): seq<string>
  {
    if ev == [] then [] else (if ev[0].FileSeen? then [ev[0].path] else []) + FilePaths(ev[1..])
  }

  /** The directories popped, in order. */
  function Entered(ev: seq<Event>): seq<string>
  {
    if ev == [] then [] else (if ev[0].Enter? then [ev[0].path] else []) + Entered(ev[1..])
  }

  lemma {:induction false} FilePathsAppend(a: seq<Event>, b: seq<Event>)
    ensures FilePaths(a + b) == FilePaths(a) + FilePaths(b)
    ensures Entered(a + b) == Entered(a) + Entered(b)
  {
    if a != [] {
      assert (a + b)[0] == a[0] && (a + b)[1..] == a[1..] + b;
      FilePathsAppend(a[1..], b);
    } else {
      assert a + b == b;
    }
  }

  lemma EventsCons(e: Event, r: seq<Event>)
    ensures FilePaths([e] + r) == (if e.FileSeen? then [e.path] else []) + FilePaths(r)
    ensures Entered([e] + r) == (if e.Enter? then [e.path] else []) + Entered(r)
  {
    assert ([e] + r)[0] == e && ([e] + r)[1..] == r;
  }

  lemma FilePathsSnoc(done: seq<Event>, e: Event)
    ensures FilePaths(done + [e]) == FilePaths(done) + (if e.FileSeen? then [e.path] else [])
    ensures Entered(done + [e]) == Entered(done) + (if e.Enter? then [e.path] else [])
  {
    FilePathsAppend(done, [e]);
    EventsCons(e, []);
    assert [e] + [] == [e];
  }

  // ---------------------------------------------------------------------------
  // What the traversal reaches

  /** The files below the entries `es` of `dir`, not looking inside ignorable folders. */
  ghost function TreeFiles(ignored: set<string>, dir: string, es: seq<Entry>): multiset<string>
    decreases ListSize(es), 1
  {
    if es == [] then multiset{} else EntryFiles(ignored, dir, es[0]) + TreeFiles(ignored, dir, es[1..])
  }

  ghost function EntryFiles(ignored: set<string>, dir: string, e: Entry): multiset<string>
    decreases EntrySize(e), 0
  {
    match e
    case File(name) => multiset{Join(dir, name)}
    case Dir(name, sub) => if IsIgnorable(ignored, name) then multiset{} else TreeFiles(ignored, Join(dir, name), sub)
  }

  /** The folders below the entries `es` of `dir` that are not ignorable and not inside an ignorable one. */
  ghost function TreeFolders(ignored: set<string>, dir: string, es: seq<Entry>): multiset<string>
    decreases ListSize(es), 1
  {
    if es == [] then multiset{} else EntryFolders(ignored, dir, es[0]) + TreeFolders(ignored, dir, es[1..])
  }

  ghost function EntryFolders(ignored: set<string>, dir: string, e: Entry): multiset<string>
    decreases EntrySize(e), 0
  {
    match e
    case File(_) => multiset{}
    case Dir(name, sub) =>
      if IsIgnorable(ignored, name) then multiset{}
      else multiset{Join(dir, name)} + TreeFolders(ignored, Join(dir, name), sub)
  }

  /** The files still to be reached from the directories on the stack. */
  ghost function StackFiles(ignored: set<string>, stack: seq<Frame>): multiset<string>
  {
    if stack == [] then multiset{}
    else TreeFiles(ignored, stack[|stack| - 1].0, stack[|stack| - 1].1) + StackFiles(ignored, stack[..|stack| - 1])
  }

  /** The directories still to be popped from the stack: each one on it, and the folders below it. */
  ghost function StackFolders(ignored: set<string>, stack: seq<Frame>): multiset<string>
  {
    if stack == [] then multiset{}
    else
      multiset{stack[|stack| - 1].0} + TreeFolders(ignored, stack[|stack| - 1].0, stack[|stack| - 1].1)
      + StackFolders(ignored, stack[..|stack| - 1])
  }

  lemma StackPush(ignored: set<string>, stack: seq<Frame>, f: Frame)
    ensures StackFiles(ignored, stack + [f]) == TreeFiles(ignored, f.0, f.1) + StackFiles(ignored, stack)
    ensures StackFolders(ignored, stack + [f]) == multiset{f.0} + TreeFolders(ignored, f.0, f.1) + StackFolders(ignored, stack)
  {
    assert (stack + [f])[..|stack|] == stack;
  }

  lemma WellNamedPop(stack: seq<Frame>)
    requires stack != [] && WellNamedStack(stack)
    ensures WellNamed(stack[|stack| - 1].1) && WellNamedStack(stack[..|stack| - 1])
  {
    var rest := stack[..|stack| - 1];
    forall i | 0 <= i < |rest| ensures WellNamed(rest[i].1) {
      assert rest[i] == stack[i];
    }
  }

  lemma WellNamedPush(stack: seq<Frame>, f: Frame)
    requires WellNamedStack(stack) && WellNamed(f.1)
    ensures WellNamedStack(stack + [f])
  {
    forall i | 0 <= i < |stack| + 1 ensures WellNamed((stack + [f])[i].1) {
      if i < |stack| {
        assert (stack + [f])[i] == stack[i];
      }
    }
  }

  /**
   * The traversal from a stack meets every file below the directories on it
   * once, and pops each of those directories and every folder below them
   * that is neither ignorable nor inside an ignorable one once.
   */
  lemma {:induction false} WalkReaches(ignored: set<string>, stack: seq<Frame>)
    requires WellNamedStack(stack)
    ensures multiset(FilePaths(Walk(ignored, stack))) == StackFiles(ignored, stack)
    ensures multiset(Entered(Walk(ignored, stack))) == StackFolders(ignored, stack)
    decreases StackSize(stack), 0
  {
    if stack != [] {
      var top := stack[|stack| - 1];
      var rest := stack[..|stack| - 1];
      WellNamedPop(stack);
      ScanReaches(ignored, top.0, top.1, rest);
      var scan := Scan(ignored, top.0, top.1, rest);
      assert Walk(ignored, stack) == [Enter(top.0)] + scan;
      EventsCons(Enter(top.0), scan);
    }
  }

  /** What ScanReaches states about the files Scan meets. */
  ghost predicate FilesMeet(ignored: set<string>, dir: string, es: seq<Entry>, stack: seq<Frame>)
  {
    multiset(FilePaths(Scan(ignored, dir, es, stack))) == TreeFiles(ignored, dir, es) + StackFiles(ignored, stack)
  }

  /** What ScanReaches states about the directories Scan pops. */
  ghost predicate FoldersMeet(ignored: set<string>, dir: string, es: seq<Entry>, stack: seq<Frame>)
  {
    multiset(Entered(Scan(ignored, dir, es, stack))) == TreeFolders(ignored, dir, es) + StackFolders(ignored, stack)
  }

  /** Scan on a file entry: one event, and the rest of the entries with the same stack. */
  lemma ScanFile(ignored: set<string>, dir: string, es: seq<Entry>, stack: seq<Frame>)
    requires es != [] && es[0].File?
    ensures Scan(ignored, dir, es, stack) == [FileSeen(Join(dir, es[0].name))] + Scan(ignored, dir, es[1..], stack)
  {
  }

  lemma ScanFileFiles(ignored: set<string>, dir: string, es: seq<Entry>, stack: seq<Frame>)
    requires es != [] && es[0].File?
    requires FilesMeet(ignored, dir, es[1..], stack)
    ensures FilesMeet(ignored, dir, es, stack)
  {
    var ev := FileSeen(Join(dir, es[0].name));
    ScanFile(ignored, dir, es, stack);
    EventsCons(ev, Scan(ignored, dir, es[1..], stack));
    assert TreeFiles(ignored, dir, es) == multiset{ev.path} + TreeFiles(ignored, dir, es[1..]);
  }

  lemma ScanFileFolders(ignored: set<string>, dir: string, es: seq<Entry>, stack: seq<Frame>)
    requires es != [] && es[0].File?
    requires FoldersMeet(ignored, dir, es[1..], stack)
    ensures FoldersMeet(ignored, dir, es, stack)
  {
    var ev := FileSeen(Join(dir, es[0].name));
    ScanFile(ignored, dir, es, stack);
    EventsCons(ev, Scan(ignored, dir, es[1..], stack));
    assert TreeFolders(ignored, dir, es) == TreeFolders(ignored, dir, es[1..]);
  }

  /** The stack after meeting the folder `e` of `dir`. */
  function PushFolder(ignored: set<string>, dir: string, e: Entry, stack: seq<Frame>): seq<Frame>
    requires e.Dir?
  {
    if IsIgnorable(ignored, e.name) then stack else stack + [(Join(dir, e.name), e.entries)]
  }

  /** Scan on a folder entry, with the ignore test read on the entry's own name. */
  lemma ScanFolder(ignored: set<string>, dir: string, es: seq<Entry>, stack: seq<Frame>)
    requires es != [] && es[0].Dir? && EntryName(es[0].name)
    ensures Scan(ignored, dir, es, stack)
         == [FolderSeen(Join(dir, es[0].name), !IsIgnorable(ignored, es[0].name))]
            + Scan(ignored, dir, es[1..], PushFolder(ignored, dir, es[0], stack))
  {
    JoinLastComponent(dir, es[0].name);
  }

  lemma ScanDirFiles(ignored: set<string>, dir: string, es: seq<Entry>, stack: seq<Frame>)
    requires es != [] && es[0].Dir? && EntryName(es[0].name)
    requires FilesMeet(ignored, dir, es[1..], PushFolder(ignored, dir, es[0], stack))
    ensures FilesMeet(ignored, dir, es, stack)
  {
    var e := es[0];
    var path := Join(dir, e.name);
    ScanFolder(ignored, dir, es, stack);
    EventsCons(FolderSeen(path, !IsIgnorable(ignored, e.name)), Scan(ignored, dir, es[1..], PushFolder(ignored, dir, e, stack)));
    assert TreeFiles(ignored, dir, es) == EntryFiles(ignored, dir, e) + TreeFiles(ignored, dir, es[1..]);
    if !IsIgnorable(ignored, e.name) {
      StackPush(ignored, stack, (path, e.entries));
    }
  }

  lemma ScanDirFolders(ignored: set<string>, dir: string, es: seq<Entry>, stack: seq<Frame>)
    requires es != [] && es[0].Dir? && EntryName(es[0].name)
    requires FoldersMeet(ignored, dir, es[1..], PushFolder(ignored, dir, es[0], stack))
    ensures FoldersMeet(ignored, dir, es, stack)
  {
    var e := es[0];
    var path := Join(dir, e.name);
    ScanFolder(ignored, dir, es, stack);
    EventsCons(FolderSeen(path, !IsIgnorable(ignored, e.name)), Scan(ignored, dir, es[1..], PushFolder(ignored, dir, e, stack)));
    assert TreeFolders(ignored, dir, es) == EntryFolders(ignored, dir, e) + TreeFolders(ignored, dir, es[1..]);
    if !IsIgnorable(ignored, e.name) {
      StackPush(ignored, stack, (path, e.entries));
    }
  }

  lemma {:induction false} ScanReaches(ignored: set<string>, dir: string, es: seq<Entry>, stack: seq<Frame>)
    requires WellNamed(es) && WellNamedStack(stack)
    ensures FilesMeet(ignored, dir, es, stack) && FoldersMeet(ignored, dir, es, stack)
    decreases ListSize(es) + StackSize(stack), 1
  {
    if es == [] {
      WalkReaches(ignored, stack);
    } else if es[0].File? {
      ScanReaches(ignored, dir, es[1..], stack);
      ScanFileFiles(ignored, dir, es, stack);
      ScanFileFolders(ignored, dir, es, stack);
    } else {
      var stack' := PushFolder(ignored, dir, es[0], stack);
      StackSizePush(stack, (Join(dir, es[0].name), es[0].entries));
      assert ListSize(es) == 2 + ListSize(es[0].entries) + ListSize(es[1..]);
      if !IsIgnorable(ignored, es[0].name) {
        WellNamedPush(stack, (Join(dir, es[0].name), es[0].entries));
      }
      ScanReaches(ignored, dir, es[1..], stack');
      ScanDirFiles(ignored, dir, es, stack);
      ScanDirFolders(ignored, dir, es, stack);
    }
  }

  /**
   * A traversal from the root alone: every file below the root is met once,
   * and the root and every folder that is neither ignorable nor inside an
   * ignorable one are popped once.
   */
  lemma CrawlReaches(ignored: set<string>, root: string, es: seq<Entry>)
    requires WellNamed(es)
    ensures multiset(FilePaths(Walk(ignored, [(root, es)]))) == TreeFiles(ignored, root, es)
    ensures multiset(Entered(Walk(ignored, [(root, es)]))) == multiset{root} + TreeFolders(ignored, root, es)
  {
    var stack := [(root, es)];
    assert stack[..0] == [];
    WalkReaches(ignored, stack);
  }
}
