/**
 * TrieSearch (src/common/trie.cpp): the filename index. The class owns the
 * root of a tree of nodes; every public operation either walks the tree from
 * the root or replaces the root. Each method is proved against the functions
 * of TrieEdit, TrieCollect and TrieSnapshot, and through them against the
 * abstract map from stored filename to FileInfo.
 */
module Trie {
  import opened Wrappers
  import opened TrieNodes
  import opened TrieEdit
  import opened TrieCollect
  import opened TrieBfs
  import opened TrieSnapshot

  /**
   * The tree obtained by hanging `n` back under the nodes of `spine`, the
   * innermost last: each entry is a node passed on the way down with the edge
   * taken from it. insert's walk updates those nodes in place; on values the
   * walk keeps them and re-attaches the changed child on the way back.
   */
  function Wrap(spine: seq<(Node, char)>, n: Node): Node
    decreases |spine|
  {
    if spine == [] then n
    else
      var (parent, c) := spine[|spine| - 1];
      Wrap(spine[..|spine| - 1], parent.(children := parent.children[c := n]))
  }

  /** What search_prefix collects: nothing when the prefix leads nowhere, else collect_all_files from its node. */
  function Collected(t: Node, prefix: string, ord: ChildOrder): seq<(string, FileInfo)>
  {
    match Find(t, prefix)
    case None => []
    case Some(n) => Dfs(n, prefix, ord)
  }

  /** search_prefix yields every stored key that starts with the prefix, each exactly once. */
  lemma CollectedMatches(t: Node, prefix: string, ord: ChildOrder)
    requires ValidOrder(ord)
    ensures forall e :: e in Collected(t, prefix, ord) <==> e in Matches(t, prefix)
    ensures NoDup(Collected(t, prefix, ord))
    ensures |Collected(t, prefix, ord)| == |Matches(t, prefix)|
  {
    EntriesAreMatches(t, prefix);
    match Find(t, prefix)
    case None =>
    case Some(n) =>
      DfsEntries(n, prefix, ord);
      DfsCount(n, prefix, ord);
  }

  /** The records of matches are records the trie stores. */
  lemma MatchesStored(t: Node, prefix: string, found: seq<(string, FileInfo)>)
    requires forall e :: e in found ==> e in Matches(t, prefix)
    ensures forall i :: 0 <= i < |Infos(found)| ==> Infos(found)[i] in Contents(t).Values
  {
    InfosAt(found);
    forall i | 0 <= i < |found|
      ensures Infos(found)[i] in Contents(t).Values
    {
      MatchesContents(t, prefix, found[i]);
    }
  }

  /** A walk that fails on a prefix of `k` fails on `k`. */
  lemma FindMissing(t: Node, k: string, i: nat)
    requires i <= |k| && Find(t, k[..i]).None?
    ensures Find(t, k).None?
  {
    assert k == k[..i] + k[i..];
    FindAppend(t, k[..i], k[i..]);
  }

  /** One step of the walk from the root. */
  lemma FindStep(t: Node, k: string, i: nat, n: Node)
    requires i < |k| && Find(t, k[..i]) == Some(n)
    ensures Find(t, k[..i + 1]) == GetChild(n, k[i])
  {
    assert k[..i + 1] == k[..i] + [k[i]];
    FindSnoc(t, k[..i], k[i]);
  }

  /** One step of insert's walk: the remaining insertion below `n` is the child's, re-attached to `n` after add_child. */
  lemma InsertStep(spine: seq<(Node, char)>, n: Node, k: string, i: nat, info: FileInfo)
    requires i < |k|
    ensures Wrap(spine, InsertAt(n, k[i..], info))
         == Wrap(spine + [(AddChild(n, k[i]).0, k[i])], InsertAt(AddChild(n, k[i]).1, k[i + 1..], info))
  {
    assert k[i..][0] == k[i] && k[i..][1..] == k[i + 1..];
    assert (spine + [(AddChild(n, k[i]).0, k[i])])[..|spine|] == spine;
  }

  /** One turn of collect_all_files's loop: the child's records follow those collected so far. */
  lemma CollectStep(results: seq<FileInfo>, own: seq<(string, FileInfo)>, t: Node, p: string, cs: seq<char>, i: nat, ord: ChildOrder)
    requires i < |cs| && cs[i] in t.children
    ensures results + Infos(own + DfsChildren(t, p, cs[..i], ord)) + Infos(Dfs(t.children[cs[i]], p + [cs[i]], ord))
         == results + Infos(own + DfsChildren(t, p, cs[..i + 1], ord))
  {
    DfsChildrenSnoc(t, p, cs, i, ord);
    InfosRegroup(results, own, DfsChildren(t, p, cs[..i], ord), Dfs(t.children[cs[i]], p + [cs[i]], ord));
  }

  lemma InfosRegroup(results: seq<FileInfo>, a: seq<(string, FileInfo)>, b: seq<(string, FileInfo)>, c: seq<(string, FileInfo)>)
    ensures results + Infos(a + b) + Infos(c) == results + Infos(a + (b + c))
  {
    InfosAppend(a + b, c);
    Regroup(a, b, c);
    Regroup(results, Infos(a + b), Infos(c));
  }

  /** Recording one more entry appends its record. */
  lemma InfosSnoc(results: seq<FileInfo>, found: seq<(string, FileInfo)>, e: (string, FileInfo))
    ensures results + Infos(found) + [e.1] == results + Infos(found + [e])
  {
    InfosAppend(found, [e]);
    assert Infos([e]) == [e.1];
    Regroup(results, Infos(found), [e.1]);
  }

  /**
   * A snapshot read back gives the tree up to the records of non-leaf nodes,
   * and so the same stored keys; a pruned trie comes back pruned, so remove's
   * answer keeps its meaning on a loaded trie.
   */
  lemma SnapshotRoundTrip(t: Node, ord: ChildOrder)
    requires ValidOrder(ord) && Encodable(t)
    ensures DecodeNode(EncodeNode(t, [], ord)) == Some((Canonical(t), []))
    ensures Contents(DecodeNode(EncodeNode(t, [], ord)).value.0) == Contents(t)
    ensures Pruned(t) ==> Pruned(DecodeNode(EncodeNode(t, [], ord)).value.0)
  {
    assert EncodeNode(t, [], ord) + [] == EncodeNode(t, [], ord);
    DecodeEncodeNode(t, [], ord, []);
    CanonicalContents(t);
    if Pruned(t) {
      CanonicalPruned(t);
    }
  }

  class TrieSearch {
    var root: Node

    /** TrieSearch(): a root that is neither a leaf nor a parent. */
    constructor ()
      ensures root == NewNode
      ensures Contents(root) == map[] && Pruned(root)
    {
      root := NewNode;
      PrunedEmpty(NewNode);
      assert Keys(NewNode) == {};
    }

    /** The walk from the root along `k` with get_child, shared by search and the prefix queries. */
    method Descend(k: string) returns (n: Option<Node>)
      ensures n == Find(root, k)
    {
      var current := root;
      for i := 0 to |k|
        invariant Find(root, k[..i]) == Some(current)
      {
        FindStep(root, k, i, current);
        match GetChild(current, k[i])
        case None =>
          FindMissing(root, k, i + 1);
          return None;
        case Some(child) =>
          current := child;
      }
      assert k[..|k|] == k;
      n := Some(current);
    }

    /** insert: one add_child per character, then the node reached becomes a leaf with the new record. */
    method Insert(filename: string, absolutePath: string, extension: string)
      modifies this
      ensures root == InsertAt(old(root), filename, FileInfo(filename, absolutePath, extension))
      ensures Contents(root) == old(Contents(root))[filename := FileInfo(filename, absolutePath, extension)]
      ensures old(Pruned(root)) ==> Pruned(root)
    {
      var info := FileInfo(filename, absolutePath, extension);
      ghost var target := InsertAt(root, filename, info);
      var current := root;
      var spine: seq<(Node, char)> := [];
      for i := 0 to |filename|
        invariant Wrap(spine, InsertAt(current, filename[i..], info)) == target
      {
        InsertStep(spine, current, filename, i, info);
        var (parent, child) := AddChild(current, filename[i]);
        spine := spine + [(parent, filename[i])];
        current := child;
      }
      assert filename[|filename|..] == [];
      current := current.(isLeaf := true, info := info);
      assert spine[..|spine|] == spine;
      var j := |spine|;
      while j > 0
        invariant 0 <= j <= |spine|
        invariant Wrap(spine[..j], current) == target
      {
        assert spine[..j][..j - 1] == spine[..j - 1];
        var (parent, c) := spine[j - 1];
        current := parent.(children := parent.children[c := current]);
        j := j - 1;
      }
      root := current;
      InsertContents(old(root), filename, info);
      if Pruned(old(root)) {
        InsertPruned(old(root), filename, info);
      }
    }

    /** search: the filename is stored exactly when the walk ends on a leaf. */
    method Search(filename: string) returns (found: bool)
      ensures found <==> filename in Contents(root)
      ensures found <==> Lookup(root, filename).Some?
    {
      var n := Descend(filename);
      found := n.Some? && n.value.isLeaf;
      ContentsLookup(root, filename);
    }

    /**
     * collect_all_files: appends the records below `t` in depth-first order,
     * the node's own record before its children's.
     */
    method CollectAllFiles(t: Node, p: string, ord: ChildOrder, results: seq<FileInfo>) returns (out: seq<FileInfo>)
      requires ValidOrder(ord)
      ensures out == results + Infos(Dfs(t, p, ord))
      decreases t
    {
      out := results;
      var own: seq<(string, FileInfo)> := [];
      if t.isLeaf {
        out := out + [t.info];
        own := [(p, t.info)];
      }
      var cs := ord(p, t.children.Keys);
      assert ListsKeys(ord, p, t.children.Keys);
      for i := 0 to |cs|
        invariant out == results + Infos(own + DfsChildren(t, p, cs[..i], ord))
      {
        var c := cs[i];
        assert c in t.children;
        out := CollectAllFiles(t.children[c], p + [c], ord, out);
        CollectStep(results, own, t, p, cs, i, ord);
      }
      assert cs[..|cs|] == cs;
    }

    /** search_prefix: the records of every stored filename that starts with `prefix`, each exactly once. */
    method SearchPrefix(prefix: string, ord: ChildOrder) returns (results: seq<FileInfo>, ghost found: seq<(string, FileInfo)>)
      requires ValidOrder(ord)
      ensures results == Infos(found)
      ensures forall e :: e in found <==> e in Matches(root, prefix)
      ensures NoDup(found)
      ensures |results| == |Matches(root, prefix)|
      ensures forall i :: 0 <= i < |results| ==> results[i] in Contents(root).Values
    {
      found := Collected(root, prefix, ord);
      CollectedMatches(root, prefix, ord);
      MatchesStored(root, prefix, found);
      results := [];
      var n := Descend(prefix);
      if n.None? {
        return;
      }
      results := CollectAllFiles(n.value, prefix, ord, results);
    }

    /**
     * collect_n_files: a breadth-first walk from `t` that stops as soon as
     * `results` holds `n` records. It collects distinct entries below `t`, as
     * many as it may, shortest paths first, and no entry it leaves out is
     * shorter than one it collects.
     */
    method CollectNFiles(t: Node, p: string, results: seq<FileInfo>, n: int, ord: ChildOrder)
      returns (out: seq<FileInfo>, ghost found: seq<(string, FileInfo)>)
      requires ValidOrder(ord)
      ensures out == results + Infos(found)
      ensures FirstN(t, p, |results|, n, found)
    {
      out, found := results, [];
      assert out == results + Infos(found);
      if n <= 0 {
        return;
      }
      var q := [(t, p)];
      BfsStart(t, p);
      while q != [] && |out| < n
        invariant out == results + Infos(found)
        invariant BfsInv(t, p, q, found)
        invariant |results| < n ==> |out| <= n
        invariant n <= |results| ==> found == []
        decreases QueueSize(q, ord)
      {
        var (current, path) := q[0];
        BfsStep(t, p, q, found, ord);
        ghost var next := Next(q, ord);
        ghost var found' := found + Own(q[0]);
        q := q[1..];
        if current.isLeaf {
          out := out + [current.info];
          InfosSnoc(results, found, (path, current.info));
          found := found + [(path, current.info)];
          assert found == found';
          if |out| >= n {
            BfsResult(t, p, next, found, |results|, n);
            return;
          }
        }
        q := PushChildren(q, current, path, ord);
        assert q == next;
        assert found == found';
      }
      BfsResult(t, p, q, found, |results|, n);
    }

    /** The inner loop of collect_n_files: every child of `current`, with its path, joins the back of the queue. */
    method PushChildren(q: seq<(Node, string)>, current: Node, path: string, ord: ChildOrder) returns (q': seq<(Node, string)>)
      requires ValidOrder(ord)
      ensures q' == q + ChildPairs(current, path, ord(path, current.children.Keys))
    {
      var cs := ord(path, current.children.Keys);
      assert ListsKeys(ord, path, current.children.Keys);
      q' := q;
      for i := 0 to |cs|
        invariant q' == q + ChildPairs(current, path, cs[..i])
      {
        var c := cs[i];
        assert c in current.children;
        ChildPairsSnoc(current, path, cs, i);
        q' := q' + [(current.children[c], path + [c])];
      }
      assert cs[..|cs|] == cs;
    }

    /**
     * search_prefix_n_results: at most `numResults` records of filenames
     * starting with `prefix`, all distinct matches, as many as there are up to
     * that bound, shortest filenames first.
     */
    method SearchPrefixNResults(prefix: string, numResults: int, ord: ChildOrder)
      returns (results: seq<FileInfo>, ghost found: seq<(string, FileInfo)>)
      requires ValidOrder(ord)
      ensures results == Infos(found)
      ensures forall e :: e in found ==> e in Matches(root, prefix)
      ensures NoDup(found)
      ensures |found| == if numResults <= 0 then 0 else Min(numResults, |Matches(root, prefix)|)
      ensures forall i, j :: 0 <= i < j < |found| ==> |found[i].0| <= |found[j].0|
      ensures forall e, i :: e in Matches(root, prefix) && e !in found && 0 <= i < |found| ==> |found[i].0| <= |e.0|
      ensures |results| == if numResults <= 0 then 0 else Min(numResults, |Matches(root, prefix)|)
      ensures forall i :: 0 <= i < |results| ==> results[i] in Contents(root).Values
    {
      results, found := [], [];
      EntriesAreMatches(root, prefix);
      var n := Descend(prefix);
      if n.None? {
        return;
      }
      results, found := CollectNFiles(n.value, prefix, results, numResults, ord);
      MatchesStored(root, prefix, found);
    }

    /**
     * remove: the filename is no longer stored and nothing else changes. The
     * boolean is remove_helper's answer for the root: on a pruned trie, true
     * exactly when the filename was stored and no filename is left.
     */
    method Remove(filename: string) returns (erased: bool)
      modifies this
      ensures (erased, root) == RemoveAt(old(root), filename)
      ensures Contents(root) == old(Contents(root)) - {filename}
      ensures old(Pruned(root)) ==> Pruned(root)
      ensures old(Pruned(root)) ==> (erased <==> filename in old(Contents(root)) && Contents(root) == map[])
    {
      var (e, r) := RemoveAt(root, filename);
      erased, root := e, r;
      RemoveContents(old(root), filename);
      if Pruned(old(root)) {
        RemovePruned(old(root), filename);
        RemoveResult(old(root), filename);
      }
    }

    /**
     * save: when the file opens, its contents become the pre-order record of
     * the whole tree; when it does not, nothing is written.
     */
    method Save(canOpen: bool, ord: ChildOrder) returns (file: Option<seq<byte>>)
      requires ValidOrder(ord) && Encodable(root)
      ensures canOpen ==> file == Some(EncodeNode(root, [], ord))
      ensures !canOpen ==> file == None
    {
      if !canOpen {
        return None;
      }
      var w := new ByteWriter();
      SaveNode(root, [], ord, w);
      assert w.data == [] + EncodeNode(root, [], ord) == EncodeNode(root, [], ord);
      file := Some(w.data);
    }

    /**
     * load: a file that does not open leaves the trie as it is; otherwise the
     * root is replaced by the tree read from the start of the file.
     */
    method Load(file: Option<seq<byte>>)
      requires file.Some? ==> DecodeNode(file.value).Some?
      modifies this
      ensures file.None? ==> root == old(root)
      ensures file.Some? ==> root == DecodeNode(file.value).value.0
    {
      if file.None? {
        return;
      }
      var r := new ByteReader(file.value);
      assert r.Unread() == file.value;
      root := LoadNode(r);
    }
  }
}
