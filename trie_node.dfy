/**
 * The nodes of the filename trie (TrieNode in src/common/trie.cpp) as an owned
 * tree of values, and the abstraction every trie operation is stated against:
 * the map from a stored filename to the FileInfo its leaf node carries.
 */
module TrieNodes {
  import opened Wrappers

  /** The record a leaf node carries (struct FileInfo in include/trie.h). */
  datatype FileInfo = FileInfo(filename: string, absolutePath: string, extension: string)

  /** `FileInfo() = default`: three empty strings. */
  const EmptyInfo: FileInfo := FileInfo("", "", "")

  /**
   * A trie node. `children` is the node's unordered_map<char, TrieNode*>; each
   * node exclusively owns its children, so a tree of values models it exactly.
   * `info` is only meaningful when `isLeaf` holds.
   */
  datatype Node = Node(isLeaf: bool, info: FileInfo, children: map<char, Node>)

  /** `new TrieNode()`: not a leaf, default FileInfo, no children. */
  const NewNode: Node := Node(false, EmptyInfo, map[])

  /** TrieNode::get_child: the child under edge `c`, or no node (nullptr). */
  function GetChild(n: Node, c: char): (r: Option<Node>)
    ensures r.Some? <==> c in n.children
    ensures r.Some? ==> r.value == n.children[c]
  {
    if c in n.children then Some(n.children[c]) else None
  }

  /**
   * TrieNode::add_child: makes sure an edge `c` exists and yields the updated
   * node together with the child under `c`. An existing child is reused as is.
   */
  function AddChild(n: Node, c: char): (r: (Node, Node))
    ensures r.0.isLeaf == n.isLeaf && r.0.info == n.info
    ensures c in r.0.children && r.0.children[c] == r.1
    ensures r.0.children.Keys == n.children.Keys + {c}
    ensures c in n.children ==> r.0 == n && r.1 == n.children[c]
    ensures c !in n.children ==> r.1 == NewNode && r.0.children == n.children[c := NewNode]
  {
    if c in n.children then (n, n.children[c]) else (n.(children := n.children[c := NewNode]), NewNode)
  }

  // ---------------------------------------------------------------------------
  // Walking a path and the abstraction

  /** The node reached from `t` by following the edges labelled `k`, if every edge exists. */
  function Find(t: Node, k: string): Option<Node>
    decreases |k|
  {
    if k == [] then Some(t)
    else match GetChild(t, k[0])
      case None => None
      case Some(child) => Find(child, k[1..])
  }

  /** The FileInfo stored under key `k`: present exactly when the node at `k` exists and is a leaf. */
  function Lookup(t: Node, k: string): Option<FileInfo>
  {
    match Find(t, k)
    case None => None
    case Some(n) => if n.isLeaf then Some(n.info) else None
  }

  /** The keys stored in the tree under `t`, defined by structure rather than by walking. */
  ghost function Keys(t: Node): set<string>
  {
    (if t.isLeaf then {[]} else {}) + (set c, k | c in t.children && k in Keys(t.children[c]) :: [c] + k)
  }

  ghost function InfoAt(t: Node, k: string): FileInfo
  {
    match Lookup(t, k)
    case Some(i) => i
    case None => EmptyInfo
  }

  /** The abstract value of a trie: every stored key with the FileInfo of its leaf. */
  ghost function Contents(t: Node): map<string, FileInfo>
  {
    map k | k in Keys(t) :: InfoAt(t, k)
  }

  /** Following `p` and then `k` is following `p + k`. */
  lemma {:induction false} FindAppend(t: Node, p: string, k: string)
    ensures Find(t, p + k) == (match Find(t, p) case None => None case Some(n) => Find(n, k))
    decreases |p|
  {
    if p == [] {
      assert p + k == k;
    } else {
      assert (p + k)[0] == p[0] && (p + k)[1..] == p[1..] + k;
      assert Find(t, p + k) == (match GetChild(t, p[0]) case None => None case Some(child) => Find(child, p[1..] + k));
      if p[0] in t.children {
        FindAppend(t.children[p[0]], p[1..], k);
      }
    }
  }

  /** One more character: the node at `k + [c]` is the child `c` of the node at `k`. */
  lemma FindSnoc(t: Node, k: string, c: char)
    ensures Find(t, k + [c]) == (match Find(t, k) case None => None case Some(n) => GetChild(n, c))
  {
    FindAppend(t, k, [c]);
    match Find(t, k)
    case None =>
    case Some(n) =>
      assert Find(n, [c]) == GetChild(n, c) by {
        if c in n.children {
          assert Find(n.children[c], []) == Some(n.children[c]);
        }
      }
  }

  /** The structural key set and the walk agree: `k` is stored exactly when the walk ends on a leaf. */
  lemma {:induction false} KeysLookup(t: Node, k: string)
    ensures k in Keys(t) <==> Lookup(t, k).Some?
    decreases |k|
  {
    if k == [] {
      assert forall c: char, j: string :: |[c] + j| > 0;
    } else {
      var c, j := k[0], k[1..];
      assert k == [c] + j;
      if c in t.children {
        KeysLookup(t.children[c], j);
        if k in Keys(t) {
          assert exists c', j' :: c' in t.children && j' in Keys(t.children[c']) && k == [c'] + j';
          var c', j' :| c' in t.children && j' in Keys(t.children[c']) && k == [c'] + j';
          assert c' == c && j' == j by { assert k[0] == c' && k[1..] == j'; }
        }
      } else {
        forall c', j' | c' in t.children && j' in Keys(t.children[c']) ensures k != [c'] + j' {
          assert ([c'] + j')[0] == c';
        }
      }
    }
  }

  /** Contents is exactly what Lookup finds. */
  lemma ContentsLookup(t: Node, k: string)
    ensures k in Contents(t) <==> Lookup(t, k).Some?
    ensures k in Contents(t) ==> Contents(t)[k] == Lookup(t, k).value
  {
    KeysLookup(t, k);
  }

  /** Two trees with the same answer to every Lookup have the same Contents. */
  lemma ContentsExt(t: Node, u: Node)
    requires forall k :: Lookup(t, k) == Lookup(u, k)
    ensures Contents(t) == Contents(u)
  {
    forall k ensures k in Keys(t) <==> k in Keys(u) {
      KeysLookup(t, k);
      KeysLookup(u, k);
    }
    assert Keys(t) == Keys(u);
  }

  /** A key stored under child `c` of `t` is stored in `t` with `c` in front. */
  lemma LookupCons(t: Node, c: char, k: string)
    ensures Lookup(t, [c] + k) == (if c in t.children then Lookup(t.children[c], k) else None)
  {
    assert ([c] + k)[0] == c && ([c] + k)[1..] == k;
  }

  /**
   * get_child is one step of the walk, and the subtree it returns stores
   * exactly the keys of `n` that start with `c`, with `c` taken off.
   */
  lemma GetChildFind(n: Node, c: char)
    ensures GetChild(n, c) == Find(n, [c])
    ensures GetChild(n, c).Some? ==> forall k :: Lookup(GetChild(n, c).value, k) == Lookup(n, [c] + k)
    ensures GetChild(n, c).None? ==> forall k :: Lookup(n, [c] + k).None?
  {
    assert [c][0] == c && [c][1..] == [];
    forall k ensures Lookup(n, [c] + k) == (if c in n.children then Lookup(n.children[c], k) else None) {
      LookupCons(n, c, k);
    }
  }

  /** A node without children stores nothing. */
  lemma LookupNewNode(k: string)
    ensures Lookup(NewNode, k) == None
  {
  }

  /**
   * add_child never changes what the node stores: a new child is an empty
   * node. Afterwards the walk along `c` reaches the child it returns.
   */
  lemma AddChildContents(n: Node, c: char)
    ensures forall k :: Lookup(AddChild(n, c).0, k) == Lookup(n, k)
    ensures Contents(AddChild(n, c).0) == Contents(n)
    ensures Find(AddChild(n, c).0, [c]) == Some(AddChild(n, c).1)
  {
    var r := AddChild(n, c);
    forall k ensures Lookup(r.0, k) == Lookup(n, k) {
      if k != [] {
        assert k == [k[0]] + k[1..];
        LookupCons(r.0, k[0], k[1..]);
        LookupCons(n, k[0], k[1..]);
        if k[0] == c && c !in n.children {
          LookupNewNode(k[1..]);
        }
      }
    }
    ContentsExt(r.0, n);
    assert [c][0] == c && [c][1..] == [];
  }

  // ---------------------------------------------------------------------------
  // The structural invariant kept by insert and remove

  /**
   * No node below `t` is useless: every child subtree stores at least one key.
   * `t` itself (the root) may be empty. insert and remove keep this; a snapshot
   * read from disk need not satisfy it.
   */
  ghost predicate Pruned(t: Node)
  {
    forall c :: c in t.children ==> Keys(t.children[c]) != {} && Pruned(t.children[c])
  }

  /** A node with no stored key below it, in a pruned tree, is a bare non-leaf node without children. */
  lemma PrunedEmpty(t: Node)
    requires Pruned(t)
    ensures Keys(t) == {} <==> (!t.isLeaf && t.children == map[])
  {
    if !t.isLeaf && t.children != map[] {
      var c :| c in t.children;
      var k :| k in Keys(t.children[c]);
      assert [c] + k in Keys(t);
    }
    if t.isLeaf {
      assert [] in Keys(t);
    }
  }
}
