/**
 * The two operations of TrieSearch that change the tree (src/common/trie.cpp):
 * insert, which walks from the root creating missing children, and the
 * recursive remove_helper, which clears a leaf flag and prunes the branch
 * that is left without keys. Both are stated on the owned tree of values.
 */
module TrieEdit {
  import opened Wrappers
  import opened TrieNodes

  // ---------------------------------------------------------------------------
  // insert

  /**
   * TrieSearch::insert on the subtree `t`: one add_child per character of `k`,
   * then the node reached becomes a leaf holding `info`. Nothing but that
   * node's flag and record changes; its children are kept.
   */
  function InsertAt(t: Node, k: string, info: FileInfo): Node
    decreases |k|
  {
    if k == [] then t.(isLeaf := true, info := info)
    else
      var (t', child) := AddChild(t, k[0]);
      t'.(children := t'.children[k[0] := InsertAt(child, k[1..], info)])
  }

  /** After inserting `k`, `k` maps to the new record and every other key keeps its own. */
  lemma {:induction false} InsertLookup(t: Node, k: string, info: FileInfo, j: string)
    ensures Lookup(InsertAt(t, k, info), j) == if j == k then Some(info) else Lookup(t, j)
    decreases |k|
  {
    var u := InsertAt(t, k, info);
    if j == [] {
      assert Find(u, j) == Some(u);
    } else {
      var d, j' := j[0], j[1..];
      assert j == [d] + j';
      LookupCons(u, d, j');
      LookupCons(t, d, j');
      if k != [] {
        var c, k' := k[0], k[1..];
        assert k == [c] + k';
        if d == c {
          var child := AddChild(t, c).1;
          InsertLookup(child, k', info, j');
          if c !in t.children {
            LookupNewNode(j');
          }
        }
      }
    }
  }

  /** insert as seen through the abstraction: one entry is added or overwritten. */
  lemma InsertContents(t: Node, k: string, info: FileInfo)
    ensures Contents(InsertAt(t, k, info)) == Contents(t)[k := info]
  {
    var u := InsertAt(t, k, info);
    forall j ensures j in Contents(u) <==> j in Contents(t)[k := info]
    {
      InsertLookup(t, k, info, j);
      ContentsLookup(u, j);
      ContentsLookup(t, j);
    }
    forall j | j in Contents(u) ensures Contents(u)[j] == Contents(t)[k := info][j]
    {
      InsertLookup(t, k, info, j);
      ContentsLookup(u, j);
      ContentsLookup(t, j);
    }
  }

  /**
   * Re-inserting overwrites only the record: the node at `k` keeps the
   * children it had (a node created on the way has none).
   */
  lemma {:induction false} InsertKeepsChildren(t: Node, k: string, info: FileInfo)
    ensures Find(InsertAt(t, k, info), k).Some?
    ensures Find(InsertAt(t, k, info), k).value.children
         == (match Find(t, k) case Some(n) => n.children case None => map[])
    decreases |k|
  {
    if k != [] {
      var c, k' := k[0], k[1..];
      var child := AddChild(t, c).1;
      InsertKeepsChildren(child, k', info);
      if c !in t.children {
        assert Find(t, k) == None;
        assert Find(NewNode, k') == (if k' == [] then Some(NewNode) else None);
      }
    }
  }

  /** insert keeps every subtree below the root non-empty. */
  lemma {:induction false} InsertPruned(t: Node, k: string, info: FileInfo)
    requires Pruned(t)
    ensures Pruned(InsertAt(t, k, info))
    decreases |k|
  {
    if k != [] {
      var c, k' := k[0], k[1..];
      var child := AddChild(t, c).1;
      var u := InsertAt(t, k, info);
      InsertPruned(child, k', info);
      InsertLookup(child, k', info, k');
      KeysLookup(InsertAt(child, k', info), k');
      forall d | d in u.children
        ensures Keys(u.children[d]) != {} && Pruned(u.children[d])
      {
        if d == c {
          assert u.children[d] == InsertAt(child, k', info);
        } else {
          assert u.children[d] == t.children[d];
        }
      }
    }
  }

  // ---------------------------------------------------------------------------
  // remove

  /**
   * TrieSearch::remove_helper on the subtree `t` for the remaining key `k`.
   * Yields the boolean the C++ function returns and the subtree as the call
   * leaves it. The boolean asks the caller to erase this node: it is true only
   * when the key was stored and this node ends up neither a leaf nor a parent.
   * A missing edge, or an end node that is not a leaf, changes nothing. An end
   * node that still has children loses its leaf flag but is kept.
   */
  function RemoveAt(t: Node, k: string): (bool, Node)
    decreases |k|
  {
    if k == [] then
      if !t.isLeaf then (false, t)
      else (t.children == map[], t.(isLeaf := false))
    else
      match GetChild(t, k[0])
      case None => (false, t)
      case Some(child) =>
        var (erase, child') := RemoveAt(child, k[1..]);
        if erase then
          var rest := t.children - {k[0]};
          (!t.isLeaf && rest == map[], t.(children := rest))
        else (false, t.(children := t.children[k[0] := child']))
  }

  /** Removing a key that is not stored (missing edge or non-leaf end node) leaves the tree as it was. */
  lemma {:induction false} RemoveAbsent(t: Node, k: string)
    requires Lookup(t, k).None?
    ensures RemoveAt(t, k) == (false, t)
    decreases |k|
  {
    if k == [] {
      assert Find(t, k) == Some(t);
    } else {
      var c, k' := k[0], k[1..];
      assert k == [c] + k';
      LookupCons(t, c, k');
      if c in t.children {
        RemoveAbsent(t.children[c], k');
        assert t.children[c := t.children[c]] == t.children;
      }
    }
  }

  /**
   * The boolean of remove_helper: true exactly when the key was stored and the
   * node is left with neither a leaf flag nor a child.
   */
  lemma {:induction false} RemoveErase(t: Node, k: string)
    ensures RemoveAt(t, k).0
        <==> Lookup(t, k).Some? && !RemoveAt(t, k).1.isLeaf && RemoveAt(t, k).1.children == map[]
    decreases |k|
  {
    if k == [] {
      assert Find(t, k) == Some(t);
    } else {
      var c, k' := k[0], k[1..];
      assert k == [c] + k';
      LookupCons(t, c, k');
      if c in t.children {
        RemoveErase(t.children[c], k');
        var (erase, child') := RemoveAt(t.children[c], k');
        if !erase {
          assert c in RemoveAt(t, k).1.children;
        }
      }
    }
  }

  /** After removing `k`, `k` is no longer stored and every other key keeps its record. */
  lemma {:induction false} RemoveLookup(t: Node, k: string, j: string)
    ensures Lookup(RemoveAt(t, k).1, j) == if j == k then None else Lookup(t, j)
    decreases |k|
  {
    var u := RemoveAt(t, k).1;
    if k == [] {
      if j == [] {
        assert Find(u, j) == Some(u);
        assert Find(t, j) == Some(t);
      } else {
        assert u.children == t.children;
        LookupCons(u, j[0], j[1..]);
        LookupCons(t, j[0], j[1..]);
        assert j == [j[0]] + j[1..];
      }
    } else {
      var c, k' := k[0], k[1..];
      assert k == [c] + k';
      if c !in t.children {
        LookupCons(t, c, k');
        if j == k {
          RemoveAbsent(t, k);
        }
      } else if j == [] {
        assert Find(u, j) == Some(u);
        assert Find(t, j) == Some(t);
      } else {
        var d, j' := j[0], j[1..];
        assert j == [d] + j';
        LookupCons(u, d, j');
        LookupCons(t, d, j');
        if d == c {
          var (erase, child') := RemoveAt(t.children[c], k');
          RemoveLookup(t.children[c], k', j');
          if erase {
            RemoveErase(t.children[c], k');
            assert Lookup(child', j') == None by {
              if j' == [] {
                assert Find(child', j') == Some(child');
              } else {
                assert j' == [j'[0]] + j'[1..];
                LookupCons(child', j'[0], j'[1..]);
              }
            }
          }
        }
      }
    }
  }

  /** remove as seen through the abstraction: the key disappears, nothing else changes. */
  lemma RemoveContents(t: Node, k: string)
    ensures Contents(RemoveAt(t, k).1) == Contents(t) - {k}
  {
    var u := RemoveAt(t, k).1;
    forall j ensures j in Contents(u) <==> j in Contents(t) - {k}
    {
      RemoveLookup(t, k, j);
      ContentsLookup(u, j);
      ContentsLookup(t, j);
    }
    forall j | j in Contents(u) ensures Contents(u)[j] == Contents(t)[j]
    {
      RemoveLookup(t, k, j);
      ContentsLookup(u, j);
      ContentsLookup(t, j);
    }
  }

  /**
   * Nothing off the removal path changes: every node whose path is not a
   * prefix of `k` (in particular the whole subtree below the end node) is the
   * node it was before.
   */
  lemma {:induction false} RemoveOffPath(t: Node, k: string, j: string)
    requires !(j <= k)
    ensures Find(RemoveAt(t, k).1, j) == Find(t, j)
    decreases |k|
  {
    var u := RemoveAt(t, k).1;
    assert j != [];
    var d, j' := j[0], j[1..];
    assert j == [d] + j';
    FindAppend(u, [d], j');
    FindAppend(t, [d], j');
    assert Find(u, [d]) == GetChild(u, d) by { FindSnoc(u, [], d); assert [] + [d] == [d]; }
    assert Find(t, [d]) == GetChild(t, d) by { FindSnoc(t, [], d); assert [] + [d] == [d]; }
    if k == [] {
      assert u.children == t.children;
    } else {
      var c, k' := k[0], k[1..];
      if c in t.children && d == c {
        assert j == [c] + j' && k == [c] + k';
        assert !(j' <= k');
        RemoveOffPath(t.children[c], k', j');
        var (erase, child') := RemoveAt(t.children[c], k');
        if erase {
          RemoveErase(t.children[c], k');
          assert j' != [];
          assert Find(child', j') == None by {
            assert j' == [j'[0]] + j'[1..];
          }
        }
      }
    }
  }

  /** remove_helper keeps every subtree below its node non-empty. */
  lemma {:induction false} RemovePruned(t: Node, k: string)
    requires Pruned(t)
    ensures Pruned(RemoveAt(t, k).1)
    decreases |k|
  {
    if k != [] {
      var c, k' := k[0], k[1..];
      if c in t.children {
        var child := t.children[c];
        var (erase, child') := RemoveAt(child, k');
        if !erase {
          RemovePruned(child, k');
          RemoveErase(child, k');
          if Lookup(child, k').None? {
            RemoveAbsent(child, k');
          } else {
            PrunedEmpty(child');
          }
        }
      }
    }
  }

  /**
   * TrieSearch::remove's result on a pruned trie: true exactly when the key was
   * stored and the trie is left with no key at all. It is not "the key was
   * removed": removing one key of several returns false.
   */
  lemma RemoveResult(t: Node, k: string)
    requires Pruned(t)
    ensures RemoveAt(t, k).0 <==> k in Contents(t) && Contents(RemoveAt(t, k).1) == map[]
  {
    var u := RemoveAt(t, k).1;
    RemoveErase(t, k);
    RemovePruned(t, k);
    PrunedEmpty(u);
    ContentsLookup(t, k);
    assert Contents(u) == map[] <==> Keys(u) == {} by {
      if Keys(u) != {} {
        var j :| j in Keys(u);
        assert j in Contents(u);
      }
    }
  }
}
