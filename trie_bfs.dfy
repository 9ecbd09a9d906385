/**
 * The invariant of collect_n_files (src/common/trie.cpp), the breadth-first
 * collection that stops after n records. The queue holds (node, path) pairs;
 * together with the pairs already collected it always accounts for every
 * entry below the start node exactly once, and the paths come out level by
 * level, shortest first.
 */
module TrieBfs {
  import opened Wrappers
  import opened TrieNodes
  import opened TrieCollect

  /** The entry collect_n_files records when it pops `x`: its own, if it is a leaf. */
  function Own(x: (Node, string)): (r: seq<(string, FileInfo)>)
    ensures |r| <= 1
  {
    if x.0.isLeaf then [(x.1, x.0.info)] else []
  }

  /** The queue after popping its front and pushing the front's children in the map's order. */
  function Next(q: seq<(Node, string)>, ord: ChildOrder): seq<(Node, string)>
    requires q != []
  {
    q[1..] + ChildPairs(q[0].0, q[0].1, ord(q[0].1, q[0].0.children.Keys))
  }

  /** What is collected and what is still queued are, together, the entries below `t` at `p`. */
  ghost predicate Covers(t: Node, p: string, q: seq<(Node, string)>, found: seq<(string, FileInfo)>)
  {
    forall e :: e in found || e in Under(q) <==> e in Entries(t, p)
  }

  /** No two queued nodes share an entry. */
  ghost predicate Separate(q: seq<(Node, string)>)
  {
    forall i, j :: 0 <= i < j < |q| ==> Entries(q[i].0, q[i].1) !! Entries(q[j].0, q[j].1)
  }

  /** Nothing is collected twice, and nothing collected is still queued. */
  ghost predicate Apart(q: seq<(Node, string)>, found: seq<(string, FileInfo)>)
  {
    NoDup(found) && Separate(q) && forall e :: e in found ==> e !in Under(q)
  }

  /**
   * The breadth-first order: collected paths grow in length, queued paths grow
   * in length and span at most two levels, and nothing collected is longer
   * than anything queued.
   */
  ghost predicate Levels(q: seq<(Node, string)>, found: seq<(string, FileInfo)>)
  {
    (forall i, j :: 0 <= i < j < |found| ==> |found[i].0| <= |found[j].0|)
    && (forall i, j :: 0 <= i < j < |q| ==> |q[i].1| <= |q[j].1|)
    && (forall i :: 0 <= i < |q| ==> |q[i].1| <= |q[0].1| + 1)
    && (forall i, j :: 0 <= i < |found| && 0 <= j < |q| ==> |found[i].0| <= |q[j].1|)
  }

  /** The start of collect_n_files: one queued node, nothing collected. */
  lemma BfsStart(t: Node, p: string)
    ensures Covers(t, p, [(t, p)], []) && Apart([(t, p)], []) && Levels([(t, p)], [])
  {
    assert [(t, p)][1..] == [];
  }

  /** A step keeps the entries accounted for. */
  lemma StepCovers(t: Node, p: string, q: seq<(Node, string)>, found: seq<(string, FileInfo)>, ord: ChildOrder)
    requires q != [] && ValidOrder(ord) && Covers(t, p, q, found)
    ensures Covers(t, p, Next(q, ord), found + Own(q[0]))
  {
    var x := q[0];
    var cs := ord(x.1, x.0.children.Keys);
    assert ListsKeys(ord, x.1, x.0.children.Keys);
    EntriesSplit(x.0, x.1, cs);
    UnderAppend(q[1..], ChildPairs(x.0, x.1, cs));
  }

  /** The entries of the children listed by `cs` are pairwise disjoint: each child's paths carry its own edge. */
  lemma SeparateKids(t: Node, p: string, cs: seq<char>)
    requires NoDup(cs) && forall c :: c in cs ==> c in t.children
    ensures Separate(ChildPairs(t, p, cs))
  {
    var kids := ChildPairs(t, p, cs);
    ChildPairsShape(t, p, cs);
    forall i, j | 0 <= i < j < |kids| ensures Entries(kids[i].0, kids[i].1) !! Entries(kids[j].0, kids[j].1) {
      forall e | e in Entries(kids[i].0, kids[i].1) ensures e !in Entries(kids[j].0, kids[j].1) {
        ChildEntryChar(t.children[cs[i]], p, cs[i], e);
        ChildEntryChar(t.children[cs[j]], p, cs[j], e);
      }
    }
  }

  /** Two separate queues whose second half lies inside `s`, which the first half avoids, join into a separate queue. */
  lemma SeparateAppend(a: seq<(Node, string)>, b: seq<(Node, string)>, s: set<(string, FileInfo)>)
    requires Separate(a) && Separate(b)
    requires forall i :: 0 <= i < |a| ==> Entries(a[i].0, a[i].1) !! s
    requires forall j :: 0 <= j < |b| ==> Entries(b[j].0, b[j].1) <= s
    ensures Separate(a + b)
  {
    var q := a + b;
    forall i, j | 0 <= i < j < |q| ensures Entries(q[i].0, q[i].1) !! Entries(q[j].0, q[j].1) {
      if j < |a| {
        assert q[i] == a[i] && q[j] == a[j];
      } else if i >= |a| {
        assert q[i] == b[i - |a|] && q[j] == b[j - |a|];
      } else {
        assert q[i] == a[i] && q[j] == b[j - |a|];
      }
    }
  }

  /** Every queued node's entries lie among the entries under the queue. */
  lemma UnderHolds(q: seq<(Node, string)>)
    ensures forall j :: 0 <= j < |q| ==> Entries(q[j].0, q[j].1) <= Under(q)
  {
    forall j, e | 0 <= j < |q| && e in Entries(q[j].0, q[j].1) ensures e in Under(q) {
      UnderMember(q, e);
    }
  }

  /** A step keeps the queued nodes separate. */
  lemma StepSeparate(q: seq<(Node, string)>, ord: ChildOrder)
    requires q != [] && ValidOrder(ord) && Separate(q)
    ensures Separate(Next(q, ord))
  {
    var x := q[0];
    var rest := q[1..];
    var cs := ord(x.1, x.0.children.Keys);
    assert ListsKeys(ord, x.1, x.0.children.Keys);
    var kids := ChildPairs(x.0, x.1, cs);
    EntriesSplit(x.0, x.1, cs);
    SeparateKids(x.0, x.1, cs);
    UnderHolds(kids);
    assert Separate(rest) by {
      forall i, j | 0 <= i < j < |rest| ensures Entries(rest[i].0, rest[i].1) !! Entries(rest[j].0, rest[j].1) {
        assert rest[i] == q[i + 1] && rest[j] == q[j + 1];
      }
    }
    forall i | 0 <= i < |rest| ensures Entries(rest[i].0, rest[i].1) !! Entries(x.0, x.1) {
      assert rest[i] == q[i + 1];
    }
    SeparateAppend(rest, kids, Entries(x.0, x.1));
  }

  /** The popped node's own entry is neither collected nor left in the queue. */
  lemma OwnFresh(q: seq<(Node, string)>, found: seq<(string, FileInfo)>, ord: ChildOrder, e: (string, FileInfo))
    requires q != [] && ValidOrder(ord) && Apart(q, found) && e in Own(q[0])
    ensures e !in found && e !in Under(Next(q, ord))
  {
    var x := q[0];
    var rest := q[1..];
    var cs := ord(x.1, x.0.children.Keys);
    assert ListsKeys(ord, x.1, x.0.children.Keys);
    var kids := ChildPairs(x.0, x.1, cs);
    EntriesSplit(x.0, x.1, cs);
    UnderAppend(rest, kids);
    forall i | 0 <= i < |rest| ensures e !in Entries(rest[i].0, rest[i].1) {
      assert rest[i] == q[i + 1];
    }
    UnderMember(rest, e);
    UnderChildren(x.0, x.1, cs, e);
    ChildEntriesChar(x.0, x.1);
  }

  /** A step keeps collected entries distinct and out of the queue. */
  lemma StepApart(q: seq<(Node, string)>, found: seq<(string, FileInfo)>, ord: ChildOrder)
    requires q != [] && ValidOrder(ord) && Apart(q, found)
    ensures Apart(Next(q, ord), found + Own(q[0]))
  {
    var x := q[0];
    var rest := q[1..];
    var cs := ord(x.1, x.0.children.Keys);
    assert ListsKeys(ord, x.1, x.0.children.Keys);
    var kids := ChildPairs(x.0, x.1, cs);
    EntriesSplit(x.0, x.1, cs);
    UnderAppend(rest, kids);
    StepSeparate(q, ord);
    forall e | e in Own(x) ensures e !in found && e !in Under(Next(q, ord)) {
      OwnFresh(q, found, ord, e);
    }
    NoDupConcat(found, Own(x));
  }

  /** The queue after a step: still sorted by path length, and within one level of its new head's parent. */
  lemma NextLevels(q: seq<(Node, string)>, ord: ChildOrder)
    requires q != [] && ValidOrder(ord)
    requires forall i, j :: 0 <= i < j < |q| ==> |q[i].1| <= |q[j].1|
    requires forall i :: 0 <= i < |q| ==> |q[i].1| <= |q[0].1| + 1
    ensures forall i :: 0 <= i < |Next(q, ord)| ==> |q[0].1| <= |Next(q, ord)[i].1| <= |q[0].1| + 1
    ensures forall i, j :: 0 <= i < j < |Next(q, ord)| ==> |Next(q, ord)[i].1| <= |Next(q, ord)[j].1|
  {
    var x := q[0];
    var level := |x.1|;
    var cs := ord(x.1, x.0.children.Keys);
    assert ListsKeys(ord, x.1, x.0.children.Keys);
    var kids := ChildPairs(x.0, x.1, cs);
    ChildPairsShape(x.0, x.1, cs);
    var q' := Next(q, ord);
    forall i | 0 <= i < |q'| ensures level <= |q'[i].1| <= level + 1 {
      if i < |q| - 1 {
        assert q'[i] == q[i + 1];
      } else {
        assert q'[i] == kids[i - |q| + 1];
      }
    }
    forall i, j | 0 <= i < j < |q'| ensures |q'[i].1| <= |q'[j].1| {
      if j < |q| - 1 {
        assert q'[i] == q[i + 1] && q'[j] == q[j + 1];
      } else {
        assert q'[j] == kids[j - |q| + 1];
      }
    }
  }

  /** A step keeps the collected paths sorted by length and no longer than the queued ones. */
  lemma StepLevels(q: seq<(Node, string)>, found: seq<(string, FileInfo)>, ord: ChildOrder)
    requires q != [] && ValidOrder(ord) && Levels(q, found)
    ensures Levels(Next(q, ord), found + Own(q[0]))
  {
    var x := q[0];
    NextLevels(q, ord);
    var q' := Next(q, ord);
    var f' := found + Own(x);
    forall i, j | 0 <= i < j < |f'| ensures |f'[i].0| <= |f'[j].0| {
      if j < |found| {
        assert f'[i] == found[i] && f'[j] == found[j];
      } else {
        assert f'[i] == found[i] && f'[j].0 == x.1;
      }
    }
    forall i, j | 0 <= i < |f'| && 0 <= j < |q'| ensures |f'[i].0| <= |q'[j].1| {
      if i < |found| {
        assert f'[i] == found[i];
      } else {
        assert f'[i].0 == x.1;
      }
    }
  }

  /** Distinct collected entries are at most all entries, and all of them once the queue is empty. */
  lemma BfsCount(t: Node, p: string, q: seq<(Node, string)>, found: seq<(string, FileInfo)>)
    requires Covers(t, p, q, found) && Apart(q, found)
    ensures |found| <= |Entries(t, p)|
    ensures q == [] ==> |found| == |Entries(t, p)|
  {
    NoDupCard(found);
    var seen := set e | e in found;
    assert seen <= Entries(t, p);
    SubsetCard(seen, Entries(t, p));
    if q == [] {
      assert seen == Entries(t, p);
    }
  }

  /** Every entry not collected has a path at least as long as every collected one. */
  lemma BfsShortest(t: Node, p: string, q: seq<(Node, string)>, found: seq<(string, FileInfo)>)
    requires Covers(t, p, q, found) && Levels(q, found)
    ensures forall e, i :: e in Entries(t, p) && e !in found && 0 <= i < |found| ==> |found[i].0| <= |e.0|
  {
    forall e, i | e in Entries(t, p) && e !in found && 0 <= i < |found| ensures |found[i].0| <= |e.0| {
      UnderMember(q, e);
      var j :| 0 <= j < |q| && e in Entries(q[j].0, q[j].1);
      EntriesPrefix(q[j].0, q[j].1, e);
    }
  }

  /**
   * What collect_n_files collects below `t` at `p` when `have` records are
   * already there and the bound is `n`: distinct entries below `t`, as many as
   * the bound leaves room for (all of them if there are fewer), in order of
   * path length, and no entry left out has a shorter path than one taken.
   */
  ghost predicate FirstN(t: Node, p: string, have: nat, n: int, found: seq<(string, FileInfo)>)
  {
    (forall e :: e in found ==> e in Entries(t, p))
    && NoDup(found)
    && |found| == (if n <= have then 0 else Min(n - have, |Entries(t, p)|))
    && (forall i, j :: 0 <= i < j < |found| ==> |found[i].0| <= |found[j].0|)
    && (forall e, i :: e in Entries(t, p) && e !in found && 0 <= i < |found| ==> |found[i].0| <= |e.0|)
  }

  // ---------------------------------------------------------------------------
  // The whole invariant

  ghost predicate BfsInv(t: Node, p: string, q: seq<(Node, string)>, found: seq<(string, FileInfo)>)
  {
    Covers(t, p, q, found) && Apart(q, found) && Levels(q, found)
  }

  /** One turn of collect_n_files keeps the invariant and shrinks the queue's node count. */
  lemma BfsStep(t: Node, p: string, q: seq<(Node, string)>, found: seq<(string, FileInfo)>, ord: ChildOrder)
    requires q != [] && ValidOrder(ord) && BfsInv(t, p, q, found)
    ensures BfsInv(t, p, Next(q, ord), found + Own(q[0]))
    ensures QueueSize(Next(q, ord), ord) == QueueSize(q, ord) - 1
  {
    StepCovers(t, p, q, found, ord);
    StepApart(q, found, ord);
    StepLevels(q, found, ord);
    QueueSizeStep(q, ord);
  }

  /**
   * What collect_n_files has when it stops, because the queue ran out or
   * because `results` reached `n`: distinct entries, as many as the bound
   * allows, shortest first, none left out shorter than one taken.
   */
  lemma BfsResult(t: Node, p: string, q: seq<(Node, string)>, found: seq<(string, FileInfo)>, have: nat, n: int)
    requires BfsInv(t, p, q, found) && n > 0
    requires q == [] || have + |found| >= n
    requires have < n ==> have + |found| <= n
    requires n <= have ==> found == []
    ensures FirstN(t, p, have, n, found)
  {
    BfsCount(t, p, q, found);
    BfsShortest(t, p, q, found);
  }
}
