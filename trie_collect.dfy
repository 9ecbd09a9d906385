/**
 * What the prefix queries of TrieSearch collect (src/common/trie.cpp):
 * the leaves below a node, each paired with the path the traversal has
 * built for it. The order in which an unordered_map hands out its children is
 * unspecified, so every traversal takes that order as a parameter.
 */
module TrieCollect {
  import opened Wrappers
  import opened TrieNodes

  /**
   * The iteration order of a children map, for the duration of one call: given
   * the path of the node and the keys of its children, the order in which the
   * map yields them.
   */
  type ChildOrder = (string, set<char>) -> seq<char>

  /** `cs` lists every key of `keys` exactly once. */
  ghost predicate Enumerates(cs: seq<char>, keys: set<char>)
  {
    NoDup(cs) && forall c :: c in cs <==> c in keys
  }

  /** `ord` lists the keys `s` of the node at path `p` exactly once each. */
  ghost predicate ListsKeys(ord: ChildOrder, p: string, s: set<char>)
  {
    Enumerates(ord(p, s), s)
  }

  /** An iteration order worthy of the name: every key set is listed exactly once. */
  ghost predicate ValidOrder(ord: ChildOrder)
  {
    forall p, s :: ListsKeys(ord, p, s)
  }

  /** The stored keys below `t`, as full paths under the prefix `p`, each with its record. */
  ghost function Entries(t: Node, p: string): set<(string, FileInfo)>
  {
    set k | k in Keys(t) :: (p + k, InfoAt(t, k))
  }

  /** The stored keys of the whole trie `t` that start with `prefix`, each with its record. */
  ghost function Matches(t: Node, prefix: string): set<(string, FileInfo)>
  {
    set k | k in Keys(t) && prefix <= k :: (k, InfoAt(t, k))
  }

  /** The pairs (child, path of child) in the order `cs` gives; the queue entries collect_n_files pushes. */
  function ChildPairs(t: Node, p: string, cs: seq<char>): seq<(Node, string)>
  {
    if cs == [] then []
    else (if cs[0] in t.children then [(t.children[cs[0]], p + [cs[0]])] else []) + ChildPairs(t, p, cs[1..])
  }

  /** Everything stored below the nodes of a queue. */
  ghost function Under(q: seq<(Node, string)>): set<(string, FileInfo)>
  {
    if q == [] then {} else Entries(q[0].0, q[0].1) + Under(q[1..])
  }

  /** The records of a sequence of (path, record) pairs, in order. */
  function Infos(s: seq<(string, FileInfo)>): (r: seq<FileInfo>)
    ensures |r| == |s|
  {
    if s == [] then [] else [s[0].1] + Infos(s[1..])
  }

  /** The `k`-th record is the record of the `k`-th pair. */
  lemma {:induction false} InfosAt(s: seq<(string, FileInfo)>)
    ensures forall k :: 0 <= k < |s| ==> Infos(s)[k] == s[k].1
  {
    if s != [] {
      InfosAt(s[1..]);
    }
  }

  // ---------------------------------------------------------------------------
  // collect_all_files: the depth-first collection

  /**
   * collect_all_files(node, prefix, results): the node's own record first when
   * it is a leaf, then each child's collection in the map's order.
   */
  function Dfs(t: Node, p: string, ord: ChildOrder): seq<(string, FileInfo)>
    decreases t, 1
  {
    (if t.isLeaf then [(p, t.info)] else []) + DfsChildren(t, p, ord(p, t.children.Keys), ord)
  }

  function DfsChildren(t: Node, p: string, cs: seq<char>, ord: ChildOrder): seq<(string, FileInfo)>
    decreases t, 0, |cs|
  {
    if cs == [] then []
    else (if cs[0] in t.children then Dfs(t.children[cs[0]], p + [cs[0]], ord) else []) + DfsChildren(t, p, cs[1..], ord)
  }

  // ---------------------------------------------------------------------------
  // Node counts, the measure that makes the breadth-first loop terminate

  function Size(t: Node, p: string, ord: ChildOrder): nat
    decreases t, 1
  {
    1 + SizeChildren(t, p, ord(p, t.children.Keys), ord)
  }

  function SizeChildren(t: Node, p: string, cs: seq<char>, ord: ChildOrder): nat
    decreases t, 0, |cs|
  {
    if cs == [] then 0
    else (if cs[0] in t.children then Size(t.children[cs[0]], p + [cs[0]], ord) else 0) + SizeChildren(t, p, cs[1..], ord)
  }

  function QueueSize(q: seq<(Node, string)>, ord: ChildOrder): nat
  {
    if q == [] then 0 else Size(q[0].0, q[0].1, ord) + QueueSize(q[1..], ord)
  }

  lemma {:induction false} QueueSizeAppend(a: seq<(Node, string)>, b: seq<(Node, string)>, ord: ChildOrder)
    ensures QueueSize(a + b, ord) == QueueSize(a, ord) + QueueSize(b, ord)
  {
    if a == [] {
      assert a + b == b;
    } else {
      assert (a + b)[1..] == a[1..] + b;
      QueueSizeAppend(a[1..], b, ord);
    }
  }

  lemma {:induction false} QueueSizeChildren(t: Node, p: string, cs: seq<char>, ord: ChildOrder)
    ensures QueueSize(ChildPairs(t, p, cs), ord) == SizeChildren(t, p, cs, ord)
  {
    if cs != [] {
      var head := if cs[0] in t.children then [(t.children[cs[0]], p + [cs[0]])] else [];
      QueueSizeChildren(t, p, cs[1..], ord);
      QueueSizeAppend(head, ChildPairs(t, p, cs[1..]), ord);
      if cs[0] in t.children {
        assert QueueSize(head, ord) == Size(t.children[cs[0]], p + [cs[0]], ord) by {
          assert head[1..] == [];
        }
      }
    }
  }

  /** Popping the front of a queue and pushing its children shrinks the queue's node count by one. */
  lemma QueueSizeStep(q: seq<(Node, string)>, ord: ChildOrder)
    requires q != []
    ensures QueueSize(q[1..] + ChildPairs(q[0].0, q[0].1, ord(q[0].1, q[0].0.children.Keys)), ord) == QueueSize(q, ord) - 1
  {
    var cs := ord(q[0].1, q[0].0.children.Keys);
    QueueSizeAppend(q[1..], ChildPairs(q[0].0, q[0].1, cs), ord);
    QueueSizeChildren(q[0].0, q[0].1, cs, ord);
  }

  // ---------------------------------------------------------------------------
  // Entries

  /** A pair is an entry below `t` at `p` exactly when its path extends `p` and the rest of the path is a key of `t` with that record. */
  lemma EntriesMember(t: Node, p: string, e: (string, FileInfo))
    ensures e in Entries(t, p) <==> p <= e.0 && Lookup(t, e.0[|p|..]) == Some(e.1)
  {
    if e in Entries(t, p) {
      var k :| k in Keys(t) && e == (p + k, InfoAt(t, k));
      assert e.0[|p|..] == k;
      KeysLookup(t, k);
    }
    if p <= e.0 && Lookup(t, e.0[|p|..]) == Some(e.1) {
      var k := e.0[|p|..];
      assert p + k == e.0;
      KeysLookup(t, k);
      assert k in Keys(t);
    }
  }

  /** A pair is a match exactly when its path starts with the prefix and the trie stores it with that record. */
  lemma MatchesMember(t: Node, prefix: string, e: (string, FileInfo))
    ensures e in Matches(t, prefix) <==> prefix <= e.0 && Lookup(t, e.0) == Some(e.1)
  {
    KeysLookup(t, e.0);
  }

  /** The matches of a prefix, stated on the abstraction. */
  lemma MatchesContents(t: Node, prefix: string, e: (string, FileInfo))
    ensures e in Matches(t, prefix) <==> e.0 in Contents(t) && prefix <= e.0 && Contents(t)[e.0] == e.1
  {
    MatchesMember(t, prefix, e);
    ContentsLookup(t, e.0);
  }

  /** The entries below the node a prefix leads to are the matches of that prefix; a missing path matches nothing. */
  lemma EntriesAreMatches(t: Node, prefix: string)
    ensures Find(t, prefix).Some? ==> Entries(Find(t, prefix).value, prefix) == Matches(t, prefix)
    ensures Find(t, prefix).None? ==> Matches(t, prefix) == {}
  {
    forall e ensures e in Matches(t, prefix) <==> Find(t, prefix).Some? && e in Entries(Find(t, prefix).value, prefix)
    {
      MatchesMember(t, prefix, e);
      if prefix <= e.0 {
        var k := e.0[|prefix|..];
        assert prefix + k == e.0;
        FindAppend(t, prefix, k);
      }
      if Find(t, prefix).Some? {
        EntriesMember(Find(t, prefix).value, prefix, e);
      }
    }
  }

  /** Entries below one node assign one record to each path. */
  lemma EntriesFunctional(t: Node, p: string, e: (string, FileInfo), e': (string, FileInfo))
    requires e in Entries(t, p) && e' in Entries(t, p) && e.0 == e'.0
    ensures e == e'
  {
    EntriesMember(t, p, e);
    EntriesMember(t, p, e');
  }

  /** Every entry below `t` at `p` has a path that extends `p`. */
  lemma EntriesPrefix(t: Node, p: string, e: (string, FileInfo))
    requires e in Entries(t, p)
    ensures p <= e.0
  {
    EntriesMember(t, p, e);
  }

  lemma {:induction false} UnderAppend(a: seq<(Node, string)>, b: seq<(Node, string)>)
    ensures Under(a + b) == Under(a) + Under(b)
  {
    if a == [] {
      assert a + b == b;
    } else {
      assert (a + b)[1..] == a[1..] + b;
      UnderAppend(a[1..], b);
    }
  }

  /** Membership in the entries under a queue. */
  lemma {:induction false} UnderMember(q: seq<(Node, string)>, e: (string, FileInfo))
    ensures e in Under(q) <==> exists i :: 0 <= i < |q| && e in Entries(q[i].0, q[i].1)
  {
    if q != [] {
      UnderMember(q[1..], e);
      if e in Under(q[1..]) {
        var i :| 0 <= i < |q[1..]| && e in Entries(q[1..][i].0, q[1..][i].1);
        assert q[i + 1] == q[1..][i];
      }
      if exists i :: 0 <= i < |q| && e in Entries(q[i].0, q[i].1) {
        var i :| 0 <= i < |q| && e in Entries(q[i].0, q[i].1);
        if i > 0 {
          assert q[1..][i - 1] == q[i];
        }
      }
    }
  }

  /** Membership in the entries under the children of `t`, listed by `cs`. */
  lemma {:induction false} UnderChildren(t: Node, p: string, cs: seq<char>, e: (string, FileInfo))
    ensures e in Under(ChildPairs(t, p, cs))
       <==> exists c :: c in cs && c in t.children && e in Entries(t.children[c], p + [c])
  {
    if cs != [] {
      var head := if cs[0] in t.children then [(t.children[cs[0]], p + [cs[0]])] else [];
      UnderAppend(head, ChildPairs(t, p, cs[1..]));
      UnderChildren(t, p, cs[1..], e);
      if cs[0] in t.children {
        assert Under(head) == Entries(t.children[cs[0]], p + [cs[0]]) by {
          assert head[1..] == [];
        }
      }
      if exists c :: c in cs && c in t.children && e in Entries(t.children[c], p + [c]) {
        var c :| c in cs && c in t.children && e in Entries(t.children[c], p + [c]);
        if c != cs[0] {
          assert c in cs[1..];
        }
      }
    }
  }

  /**
   * The entries below a node are its own record (when it is a leaf) together
   * with the entries below its children, when `cs` lists every child.
   */
  lemma EntriesSplit(t: Node, p: string, cs: seq<char>)
    requires forall c :: c in cs <==> c in t.children
    ensures Entries(t, p) == (if t.isLeaf then {(p, t.info)} else {}) + Under(ChildPairs(t, p, cs))
  {
    forall e ensures e in Entries(t, p) <==> e in (if t.isLeaf then {(p, t.info)} else {}) + Under(ChildPairs(t, p, cs))
    {
      EntriesMember(t, p, e);
      UnderChildren(t, p, cs, e);
      if p <= e.0 {
        var r := e.0[|p|..];
        if r == [] {
          assert e.0 == p;
          assert Find(t, r) == Some(t);
          ChildEntriesChar(t, p);
        } else {
          var c, r' := r[0], r[1..];
          assert r == [c] + r';
          LookupCons(t, c, r');
          if c in t.children {
            assert e.0[|p + [c]|..] == r';
            assert p + [c] <= e.0 by { assert e.0 == p + r; }
            EntriesMember(t.children[c], p + [c], e);
          }
          assert e.0[|p|] == c by { assert e.0 == p + r; }
          ChildEntriesChar(t, p);
        }
      } else {
        ChildEntriesChar(t, p);
      }
    }
  }

  /** Every entry below child `d` of the node at `p` has `d` at position |p| of its path. */
  lemma ChildEntriesChar(t: Node, p: string)
    ensures forall d, e :: (d in t.children && e in Entries(t.children[d], p + [d])
                            ==> |e.0| > |p| && p <= e.0 && e.0[|p|] == d)
  {
    forall d, e | d in t.children && e in Entries(t.children[d], p + [d])
      ensures |e.0| > |p| && p <= e.0 && e.0[|p|] == d
    {
      EntriesPrefix(t.children[d], p + [d], e);
    }
  }

  /** An entry below child `c` of the node at `p` has `c` at position |p| of its path. */
  lemma ChildEntryChar(n: Node, p: string, c: char, e: (string, FileInfo))
    ensures e in Entries(n, p + [c]) ==> |e.0| > |p| && p <= e.0 && e.0[|p|] == c
  {
    if e in Entries(n, p + [c]) {
      EntriesPrefix(n, p + [c], e);
    }
  }

  // ---------------------------------------------------------------------------
  // The depth-first collection is complete and lists each key once

  /**
   * collect_all_files yields every leaf below `t` exactly once: the pairs it
   * collects are exactly the entries below `t`, with no pair repeated.
   */
  lemma {:induction false} DfsEntries(t: Node, p: string, ord: ChildOrder)
    requires ValidOrder(ord)
    ensures forall e :: e in Dfs(t, p, ord) <==> e in Entries(t, p)
    ensures NoDup(Dfs(t, p, ord))
    decreases t, 1
  {
    var cs := ord(p, t.children.Keys);
    assert ListsKeys(ord, p, t.children.Keys);
    var own := if t.isLeaf then [(p, t.info)] else [];
    DfsChildrenEntries(t, p, cs, ord);
    EntriesSplit(t, p, cs);
    ChildEntriesChar(t, p);
    forall e | e in own ensures e !in DfsChildren(t, p, cs, ord) {
      UnderChildren(t, p, cs, e);
    }
    NoDupConcat(own, DfsChildren(t, p, cs, ord));
  }

  lemma {:induction false} DfsChildrenEntries(t: Node, p: string, cs: seq<char>, ord: ChildOrder)
    requires ValidOrder(ord) && NoDup(cs)
    ensures forall e :: e in DfsChildren(t, p, cs, ord) <==> e in Under(ChildPairs(t, p, cs))
    ensures NoDup(DfsChildren(t, p, cs, ord))
    decreases t, 0, |cs|
  {
    if cs != [] {
      var c := cs[0];
      var rest := cs[1..];
      assert NoDup(rest) by {
        forall i, j | 0 <= i < j < |rest| ensures rest[i] != rest[j] {
          assert rest[i] == cs[i + 1] && rest[j] == cs[j + 1];
        }
      }
      DfsChildrenEntries(t, p, rest, ord);
      var head := if c in t.children then [(t.children[c], p + [c])] else [];
      UnderAppend(head, ChildPairs(t, p, rest));
      var first := if c in t.children then Dfs(t.children[c], p + [c], ord) else [];
      if c in t.children {
        DfsEntries(t.children[c], p + [c], ord);
        assert Under(head) == Entries(t.children[c], p + [c]) by {
          assert head[1..] == [];
        }
        assert c !in rest by {
          forall i | 0 <= i < |rest| ensures rest[i] != c {
            assert rest[i] == cs[i + 1];
          }
        }
        ChildEntriesChar(t, p);
        forall e | e in first ensures e !in DfsChildren(t, p, rest, ord) {
          ChildEntryChar(t.children[c], p, c, e);
          UnderChildren(t, p, rest, e);
        }
      }
      NoDupConcat(first, DfsChildren(t, p, rest, ord));
    }
  }

  /** collect_all_files collects as many records as there are keys below the node. */
  lemma DfsCount(t: Node, p: string, ord: ChildOrder)
    requires ValidOrder(ord)
    ensures |Dfs(t, p, ord)| == |Entries(t, p)|
  {
    DfsEntries(t, p, ord);
    NoDupCard(Dfs(t, p, ord));
    assert (set e | e in Dfs(t, p, ord)) == Entries(t, p);
  }

  // ---------------------------------------------------------------------------
  // Sequences built one child at a time

  lemma {:induction false} InfosAppend(a: seq<(string, FileInfo)>, b: seq<(string, FileInfo)>)
    ensures Infos(a + b) == Infos(a) + Infos(b)
  {
    if a == [] {
      assert a + b == b;
    } else {
      assert (a + b)[1..] == a[1..] + b;
      InfosAppend(a[1..], b);
    }
  }

  lemma {:induction false} ChildPairsConcat(t: Node, p: string, a: seq<char>, b: seq<char>)
    ensures ChildPairs(t, p, a + b) == ChildPairs(t, p, a) + ChildPairs(t, p, b)
  {
    if a == [] {
      assert a + b == b;
    } else {
      assert (a + b)[1..] == a[1..] + b;
      ChildPairsConcat(t, p, a[1..], b);
    }
  }

  /** When every listed key is a child, the i-th pair is the i-th listed child with its path. */
  lemma {:induction false} ChildPairsShape(t: Node, p: string, cs: seq<char>)
    requires forall c :: c in cs ==> c in t.children
    ensures |ChildPairs(t, p, cs)| == |cs|
    ensures forall i :: 0 <= i < |cs| ==> ChildPairs(t, p, cs)[i] == (t.children[cs[i]], p + [cs[i]])
  {
    if cs != [] {
      ChildPairsShape(t, p, cs[1..]);
      forall i | 1 <= i < |cs| ensures ChildPairs(t, p, cs)[i] == (t.children[cs[i]], p + [cs[i]]) {
        assert cs[1..][i - 1] == cs[i];
      }
    }
  }

  /** Pushing one more child onto the queue. */
  lemma ChildPairsSnoc(t: Node, p: string, cs: seq<char>, i: nat)
    requires i < |cs| && cs[i] in t.children
    ensures ChildPairs(t, p, cs[..i + 1]) == ChildPairs(t, p, cs[..i]) + [(t.children[cs[i]], p + [cs[i]])]
  {
    assert cs[..i + 1] == cs[..i] + [cs[i]];
    ChildPairsConcat(t, p, cs[..i], [cs[i]]);
  }

  lemma {:induction false} DfsChildrenConcat(t: Node, p: string, a: seq<char>, b: seq<char>, ord: ChildOrder)
    ensures DfsChildren(t, p, a + b, ord) == DfsChildren(t, p, a, ord) + DfsChildren(t, p, b, ord)
    decreases |a|
  {
    if a == [] {
      assert a + b == b;
    } else {
      assert (a + b)[1..] == a[1..] + b;
      DfsChildrenConcat(t, p, a[1..], b, ord);
    }
  }

  /** Collecting one more child's subtree. */
  lemma DfsChildrenSnoc(t: Node, p: string, cs: seq<char>, i: nat, ord: ChildOrder)
    requires i < |cs| && cs[i] in t.children
    ensures DfsChildren(t, p, cs[..i + 1], ord) == DfsChildren(t, p, cs[..i], ord) + Dfs(t.children[cs[i]], p + [cs[i]], ord)
  {
    assert cs[..i + 1] == cs[..i] + [cs[i]];
    DfsChildrenConcat(t, p, cs[..i], [cs[i]], ord);
    assert [cs[i]][1..] == [];
  }
}
