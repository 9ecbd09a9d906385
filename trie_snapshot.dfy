/**
 * The binary snapshot of a trie written by TrieSearch::save_node and read back
 * by TrieSearch::load_node (src/common/trie.cpp), with the string helpers
 * write_string and read_string.
 *
 * A record is written in pre-order: one byte for the leaf flag; for a leaf,
 * its three strings, each as a size_t length followed by that many bytes; a
 * size_t child count; then, per child in the map's iteration order, the edge
 * character as one byte followed by the child's record. sizeof(bool) and
 * sizeof(char) are 1 and size_t is 8 bytes, least significant byte first.
 */
module TrieSnapshot {
  import opened Wrappers
  import opened TrieNodes
  import opened TrieCollect

  newtype byte = x: int | 0 <= x < 256

  /** sizeof(size_t). */
  const SizeWidth: nat := 8

  function Pow256(w: nat): (r: nat)
    ensures r > 0
  {
    if w == 0 then 1 else 256 * Pow256(w - 1)
  }

  /** `n` as `w` bytes, least significant first (n modulo 256^w). */
  function LittleEndian(n: nat, w: nat): (r: seq<byte>)
    ensures |r| == w
  {
    if w == 0 then [] else [(n % 256) as byte] + LittleEndian(n / 256, w - 1)
  }

  /** The number whose little-endian bytes are `s`. */
  function FromLittleEndian(s: seq<byte>): nat
  {
    if s == [] then 0 else s[0] as nat + 256 * FromLittleEndian(s[1..])
  }

  lemma {:induction false} LittleEndianRoundTrip(n: nat, w: nat)
    requires n < Pow256(w)
    ensures FromLittleEndian(LittleEndian(n, w)) == n
  {
    if w > 0 {
      assert n / 256 < Pow256(w - 1);
      LittleEndianRoundTrip(n / 256, w - 1);
      assert LittleEndian(n, w)[1..] == LittleEndian(n / 256, w - 1);
    }
  }

  /** The bytes of one size_t field. */
  function EncodeSize(n: nat): (r: seq<byte>)
    ensures |r| == SizeWidth
  {
    LittleEndian(n, SizeWidth)
  }


  // ---------------------------------------------------------------------------
  // write_string / read_string

  /** Every character fits in one C++ char. */
  ghost predicate ByteString(s: string)
  {
    forall i :: 0 <= i < |s| ==> (s[i] as int) < 256
  }

  /** A string write_string can write: byte characters and a length that fits a size_t. */
  ghost predicate Writable(s: string)
  {
    ByteString(s) && |s| < Pow256(SizeWidth)
  }

  function CharBytes(s: string): (r: seq<byte>)
    requires ByteString(s)
    ensures |r| == |s|
  {
    if s == [] then [] else [s[0] as int as byte] + CharBytes(s[1..])
  }

  function ByteChars(b: seq<byte>): (r: string)
    ensures |r| == |b|
  {
    if b == [] then [] else [b[0] as int as char] + ByteChars(b[1..])
  }

  lemma {:induction false} ByteCharsCharBytes(s: string)
    requires ByteString(s)
    ensures ByteChars(CharBytes(s)) == s
  {
    if s != [] {
      assert CharBytes(s)[1..] == CharBytes(s[1..]);
      ByteCharsCharBytes(s[1..]);
    }
  }

  /** write_string: the length as a size_t, then the characters. */
  function EncodeString(s: string): (r: seq<byte>)
    requires Writable(s)
    ensures |r| == SizeWidth + |s|
  {
    EncodeSize(|s|) + CharBytes(s)
  }

  /**
   * read_string: the string at the front of `b` and the bytes after it, or
   * None when the bytes end before the length field or before the characters
   * it announces.
   */
  function DecodeString(b: seq<byte>): (r: Option<(string, seq<byte>)>)
    ensures r.Some? ==> |r.value.1| + SizeWidth <= |b|
  {
    if |b| < SizeWidth then None
    else
      var len := FromLittleEndian(b[..SizeWidth]);
      if SizeWidth + len > |b| then None
      else Some((ByteChars(b[SizeWidth..SizeWidth + len]), b[SizeWidth + len..]))
  }

  /** read_string reads back exactly what write_string wrote, and leaves the bytes after it. */
  lemma DecodeEncodeString(s: string, rest: seq<byte>)
    requires Writable(s)
    ensures DecodeString(EncodeString(s) + rest) == Some((s, rest))
  {
    var b := EncodeString(s) + rest;
    assert b[..SizeWidth] == EncodeSize(|s|);
    assert b[SizeWidth..SizeWidth + |s|] == CharBytes(s);
    assert b[SizeWidth + |s|..] == rest;
    LittleEndianRoundTrip(|s|, SizeWidth);
    ByteCharsCharBytes(s);
  }

  // ---------------------------------------------------------------------------
  // save_node

  function FlagByte(leaf: bool): byte
  {
    if leaf then 1 else 0
  }

  /**
   * A tree save_node can write faithfully: edge characters and record strings
   * fit in a C++ char, and lengths and child counts fit a size_t.
   */
  ghost predicate Encodable(t: Node)
  {
    WritableInfo(t)
    && |t.children| < Pow256(SizeWidth)
    && forall c :: c in t.children ==> (c as int) < 256 && Encodable(t.children[c])
  }

  /** The record strings of a leaf fit in char and size_t. */
  ghost predicate WritableInfo(t: Node)
  {
    t.isLeaf ==> Writable(t.info.filename) && Writable(t.info.absolutePath) && Writable(t.info.extension)
  }

  /** The three strings of a leaf's record; nothing for a node that is not a leaf. */
  function EncodeInfo(t: Node): seq<byte>
    requires WritableInfo(t)
  {
    if t.isLeaf then EncodeString(t.info.filename) + EncodeString(t.info.absolutePath) + EncodeString(t.info.extension)
    else []
  }

  /** The bytes save_node writes for `t`, the node at path `p`, with the children in the order `ord` gives. */
  function EncodeNode(t: Node, p: string, ord: ChildOrder): seq<byte>
    requires Encodable(t)
    decreases t, 1
  {
    [FlagByte(t.isLeaf)] + EncodeInfo(t) + EncodeSize(|t.children|) + EncodeChildren(t, p, ord(p, t.children.Keys), ord)
  }

  /** The edge byte and record of each child listed in `cs`. */
  function EncodeChildren(t: Node, p: string, cs: seq<char>, ord: ChildOrder): seq<byte>
    requires Encodable(t)
    decreases t, 0, |cs|
  {
    if cs == [] then [] else EncodeEdge(t, p, cs[0], ord) + EncodeChildren(t, p, cs[1..], ord)
  }

  /** The edge byte and record of the child under `c`, if there is one. */
  function EncodeEdge(t: Node, p: string, c: char, ord: ChildOrder): seq<byte>
    requires Encodable(t)
    decreases t, 0, 0
  {
    if c in t.children then [c as int as byte] + EncodeNode(t.children[c], p + [c], ord) else []
  }

  lemma {:induction false} EncodeChildrenSnoc(t: Node, p: string, cs: seq<char>, c: char, ord: ChildOrder)
    requires Encodable(t)
    ensures EncodeChildren(t, p, cs + [c], ord) == EncodeChildren(t, p, cs, ord) + EncodeEdge(t, p, c, ord)
    decreases |cs|
  {
    var tail := EncodeEdge(t, p, c, ord);
    if cs == [] {
      assert cs + [c] == [c];
      assert [c][1..] == [];
      assert EncodeChildren(t, p, [c], ord) == tail + [];
    } else {
      var head := EncodeEdge(t, p, cs[0], ord);
      assert (cs + [c])[1..] == cs[1..] + [c];
      assert EncodeChildren(t, p, cs + [c], ord) == head + EncodeChildren(t, p, cs[1..] + [c], ord);
      EncodeChildrenSnoc(t, p, cs[1..], c, ord);
      Regroup(head, EncodeChildren(t, p, cs[1..], ord), tail);
    }
  }

  // ---------------------------------------------------------------------------
  // load_node

  /** The record load_node reads after the flag: three strings for a leaf, nothing otherwise. */
  function DecodeInfo(b: seq<byte>, leaf: bool): (r: Option<(FileInfo, seq<byte>)>)
    ensures r.Some? ==> |r.value.1| <= |b|
  {
    if !leaf then Some((EmptyInfo, b))
    else
      var filename := DecodeString(b);
      if filename.None? then None
      else
        var absolutePath := DecodeString(filename.value.1);
        if absolutePath.None? then None
        else
          var extension := DecodeString(absolutePath.value.1);
          if extension.None? then None
          else Some((FileInfo(filename.value.0, absolutePath.value.0, extension.value.0), extension.value.1))
  }

  /**
   * load_node on the bytes `b`: the node and the bytes after its record, or
   * None when the bytes end early or a flag byte is neither 0 nor 1 (both
   * undefined in C++). A node that is not a leaf keeps the default record.
   */
  function DecodeNode(b: seq<byte>): (r: Option<(Node, seq<byte>)>)
    ensures r.Some? ==> |r.value.1| < |b|
    decreases |b|
  {
    if |b| == 0 || b[0] > 1 then None
    else
      var leaf := b[0] == 1;
      match DecodeInfo(b[1..], leaf)
      case None => None
      case Some((info, q)) =>
        if |q| < SizeWidth then None
        else
          match DecodeChildren(q[SizeWidth..], FromLittleEndian(q[..SizeWidth]), map[])
          case None => None
          case Some((children, rest)) => Some((Node(leaf, info, children), rest))
  }

  /**
   * The loop of load_node: `count` times an edge byte and a child record. A
   * repeated edge byte replaces the child read before under that key.
   */
  function DecodeChildren(b: seq<byte>, count: nat, acc: map<char, Node>): (r: Option<(map<char, Node>, seq<byte>)>)
    ensures r.Some? ==> |r.value.1| <= |b|
    decreases |b|
  {
    if count == 0 then Some((acc, b))
    else if |b| == 0 then None
    else
      match DecodeNode(b[1..])
      case None => None
      case Some((child, rest)) => DecodeChildren(rest, count - 1, acc[b[0] as int as char := child])
  }
  // ---------------------------------------------------------------------------
  // The round trip

  /**
   * What a snapshot preserves of a tree: the shape, the leaf flags and the
   * records of leaves. A node that is not a leaf comes back with the default
   * record, since load_node reads no record for it.
   */
  ghost function Canonical(t: Node): Node
  {
    Node(t.isLeaf, if t.isLeaf then t.info else EmptyInfo, map c | c in t.children :: Canonical(t.children[c]))
  }

  /** The three record strings of a leaf come back as written. */
  lemma DecodeEncodeInfo(t: Node, rest: seq<byte>)
    requires WritableInfo(t)
    ensures DecodeInfo(EncodeInfo(t) + rest, t.isLeaf) == Some((if t.isLeaf then t.info else EmptyInfo, rest))
  {
    if t.isLeaf {
      var s1, s2, s3 := EncodeString(t.info.filename), EncodeString(t.info.absolutePath), EncodeString(t.info.extension);
      assert s1 + s2 + s3 + rest == s1 + (s2 + (s3 + rest));
      DecodeEncodeString(t.info.filename, s2 + (s3 + rest));
      DecodeEncodeString(t.info.absolutePath, s3 + rest);
      DecodeEncodeString(t.info.extension, rest);
    } else {
      assert [] + rest == rest;
    }
  }
  /** The canonical forms of the children listed in `cs`, keyed by edge. */
  ghost function CanonicalChildren(t: Node, cs: seq<char>): map<char, Node>
    requires forall c :: c in cs ==> c in t.children
  {
    if cs == [] then map[] else map[cs[0] := Canonical(t.children[cs[0]])] + CanonicalChildren(t, cs[1..])
  }

  lemma {:induction false} CanonicalChildrenAt(t: Node, cs: seq<char>)
    requires forall c :: c in cs ==> c in t.children
    ensures forall c :: c in CanonicalChildren(t, cs) <==> c in cs
    ensures forall c :: c in CanonicalChildren(t, cs) ==> CanonicalChildren(t, cs)[c] == Canonical(t.children[c])
  {
    if cs != [] {
      CanonicalChildrenAt(t, cs[1..]);
      assert forall c :: c in cs <==> c == cs[0] || c in cs[1..];
    }
  }

  lemma EmptyUnion(m: map<char, Node>)
    ensures map[] + m == m
  {
  }

  lemma CanonicalChildrenNil(t: Node, acc: map<char, Node>)
    ensures acc + CanonicalChildren(t, []) == acc
  {
  }

  lemma CanonicalChildrenCons(t: Node, cs: seq<char>, acc: map<char, Node>)
    requires cs != [] && forall c :: c in cs ==> c in t.children
    ensures acc[cs[0] := Canonical(t.children[cs[0]])] + CanonicalChildren(t, cs[1..]) == acc + CanonicalChildren(t, cs)
  {
    MergeUpdate(acc, cs[0], Canonical(t.children[cs[0]]), CanonicalChildren(t, cs[1..]));
  }

  lemma MergeUpdate(acc: map<char, Node>, c: char, x: Node, m: map<char, Node>)
    ensures acc[c := x] + m == acc + (map[c := x] + m)
  {
  }

  /** When `cs` lists every child, the children of the canonical form are theirs. */
  lemma CanonicalListed(t: Node, cs: seq<char>)
    requires forall c :: c in cs <==> c in t.children
    ensures Canonical(t) == Node(t.isLeaf, if t.isLeaf then t.info else EmptyInfo, CanonicalChildren(t, cs))
  {
    CanonicalChildrenAt(t, cs);
    var m, m' := Canonical(t).children, CanonicalChildren(t, cs);
    assert m.Keys == t.children.Keys;
    assert m'.Keys == t.children.Keys;
    assert forall c :: c in m ==> m[c] == m'[c];
  }

  /** One step of load_node, stated on the pieces of a record. */
  lemma DecodeNodeStep(b: seq<byte>, leaf: bool, info: FileInfo, q: seq<byte>, children: map<char, Node>, rest: seq<byte>)
    requires b != [] && b[0] == FlagByte(leaf)
    requires DecodeInfo(b[1..], leaf) == Some((info, q)) && |q| >= SizeWidth
    requires DecodeChildren(q[SizeWidth..], FromLittleEndian(q[..SizeWidth]), map[]) == Some((children, rest))
    ensures DecodeNode(b) == Some((Node(leaf, info, children), rest))
  {
  }

  /** One turn of load_node's loop. */
  lemma DecodeChildrenStep(b: seq<byte>, count: nat, acc: map<char, Node>, key: char, child: Node, rest: seq<byte>)
    requires count > 0 && b != [] && b[0] as int == key as int && DecodeNode(b[1..]) == Some((child, rest))
    ensures DecodeChildren(b, count, acc) == DecodeChildren(rest, count - 1, acc[key := child])
  {
  }

  /** The pieces of a node's record: flag, record strings, child count, children. */
  lemma EncodeNodePieces(t: Node, p: string, ord: ChildOrder)
    requires Encodable(t)
    ensures EncodeNode(t, p, ord)
         == [FlagByte(t.isLeaf)] + EncodeInfo(t) + EncodeSize(|t.children|) + EncodeChildren(t, p, ord(p, t.children.Keys), ord)
  {
  }

  /** A record followed by more bytes: the flag first, then the rest in order. */
  lemma RecordLayout(flag: byte, info: seq<byte>, size: seq<byte>, kids: seq<byte>, rest: seq<byte>)
    requires |size| == SizeWidth
    ensures ([flag] + info + size + kids + rest)[0] == flag
    ensures ([flag] + info + size + kids + rest)[1..] == info + (size + (kids + rest))
    ensures (size + (kids + rest))[..SizeWidth] == size
    ensures (size + (kids + rest))[SizeWidth..] == kids + rest
  {
    assert ([flag] + info + size + kids + rest)[1..] == info + size + kids + rest;
  }

  /** The count save_node writes is the count load_node reads. */
  lemma DecodeEncodeSize(n: nat)
    requires n < Pow256(SizeWidth)
    ensures FromLittleEndian(EncodeSize(n)) == n
  {
    LittleEndianRoundTrip(n, SizeWidth);
  }

  /**
   * load_node reads back what save_node wrote: the canonical form of the tree,
   * leaving exactly the bytes after its record, whatever order the children
   * were written in.
   */
  lemma {:induction false} DecodeEncodeNode(t: Node, p: string, ord: ChildOrder, rest: seq<byte>)
    requires ValidOrder(ord) && Encodable(t)
    ensures DecodeNode(EncodeNode(t, p, ord) + rest) == Some((Canonical(t), rest))
    decreases t, 1
  {
    var cs := ord(p, t.children.Keys);
    assert ListsKeys(ord, p, t.children.Keys);
    var flag, info, size, kids := FlagByte(t.isLeaf), EncodeInfo(t), EncodeSize(|t.children|), EncodeChildren(t, p, cs, ord);
    var b := EncodeNode(t, p, ord) + rest;
    EncodeNodePieces(t, p, ord);
    RecordLayout(flag, info, size, kids, rest);
    DecodeEncodeInfo(t, size + (kids + rest));
    DecodeEncodeSize(|t.children|);
    DecodeEncodeKids(t, p, ord, rest);
    DecodeNodeStep(b, t.isLeaf, if t.isLeaf then t.info else EmptyInfo, size + (kids + rest), CanonicalChildren(t, cs), rest);
    CanonicalListed(t, cs);
  }

  /** The children part of a record written by save_node decodes to the canonical children. */
  lemma {:induction false} DecodeEncodeKids(t: Node, p: string, ord: ChildOrder, rest: seq<byte>)
    requires ValidOrder(ord) && Encodable(t)
    requires ListsKeys(ord, p, t.children.Keys)
    ensures DecodeChildren(EncodeChildren(t, p, ord(p, t.children.Keys), ord) + rest, |t.children|, map[])
         == Some((CanonicalChildren(t, ord(p, t.children.Keys)), rest))
    decreases t, 0, |t.children| + 1
  {
    var cs := ord(p, t.children.Keys);
    assert |cs| == |t.children| by {
      NoDupCard(cs);
      assert (set c | c in cs) == t.children.Keys;
    }
    DecodeEncodeChildren(t, p, cs, ord, rest, map[]);
    EmptyUnion(CanonicalChildren(t, cs));
  }

  /** An edge byte and a child's record, followed by more bytes. */
  lemma ChildLayout(edge: byte, node: seq<byte>, more: seq<byte>, rest: seq<byte>)
    ensures ([edge] + node + more + rest)[0] == edge
    ensures ([edge] + node + more + rest)[1..] == node + (more + rest)
  {
    assert ([edge] + node + more + rest)[1..] == node + more + rest;
  }

  lemma {:induction false} DecodeEncodeChildren(t: Node, p: string, cs: seq<char>, ord: ChildOrder, rest: seq<byte>, acc: map<char, Node>)
    requires ValidOrder(ord) && Encodable(t)
    requires forall c :: c in cs ==> c in t.children
    ensures DecodeChildren(EncodeChildren(t, p, cs, ord) + rest, |cs|, acc) == Some((acc + CanonicalChildren(t, cs), rest))
    decreases t, 0, |cs|
  {
    if cs == [] {
      assert EncodeChildren(t, p, cs, ord) + rest == rest;
      CanonicalChildrenNil(t, acc);
    } else {
      var c := cs[0];
      var child := t.children[c];
      var node, more := EncodeNode(child, p + [c], ord), EncodeChildren(t, p, cs[1..], ord);
      assert EncodeChildren(t, p, cs, ord) == [c as int as byte] + node + more;
      ChildLayout(c as int as byte, node, more, rest);
      DecodeEncodeNode(child, p + [c], ord, more + rest);
      DecodeChildrenStep(EncodeChildren(t, p, cs, ord) + rest, |cs|, acc, c, Canonical(child), more + rest);
      DecodeEncodeChildren(t, p, cs[1..], ord, rest, acc[c := Canonical(child)]);
      CanonicalChildrenCons(t, cs, acc);
    }
  }
  /** A tree and its canonical form store the same records under the same keys. */
  lemma {:induction false} CanonicalLookup(t: Node, k: string)
    ensures Lookup(Canonical(t), k) == Lookup(t, k)
    decreases |k|
  {
    if k == [] {
      assert Find(t, k) == Some(t);
      assert Find(Canonical(t), k) == Some(Canonical(t));
    } else {
      var c, k' := k[0], k[1..];
      assert k == [c] + k';
      LookupCons(t, c, k');
      LookupCons(Canonical(t), c, k');
      if c in t.children {
        CanonicalLookup(t.children[c], k');
      }
    }
  }

  /** A snapshot loses nothing of the abstraction: the canonical form has the same Contents. */
  lemma CanonicalContents(t: Node)
    ensures Contents(Canonical(t)) == Contents(t)
  {
    forall k ensures Lookup(t, k) == Lookup(Canonical(t), k) {
      CanonicalLookup(t, k);
    }
    ContentsExt(t, Canonical(t));
  }

  /** The canonical form stores the same keys. */
  lemma CanonicalKeys(t: Node)
    ensures Keys(Canonical(t)) == Keys(t)
  {
    CanonicalContents(t);
    assert Keys(Canonical(t)) == Contents(Canonical(t)).Keys;
    assert Keys(t) == Contents(t).Keys;
  }

  /** A snapshot of a pruned trie reads back pruned: loading keeps the invariant insert and remove rely on. */
  lemma {:induction false} CanonicalPruned(t: Node)
    requires Pruned(t)
    ensures Pruned(Canonical(t))
    decreases t
  {
    forall c | c in Canonical(t).children
      ensures Keys(Canonical(t).children[c]) != {} && Pruned(Canonical(t).children[c])
    {
      assert c in t.children && Canonical(t).children[c] == Canonical(t.children[c]);
      CanonicalKeys(t.children[c]);
      CanonicalPruned(t.children[c]);
    }
  }

  // ---------------------------------------------------------------------------
  // The streams and the step-by-step writer and reader

  /** The output file stream of save: the bytes written so far. */
  class ByteWriter {
    var data: seq<byte>

    constructor ()
      ensures data == []
    {
      data := [];
    }

    /** ofstream::write. */
    method Write(bs: seq<byte>)
      modifies this
      ensures data == old(data) + bs
    {
      data := data + bs;
    }
  }


  /** The input file stream of load: the file's bytes and the read position. */
  class ByteReader {
    const data: seq<byte>
    var pos: nat

    constructor (bytes: seq<byte>)
      ensures data == bytes && pos == 0
    {
      data := bytes;
      pos := 0;
    }

    /** The bytes not read yet. */
    ghost function Unread(): seq<byte>
      reads this
      requires pos <= |data|
    {
      data[pos..]
    }

    /** ifstream::read of `n` bytes that are there. */
    method Read(n: nat) returns (bs: seq<byte>)
      requires pos + n <= |data|
      modifies this
      ensures pos == old(pos) + n && bs == data[old(pos)..pos]
      ensures old(Unread()) == bs + Unread()
    {
      bs := data[pos..pos + n];
      pos := pos + n;
      assert data[old(pos)..] == bs + data[pos..];
    }
  }

  /** write_string. */
  method WriteString(w: ByteWriter, s: string)
    requires Writable(s)
    modifies w
    ensures w.data == old(w.data) + EncodeString(s)
  {
    w.Write(EncodeSize(|s|));
    w.Write(CharBytes(s));
  }

  /** read_string, on a stream that holds a whole string at the read position. */
  method ReadString(r: ByteReader) returns (s: string)
    requires r.pos <= |r.data| && DecodeString(r.Unread()).Some?
    modifies r
    ensures old(r.pos) <= r.pos <= |r.data|
    ensures DecodeString(old(r.Unread())) == Some((s, r.Unread()))
  {
    ghost var b := r.Unread();
    var lenBytes := r.Read(SizeWidth);
    assert b[..SizeWidth] == lenBytes;
    var len := FromLittleEndian(lenBytes);
    var bs := r.Read(len);
    assert b[SizeWidth..SizeWidth + len] == bs;
    assert b[SizeWidth + len..] == r.Unread();
    s := ByteChars(bs);
  }

  /** save_node: writes the record of `t` and of every node below it, in pre-order. */
  method SaveNode(t: Node, p: string, ord: ChildOrder, w: ByteWriter)
    requires ValidOrder(ord) && Encodable(t)
    modifies w
    ensures w.data == old(w.data) + EncodeNode(t, p, ord)
    decreases t
  {
    ghost var before := w.data;
    w.Write([FlagByte(t.isLeaf)]);
    if t.isLeaf {
      WriteString(w, t.info.filename);
      WriteString(w, t.info.absolutePath);
      WriteString(w, t.info.extension);
      Append4(before + [FlagByte(t.isLeaf)], EncodeString(t.info.filename), EncodeString(t.info.absolutePath), EncodeString(t.info.extension));
    }
    assert w.data == before + [FlagByte(t.isLeaf)] + EncodeInfo(t);
    w.Write(EncodeSize(|t.children|));
    var cs := ord(p, t.children.Keys);
    assert ListsKeys(ord, p, t.children.Keys);
    ghost var start := w.data;
    var i := 0;
    while i < |cs|
      invariant 0 <= i <= |cs|
      invariant w.data == start + EncodeChildren(t, p, cs[..i], ord)
    {
      var c := cs[i];
      assert c in t.children;
      w.Write([c as int as byte]);
      SaveNode(t.children[c], p + [c], ord, w);
      SaveStep(start, t, p, cs, i, ord);
      i := i + 1;
    }
    SaveDone(before, t, p, ord, cs);
  }

  lemma Append4(a: seq<byte>, x: seq<byte>, y: seq<byte>, z: seq<byte>)
    ensures a + x + y + z == a + (x + y + z)
  {
  }

  /** One turn of save_node's loop: the edge byte and the child's record extend the children written so far. */
  lemma SaveStep(start: seq<byte>, t: Node, p: string, cs: seq<char>, i: nat, ord: ChildOrder)
    requires Encodable(t) && i < |cs| && cs[i] in t.children
    ensures start + EncodeChildren(t, p, cs[..i], ord) + [cs[i] as int as byte] + EncodeNode(t.children[cs[i]], p + [cs[i]], ord)
         == start + EncodeChildren(t, p, cs[..i + 1], ord)
  {
    assert cs[..i + 1] == cs[..i] + [cs[i]];
    EncodeChildrenSnoc(t, p, cs[..i], cs[i], ord);
  }

  /** After the loop, the bytes written are the node's whole record. */
  lemma SaveDone(before: seq<byte>, t: Node, p: string, ord: ChildOrder, cs: seq<char>)
    requires Encodable(t) && cs == ord(p, t.children.Keys)
    ensures before + [FlagByte(t.isLeaf)] + EncodeInfo(t) + EncodeSize(|t.children|) + EncodeChildren(t, p, cs[..|cs|], ord)
         == before + EncodeNode(t, p, ord)
  {
    assert cs[..|cs|] == cs;
    EncodeNodePieces(t, p, ord);
  }


  /** A record that decodes: its flag, its strings, its child count and its children decode. */
  lemma DecodeNodeParts(b: seq<byte>)
    requires DecodeNode(b).Some?
    ensures b != [] && b[0] <= 1
    ensures var info := DecodeInfo(b[1..], b[0] == 1);
      info.Some? && |info.value.1| >= SizeWidth
      && var kids := DecodeChildren(info.value.1[SizeWidth..], FromLittleEndian(info.value.1[..SizeWidth]), map[]);
      kids.Some? && DecodeNode(b) == Some((Node(b[0] == 1, info.value.0, kids.value.0), kids.value.1))
  {
  }

  /** In a run of children that decodes, the next child decodes. */
  lemma DecodeChildrenNext(b: seq<byte>, count: nat, acc: map<char, Node>)
    requires count > 0 && DecodeChildren(b, count, acc).Some?
    ensures b != [] && DecodeNode(b[1..]).Some?
  {
  }

  /** The first part of load_node: the flag, the record of a leaf and the child count. */
  method LoadHead(r: ByteReader) returns (leaf: bool, info: FileInfo, count: nat)
    requires r.pos <= |r.data| && DecodeNode(r.Unread()).Some?
    modifies r
    ensures old(r.pos) < r.pos <= |r.data|
    ensures var whole := DecodeNode(old(r.Unread())).value;
      whole.0 == Node(leaf, info, whole.0.children)
      && DecodeChildren(r.Unread(), count, map[]) == Some((whole.0.children, whole.1))
  {
    ghost var b := r.Unread();
    DecodeNodeParts(b);
    var flag := r.Read(1);
    assert b[1..] == r.Unread();
    leaf := flag[0] == 1;
    info := EmptyInfo;
    if leaf {
      var filename := ReadString(r);
      var absolutePath := ReadString(r);
      var extension := ReadString(r);
      info := FileInfo(filename, absolutePath, extension);
    }
    ghost var q := r.Unread();
    assert DecodeInfo(b[1..], leaf) == Some((info, q));
    var countBytes := r.Read(SizeWidth);
    assert q[..SizeWidth] == countBytes && q[SizeWidth..] == r.Unread();
    count := FromLittleEndian(countBytes);
  }

  /** load_node, on a stream that holds a whole record at the read position. */
  method LoadNode(r: ByteReader) returns (t: Node)
    requires r.pos <= |r.data| && DecodeNode(r.Unread()).Some?
    modifies r
    ensures old(r.pos) < r.pos <= |r.data|
    ensures DecodeNode(old(r.Unread())) == Some((t, r.Unread()))
    decreases |r.data| - r.pos
  {
    ghost var start := r.pos;
    ghost var whole := DecodeNode(r.Unread()).value;
    var leaf, info, count := LoadHead(r);
    var children: map<char, Node> := map[];
    var i := 0;
    while i < count
      invariant 0 <= i <= count
      invariant start < r.pos <= |r.data|
      invariant DecodeChildren(r.Unread(), count - i, children) == Some((whole.0.children, whole.1))
      decreases count - i
    {
      ghost var b := r.Unread();
      DecodeChildrenNext(b, count - i, children);
      var key := r.Read(1);
      assert b[1..] == r.Unread();
      var c := key[0] as int as char;
      var child := LoadNode(r);
      DecodeChildrenStep(b, count - i, children, c, child, r.Unread());
      children := children[c := child];
      i := i + 1;
    }
    assert DecodeChildren(r.Unread(), 0, children) == Some((children, r.Unread()));
    t := Node(leaf, info, children);
  }
}
