/**
 * writeTree and readTreeHeader: the pre-order tree header. A node isLeafNode accepts
 * is written as bit 1 and its value in 9 bits; any other node as bit 0 followed by
 * its children. Reading rebuilds the shape; weights are not stored.
 */
module TreeCodec {
  import opened BitStreams
  import opened CodeTree
  import opened Codings

  /** Bits per leaf symbol in the header. */
  const SYMBOL_BITS: nat := 9

  /**
   * writeTree. The test is isLeafNode, so an internal node with a
   * non-negative value is written as a leaf, and a leaf with a negative value as a lone 0.
   */
  function WriteTree(t: Tree): (h: seq<bool>)
    ensures |h| >= 1 && h[0] == IsLeafNode(t)
    ensures IsLeafNode(t) ==> |h| == 1 + SYMBOL_BITS
    ensures t.Leaf? && !IsLeafNode(t) ==> h == [false]
  {
    if IsLeafNode(t) then [true] + ToBits(t.value, SYMBOL_BITS)
    else match t
      case Leaf(_, _) => [false]
      case Node(_, _, l, r) => [false] + WriteTree(l) + WriteTree(r)
  }

  /**
   * readTreeHeader, returning the tree and the unread bits. A 0 flag
   * builds Node(0, 0, ...) from two more subtrees; anything else (1, or -1 from an
   * exhausted stream) builds Leaf(readBits(9), -1), so a short stream gives a -1 leaf.
   */
  function ReadTree(bits: seq<bool>): (r: (Tree, seq<bool>))
    ensures |r.1| <= |bits|
    decreases |bits|
  {
    var (flag, rest) := ReadBits(bits, 1);
    if flag == 0 then
      var (left, rest1) := ReadTree(rest);
      var (right, rest2) := ReadTree(rest1);
      (Node(0, 0, left, right), rest2)
    else
      var (v, rest1) := ReadBits(rest, SYMBOL_BITS);
      (Leaf(v, -1), rest1)
  }

  /** A tree writeTree can write and readTreeHeader read back: leaf values fit in 9 bits. */
  predicate Writable(t: Tree)
  {
    if IsLeafNode(t) then t.value < Pow2(SYMBOL_BITS)
    else t.Node? && Writable(t.left) && Writable(t.right)
  }

  /** What readTreeHeader rebuilds from the header of t: same shape and symbols, no weights. */
  function Strip(t: Tree): Tree
  {
    if IsLeafNode(t) then Leaf(t.value, -1)
    else match t
      case Leaf(v, _) => Leaf(v, -1)
      case Node(_, _, l, r) => Node(0, 0, Strip(l), Strip(r))
  }

  /** readTreeHeader after a 1 flag: a leaf holding the next 9 bits. */
  lemma ReadLeafHeader(bits: seq<bool>)
    requires bits != [] && bits[0]
    ensures ReadTree(bits) == (Leaf(ReadBits(bits[1..], SYMBOL_BITS).0, -1), ReadBits(bits[1..], SYMBOL_BITS).1)
  {
    ReadOneBit(bits);
  }

  /** readTreeHeader after a 0 flag: a node whose children are read one after the other. */
  lemma ReadNodeHeader(bits: seq<bool>)
    requires bits != [] && !bits[0]
    ensures ReadTree(bits) ==
      (Node(0, 0, ReadTree(bits[1..]).0, ReadTree(ReadTree(bits[1..]).1).0), ReadTree(ReadTree(bits[1..]).1).1)
  {
    ReadOneBit(bits);
  }

  /** A written leaf reads back as that leaf, without its weight. */
  lemma WriteReadLeaf(t: Tree, rest: seq<bool>)
    requires IsLeafNode(t) && t.value < Pow2(SYMBOL_BITS)
    ensures ReadTree(WriteTree(t) + rest) == (Strip(t), rest)
  {
    var bits := WriteTree(t) + rest;
    var wv := ToBits(t.value, SYMBOL_BITS);
    AfterLeafFlag(wv, rest);
    ReadLeafHeader(bits);
    ReadBitsOf(t.value, SYMBOL_BITS, rest);
  }

  /** The bits after the flag of a leaf header followed by rest. */
  lemma AfterLeafFlag(wv: seq<bool>, rest: seq<bool>)
    ensures ([true] + wv + rest)[0]
    ensures ([true] + wv + rest)[1..] == wv + rest
  {
    assert [true] + wv + rest == [true] + (wv + rest);
  }

  /** The bits after the flag of a node header followed by rest. */
  lemma AfterFlag(flag: bool, wl: seq<bool>, wr: seq<bool>, rest: seq<bool>)
    ensures ([flag] + wl + wr + rest)[0] == flag
    ensures ([flag] + wl + wr + rest)[1..] == wl + (wr + rest)
  {
    assert [flag] + wl + wr + rest == [flag] + (wl + (wr + rest));
  }

  /** A written internal node reads back as Node(0, 0, ...) once both children do. */
  lemma WriteReadNode(t: Tree, rest: seq<bool>)
    requires t.Node? && !IsLeafNode(t)
    requires ReadTree(WriteTree(t.left) + (WriteTree(t.right) + rest)) == (Strip(t.left), WriteTree(t.right) + rest)
    requires ReadTree(WriteTree(t.right) + rest) == (Strip(t.right), rest)
    ensures ReadTree(WriteTree(t) + rest) == (Strip(t), rest)
  {
    var bits := WriteTree(t) + rest;
    var wl, wr := WriteTree(t.left), WriteTree(t.right);
    AfterFlag(false, wl, wr, rest);
    ReadNodeHeader(bits);
  }

  /** Reading back a written header gives the stripped tree and leaves what followed it. */
  lemma {:induction false} WriteReadTree(t: Tree, rest: seq<bool>)
    requires Writable(t)
    ensures ReadTree(WriteTree(t) + rest) == (Strip(t), rest)
  {
    if IsLeafNode(t) {
      WriteReadLeaf(t, rest);
    } else {
      WriteReadTree(t.left, WriteTree(t.right) + rest);
      WriteReadTree(t.right, rest);
      WriteReadNode(t, rest);
    }
  }

  /** The header of a tree takes 10 bits per leaf and 1 bit per internal node. */
  lemma {:induction false} WriteTreeLength(t: Tree)
    requires CodableTree(t)
    ensures |WriteTree(t)| == 10 * |Leaves(t)| + InternalCount(t)
  {
    match t
    case Leaf(_, _) =>
    case Node(_, _, l, r) =>
      WriteTreeLength(l);
      WriteTreeLength(r);
  }

  /** A codable tree is writable, and its header rebuilds it up to weights and placeholders. */
  lemma {:induction false} StripKeepsPaths(t: Tree, s: int)
    requires CodableTree(t)
    ensures Writable(t)
    ensures Strip(t).Node? <==> t.Node?
    ensures Leaves(Strip(t)) == Leaves(t)
    ensures PathTo(Strip(t), s) == PathTo(t, s)
  {
    assert Pow2(SYMBOL_BITS) == 512;
    match t
    case Leaf(_, _) =>
    case Node(_, _, l, r) =>
      StripKeepsPaths(l, s);
      StripKeepsPaths(r, s);
  }

  /**
   * The internal nodes readTreeHeader builds carry value 0, which isLeafNode accepts:
   * writing a parsed tree out again writes the lone leaf 0, and the code walk over it
   * stores the empty code under symbol 0 and nothing else.
   */
  lemma ParsedNodeIsLeafNode(t: Tree, rest: seq<bool>)
    requires Writable(t) && t.Node? && !IsLeafNode(t)
    ensures ReadTree(WriteTree(t) + rest).0.Node?
    ensures IsLeafNode(ReadTree(WriteTree(t) + rest).0)
    ensures WriteTree(ReadTree(WriteTree(t) + rest).0) == [true] + ToBits(0, SYMBOL_BITS)
    ensures Writes(ReadTree(WriteTree(t) + rest).0, []) == [(0, [])]
  {
    WriteReadTree(t, rest);
  }

  /** A leaf flag followed by fewer than 9 bits reads as the leaf -1 and exhausts the stream. */
  lemma TruncatedLeafHeader(p: seq<bool>)
    requires p != [] && p[0] && |p| <= SYMBOL_BITS
    ensures ReadTree(p) == (Leaf(-1, -1), [])
  {
    ReadLeafHeader(p);
  }

  /**
   * A header cut short is still read without error: every remaining bit is consumed
   * and the tree gets a leaf with value -1 where the bits ran out.
   */
  lemma {:induction false} TruncatedHeaderGivesBadLeaf(t: Tree, n: nat)
    requires Writable(t) && n < |WriteTree(t)|
    ensures ReadTree(WriteTree(t)[..n]).1 == []
    ensures -1 in Leaves(ReadTree(WriteTree(t)[..n]).0)
  {
    var p := WriteTree(t)[..n];
    if n == 0 {
      assert p == [];
    } else if IsLeafNode(t) {
      assert p[0] && |p| <= SYMBOL_BITS;
      TruncatedLeafHeader(p);
    } else {
      var wl, wr := WriteTree(t.left), WriteTree(t.right);
      PrefixAfterFlag(false, wl, wr, n);
      ReadNodeHeader(p);
      var q := p[1..];
      if |q| < |wl| {
        TruncatedHeaderGivesBadLeaf(t.left, |q|);
        assert ReadTree(q).1 == [];
        assert ReadTree([]) == (Leaf(-1, -1), []);
      } else {
        var k := |q| - |wl|;
        WriteReadTree(t.left, wr[..k]);
        TruncatedHeaderGivesBadLeaf(t.right, k);
      }
    }
  }

  /** The first n bits of a node header: the flag, then part of the left or right subtree. */
  lemma PrefixAfterFlag(flag: bool, wl: seq<bool>, wr: seq<bool>, n: nat)
    requires 1 <= n < 1 + |wl| + |wr|
    ensures ([flag] + wl + wr)[..n] != [] && ([flag] + wl + wr)[..n][0] == flag
    ensures n - 1 < |wl| ==> ([flag] + wl + wr)[..n][1..] == wl[..n - 1]
    ensures n - 1 >= |wl| ==> ([flag] + wl + wr)[..n][1..] == wl + wr[..n - 1 - |wl|]
  {
    var p := ([flag] + wl + wr)[..n];
    if n - 1 >= |wl| {
      assert p[1..] == wl + wr[..n - 1 - |wl|];
    }
  }
}
