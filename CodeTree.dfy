/**
 * The Huffman code tree of HuffProcessor (its TreeNode): a leaf holds a symbol and a
 * weight, an internal node a placeholder value, a weight and two children.
 */
module CodeTree {
  import opened Results

  /** Number of byte values counted. */
  const ALPH_SIZE: int := 256
  /** The synthetic end-of-stream symbol, always given a leaf. */
  const PSEUDO_EOF: int := ALPH_SIZE

  /** A code: a root-to-leaf path, false for left ('0') and true for right ('1'). */
  type Code = seq<bool>

  /**
   * A TreeNode. Its children are both null (Leaf) or both present (Node); `value` is
   * the symbol of a leaf and a placeholder (-1 when built, 0 when parsed) in a Node.
   */
  datatype Tree =
    | Leaf(value: int, weight: int)
    | Node(value: int, weight: int, left: Tree, right: Tree)

  /** isLeafNode as written: it tests the value, not the children. */
  predicate IsLeafNode(t: Tree)
  {
    t.value >= 0
  }

  /**
   * What isLeafNode's value test amounts to: it accepts every leaf holding a symbol,
   * rejects every internal node makeTreeFromCounts builds (value -1), and accepts the
   * internal nodes readTreeHeader builds (value 0) although they have children.
   */
  lemma IsLeafNodeCases(t: Tree)
    ensures t.Leaf? && t.value >= 0 ==> IsLeafNode(t)
    ensures t.Node? && t.value == -1 ==> !IsLeafNode(t)
    ensures t.Node? && t.value == 0 ==> IsLeafNode(t)
  {
  }

  /** The symbols of the leaves, left to right. */
  function Leaves(t: Tree): seq<int>
  {
    match t
    case Leaf(v, _) => [v]
    case Node(_, _, l, r) => Leaves(l) + Leaves(r)
  }

  /** The number of internal nodes. */
  function InternalCount(t: Tree): nat
  {
    match t
    case Leaf(_, _) => 0
    case Node(_, _, l, r) => 1 + InternalCount(l) + InternalCount(r)
  }

  /** The path from t to the leftmost leaf holding s, if there is one. */
  function PathTo(t: Tree, s: int): Option<Code>
  {
    match t
    case Leaf(v, _) => if v == s then Some([]) else None
    case Node(_, _, l, r) =>
      if PathTo(l, s).Some? then Some([false] + PathTo(l, s).value)
      else if PathTo(r, s).Some? then Some([true] + PathTo(r, s).value)
      else None
  }

  /** The subtree reached by walking path p down from t, if every step finds a child. */
  function Follow(t: Tree, p: Code): Option<Tree>
  {
    if p == [] then Some(t)
    else match t
      case Leaf(_, _) => None
      case Node(_, _, l, r) => Follow(if p[0] then r else l, p[1..])
  }

  /** A symbol has a path exactly when it is the symbol of some leaf. */
  lemma {:induction false} PathExistsIffLeaf(t: Tree, s: int)
    ensures PathTo(t, s).Some? <==> s in Leaves(t)
  {
    match t
    case Leaf(_, _) =>
    case Node(_, _, l, r) =>
      PathExistsIffLeaf(l, s);
      PathExistsIffLeaf(r, s);
  }

  /** The path of s leads to a leaf holding s. */
  lemma {:induction false} PathLeadsToLeaf(t: Tree, s: int)
    requires PathTo(t, s).Some?
    ensures Follow(t, PathTo(t, s).value).Some?
    ensures Follow(t, PathTo(t, s).value).value.Leaf?
    ensures Follow(t, PathTo(t, s).value).value.value == s
  {
    match t
    case Leaf(_, _) =>
    case Node(_, _, l, r) =>
      var p := PathTo(t, s).value;
      if PathTo(l, s).Some? {
        PathLeadsToLeaf(l, s);
        assert p[1..] == PathTo(l, s).value;
      } else {
        PathLeadsToLeaf(r, s);
        assert p[1..] == PathTo(r, s).value;
      }
  }

  /** Walking p then q is walking p + q. */
  lemma {:induction false} FollowAppend(t: Tree, p: Code, q: Code)
    requires Follow(t, p).Some?
    ensures Follow(t, p + q) == Follow(Follow(t, p).value, q)
  {
    if p != [] {
      var next := if p[0] then t.right else t.left;
      assert (p + q)[0] == p[0] && (p + q)[1..] == p[1..] + q;
      assert Follow(t, p + q) == Follow(next, p[1..] + q);
      FollowAppend(next, p[1..], q);
    } else {
      assert p + q == q;
    }
  }

  /**
   * Codes read off a tree are prefix-free: when one symbol's path begins another
   * symbol's path, the two symbols are the same.
   */
  lemma PathsArePrefixFree(t: Tree, s1: int, s2: int)
    requires PathTo(t, s1).Some? && PathTo(t, s2).Some?
    ensures PathTo(t, s1).value <= PathTo(t, s2).value ==> s1 == s2
  {
    var p1, p2 := PathTo(t, s1).value, PathTo(t, s2).value;
    if p1 <= p2 {
      PathLeadsToLeaf(t, s1);
      PathLeadsToLeaf(t, s2);
      var q := p2[|p1|..];
      assert p2 == p1 + q;
      FollowAppend(t, p1, q);
      var leaf1 := Follow(t, p1).value;
      assert Follow(leaf1, q).Some?;
      assert q == [];
    }
  }

  /** Every path of a tree that is an internal node is at least one bit long. */
  lemma PathsOfNodeAreNonEmpty(t: Tree, s: int)
    requires t.Node? && PathTo(t, s).Some?
    ensures |PathTo(t, s).value| >= 1
  {
  }
}
