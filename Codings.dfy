/**
 * makeCodingsFromTree and makeCodingsHelper: a pre-order walk of the code tree that
 * stores, for every node isLeafNode accepts, the path that reached it ('0' left,
 * '1' right) in a 257-entry table indexed by symbol. A null entry is None.
 */
module Codings {
  import opened Results
  import opened CodeTree
  import opened TreeBuilder

  /** The table entries makeCodingsHelper(t, prefix, ...) stores, in the order it stores them. */
  function Writes(t: Tree, prefix: Code): seq<(int, Code)>
  {
    if IsLeafNode(t) then [(t.value, prefix)]
    else match t
      case Leaf(_, _) => []
      case Node(_, _, l, r) => Writes(l, prefix + [false]) + Writes(r, prefix + [true])
  }

  /** Every entry's symbol indexes a table of length n. */
  predicate InRange(ws: seq<(int, Code)>, n: int)
  {
    forall i :: 0 <= i < |ws| ==> 0 <= ws[i].0 < n
  }

  /** The table after storing the entries ws one after the other (a later store wins). */
  function Apply(table: seq<Option<Code>>, ws: seq<(int, Code)>): (r: seq<Option<Code>>)
    requires InRange(ws, |table|)
    ensures |r| == |table|
    decreases |ws|
  {
    if ws == [] then table else Apply(table[ws[0].0 := Some(ws[0].1)], ws[1..])
  }

  /** Storing a + b is storing a, then b. */
  lemma {:induction false} ApplyAppend(table: seq<Option<Code>>, a: seq<(int, Code)>, b: seq<(int, Code)>)
    requires InRange(a, |table|) && InRange(b, |table|)
    ensures InRange(a + b, |table|)
    ensures Apply(table, a + b) == Apply(Apply(table, a), b)
    decreases |a|
  {
    if a == [] {
      assert a + b == b;
    } else {
      assert (a + b)[0] == a[0] && (a + b)[1..] == a[1..] + b;
      ApplyAppend(table[a[0].0 := Some(a[0].1)], a[1..], b);
    }
  }

  /**
   * A tree whose codes makeCodingsHelper records faithfully: every internal node has a
   * negative value (so isLeafNode rejects it), every leaf a symbol in 0..PSEUDO_EOF, and
   * no symbol is on two leaves.
   */
  predicate CodableTree(t: Tree)
  {
    match t
    case Leaf(v, _) => 0 <= v <= PSEUDO_EOF
    case Node(v, _, l, r) =>
      v < 0 && CodableTree(l) && CodableTree(r) &&
      forall s :: s in Leaves(l) ==> s !in Leaves(r)
  }

  /** The entries of a codable tree all index the 257-entry table. */
  lemma {:induction false} WritesInRange(t: Tree, prefix: Code, n: int)
    requires CodableTree(t) && n > PSEUDO_EOF
    ensures InRange(Writes(t, prefix), n)
  {
    match t
    case Leaf(_, _) =>
    case Node(_, _, l, r) =>
      WritesInRange(l, prefix + [false], n);
      WritesInRange(r, prefix + [true], n);
  }

  /**
   * Walking a codable tree from prefix stores prefix + path(s) for every leaf symbol s
   * and leaves every other entry as it was.
   */
  lemma {:induction false} ApplyWritesAt(t: Tree, prefix: Code, table: seq<Option<Code>>, s: int)
    requires CodableTree(t) && |table| > PSEUDO_EOF && 0 <= s < |table|
    ensures InRange(Writes(t, prefix), |table|)
    ensures Apply(table, Writes(t, prefix))[s] ==
      if PathTo(t, s).Some? then Some(prefix + PathTo(t, s).value) else table[s]
  {
    WritesInRange(t, prefix, |table|);
    match t
    case Leaf(v, _) =>
      assert Writes(t, prefix)[1..] == [];
      assert prefix + [] == prefix;
    case Node(_, _, l, r) =>
      var wl, wr := Writes(l, prefix + [false]), Writes(r, prefix + [true]);
      WritesInRange(l, prefix + [false], |table|);
      WritesInRange(r, prefix + [true], |table|);
      ApplyAppend(table, wl, wr);
      ApplyWritesAt(l, prefix + [false], table, s);
      ApplyWritesAt(r, prefix + [true], Apply(table, wl), s);
      PathExistsIffLeaf(l, s);
      PathExistsIffLeaf(r, s);
      assert Writes(t, prefix) == wl + wr;
      if PathTo(l, s).Some? {
        assert prefix + [false] + PathTo(l, s).value == prefix + ([false] + PathTo(l, s).value);
      } else if PathTo(r, s).Some? {
        assert prefix + [true] + PathTo(r, s).value == prefix + ([true] + PathTo(r, s).value);
      }
  }

  /**
   * makeCodingsHelper: at a node isLeafNode accepts, store the traversal under its value and
   * stop; otherwise walk the left child with '0' and the right child with '1' appended.
   * The requires is the array bound the stores need (an exception otherwise).
   */
  method MakeCodingsHelper(root: Tree, traversal: Code, codings: array<Option<Code>>)
    requires InRange(Writes(root, traversal), codings.Length)
    modifies codings
    ensures codings[..] == Apply(old(codings[..]), Writes(root, traversal))
    decreases root
  {
    if IsLeafNode(root) {
      assert Writes(root, traversal)[0].0 == root.value;
      codings[root.value] := Some(traversal);
      assert Writes(root, traversal)[1..] == [];
      return;
    }
    if root.Node? {
      var wl, wr := Writes(root.left, traversal + [false]), Writes(root.right, traversal + [true]);
      assert InRange(wl, codings.Length) by {
        forall i | 0 <= i < |wl| ensures 0 <= wl[i].0 < codings.Length {
          assert wl[i] == (wl + wr)[i];
        }
      }
      assert InRange(wr, codings.Length) by {
        forall i | 0 <= i < |wr| ensures 0 <= wr[i].0 < codings.Length {
          assert wr[i] == (wl + wr)[|wl| + i];
        }
      }
      ApplyAppend(codings[..], wl, wr);
      MakeCodingsHelper(root.left, traversal + [false], codings);
      MakeCodingsHelper(root.right, traversal + [true], codings);
    }
  }

  /**
   * makeCodingsFromTree: a fresh table of 257 null entries filled by makeCodingsHelper. For a
   * codable tree, entry s is the root-to-leaf path of s, and None when s has no leaf.
   */
  method MakeCodingsFromTree(t: Tree) returns (answer: array<Option<Code>>)
    requires InRange(Writes(t, []), PSEUDO_EOF + 1)
    ensures fresh(answer) && answer.Length == PSEUDO_EOF + 1
    ensures answer[..] == Apply(seq(PSEUDO_EOF + 1, _ => None), Writes(t, []))
    ensures CodableTree(t) ==> answer[..] == CodeTable(t)
  {
    answer := new Option<Code>[PSEUDO_EOF + 1](_ => None);
    ghost var empty := answer[..];
    assert empty == seq(PSEUDO_EOF + 1, _ => None);
    MakeCodingsHelper(t, [], answer);
    if CodableTree(t) {
      forall s | 0 <= s < answer.Length ensures answer[s] == PathTo(t, s) {
        ApplyWritesAt(t, [], empty, s);
        if PathTo(t, s).Some? {
          assert [] + PathTo(t, s).value == PathTo(t, s).value;
        }
        assert answer[s] == answer[..][s];
      }
      assert answer[..] == CodeTable(t);
    }
  }

  /** The table of root-to-leaf paths of t, one entry per symbol 0..PSEUDO_EOF. */
  function CodeTable(t: Tree): (table: seq<Option<Code>>)
    ensures |table| == PSEUDO_EOF + 1
  {
    seq(PSEUDO_EOF + 1, s => PathTo(t, s))
  }

  /** A tree makeTreeFromCounts builds is codable. */
  lemma {:induction false} BuiltTreeIsCodable(t: Tree, freq: seq<int>)
    requires |freq| == ALPH_SIZE && BuiltFrom(t, freq)
    requires forall s :: multiset(Leaves(t))[s] <= 1
    ensures CodableTree(t)
  {
    match t
    case Leaf(_, _) =>
    case Node(_, _, l, r) =>
      assert multiset(Leaves(t)) == multiset(Leaves(l)) + multiset(Leaves(r));
      forall s ensures multiset(Leaves(l))[s] <= 1 && multiset(Leaves(r))[s] <= 1 {
        assert multiset(Leaves(t))[s] <= 1;
      }
      BuiltTreeIsCodable(l, freq);
      BuiltTreeIsCodable(r, freq);
      forall s | s in Leaves(l) ensures s !in Leaves(r) {
        assert multiset(Leaves(t))[s] <= 1;
      }
  }

  /** The tree makeTreeFromCounts returns is codable, so its table holds its root-to-leaf paths. */
  lemma BuiltTreeForIsCodable(t: Tree, freq: seq<int>)
    requires |freq| == ALPH_SIZE && BuiltTreeFor(t, freq)
    ensures CodableTree(t)
  {
    forall s ensures multiset(Leaves(t))[s] <= 1 {
      assert multiset(Leaves(t))[s] == if IsCoded(freq, s) then 1 else 0;
    }
    BuiltTreeIsCodable(t, freq);
  }
}
