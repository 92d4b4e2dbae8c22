/**
 * readCompressedBits: walk the tree one bit at a time. A node is recognised as a leaf
 * by its missing children, and only after the next bit has been read: the leaf's byte
 * is written, the walk restarts at the root, and that same bit takes the first step.
 */
module StreamDecoder {
  import opened Results
  import opened BitStreams
  import opened CodeTree
  import opened Codings
  import opened StreamEncoder

  /** How the decoding loop ends. */
  datatype Stop =
    | EofSymbol    // a bit was read while at the PSEUDO_EOF leaf
    | Exhausted    // readBits(1) returned -1
    | NullCurrent  // the walk stepped below a leaf: a NullPointerException

  /** One step of the walk: the child the bit selects, or null below a leaf. */
  function Descend(t: Tree, bit: bool): Option<Tree>
  {
    match t
    case Leaf(_, _) => None
    case Node(_, _, l, r) => Some(if bit then r else l)
  }

  /**
   * The decoding loop from node current (None for null) on the remaining bits: the
   * bytes it writes and how it stops. writeBits(8, v) keeps the low 8 bits of v.
   */
  function Run(root: Tree, current: Option<Tree>, bits: seq<bool>): (seq<Byte>, Stop)
    decreases |bits|
  {
    if bits == [] then ([], Exhausted)
    else if current.None? then ([], NullCurrent)
    else
      var c := current.value;
      if c.Leaf? then
        if c.value == PSEUDO_EOF then ([], EofSymbol)
        else
          var (out, stop) := Run(root, Descend(root, bits[0]), bits[1..]);
          ([c.value % 256] + out, stop)
      else Run(root, Descend(c, bits[0]), bits[1..])
  }

  /**
   * readCompressedBits: the decoding loop. current starts at the root; each bit read is
   * first used to finish a leaf, then to take one step.
   */
  method ReadCompressedBits(root: Tree, bits: seq<bool>) returns (out: seq<Byte>, stop: Stop)
    ensures (out, stop) == Run(root, Some(root), bits)
  {
    var current := Some(root);
    var rest := bits;
    out := [];
    assert out + Run(root, current, rest).0 == Run(root, current, rest).0;
    while true
      invariant (out + Run(root, current, rest).0, Run(root, current, rest).1) == Run(root, Some(root), bits)
      decreases |rest|
    {
      if rest != [] {
        ReadOneBit(rest);
      }
      var (bit, next) := ReadBits(rest, 1);
      if bit == -1 {
        stop := Exhausted;
        assert out + [] == out;
        return;
      }
      if current.None? {
        stop := NullCurrent;
        assert out + [] == out;
        return;
      }
      var c := current.value;
      if c.Leaf? {
        if c.value == PSEUDO_EOF {
          stop := EofSymbol;
          assert out + [] == out;
          return;
        }
        ghost var tail := Run(root, Descend(root, rest[0]), next);
        assert Run(root, current, rest) == ([c.value % 256] + tail.0, tail.1);
        assert (out + [c.value % 256]) + tail.0 == out + ([c.value % 256] + tail.0);
        out := out + [c.value % 256];
        c := root;
      }
      current := Descend(c, bit == 1);
      rest := next;
    }
  }

  /** Walking a path from n reads its bits and arrives where Follow says. */
  lemma {:induction false} Walk(root: Tree, n: Tree, p: Code, rest: seq<bool>)
    requires Follow(n, p).Some?
    ensures Run(root, Some(n), p + rest) == Run(root, Follow(n, p), rest)
  {
    if p != [] {
      assert n.Node?;
      assert (p + rest)[0] == p[0] && (p + rest)[1..] == p[1..] + rest;
      Walk(root, if p[0] then n.right else n.left, p[1..], rest);
    } else {
      assert p + rest == rest;
    }
  }

  /** At a leaf with at least one bit left, the leaf's byte is written and the walk restarts. */
  lemma LeafThenRestart(root: Tree, leaf: Tree, bits: seq<bool>)
    requires root.Node? && leaf.Leaf? && leaf.value != PSEUDO_EOF && bits != []
    ensures Run(root, Some(leaf), bits) ==
      ([leaf.value % 256] + Run(root, Some(root), bits).0, Run(root, Some(root), bits).1)
  {
  }

  /** With an internal root, current is never null, so the loop never dereferences null. */
  lemma {:induction false} NeverNull(root: Tree, current: Option<Tree>, bits: seq<bool>)
    requires root.Node? && current.Some?
    ensures Run(root, current, bits).1 != NullCurrent
    decreases |bits|
  {
    if bits != [] {
      var c := current.value;
      if c.Leaf? {
        if c.value != PSEUDO_EOF {
          NeverNull(root, Descend(root, bits[0]), bits[1..]);
        }
      } else {
        NeverNull(root, Descend(c, bits[0]), bits[1..]);
      }
    }
  }

  /** Every symbol of the input and PSEUDO_EOF have a leaf, so the table codes them. */
  predicate Decodable(root: Tree, input: seq<Byte>)
  {
    PathTo(root, PSEUDO_EOF).Some? && forall i :: 0 <= i < |input| ==> PathTo(root, input[i]).Some?
  }

  /** Decodable inputs are encodable with the path table of an internal root. */
  lemma DecodableIsUsable(root: Tree, input: seq<Byte>)
    requires root.Node? && Decodable(root, input)
    ensures AllUsable(CodeTable(root), input) && Usable(CodeTable(root)[PSEUDO_EOF])
  {
    forall i | 0 <= i < |input| ensures Usable(CodeTable(root)[input[i]]) {
      PathsOfNodeAreNonEmpty(root, input[i]);
    }
    PathsOfNodeAreNonEmpty(root, PSEUDO_EOF);
  }

  /**
   * Decoding the codes of input followed by the code of PSEUDO_EOF writes exactly
   * input. Bits after the PSEUDO_EOF code are never interpreted: one of them is read
   * and the loop stops at the EOF leaf; with none the stream simply runs out.
   */
  lemma {:induction false} DecodeEncoded(root: Tree, input: seq<Byte>, trailing: seq<bool>)
    requires root.Node? && Decodable(root, input)
    ensures AllUsable(CodeTable(root), input) && Usable(CodeTable(root)[PSEUDO_EOF])
    ensures Run(root, Some(root), Concat(CodeTable(root), input) + CodeTable(root)[PSEUDO_EOF].value + trailing)
      == (input, if trailing == [] then Exhausted else EofSymbol)
  {
    DecodableIsUsable(root, input);
    var table := CodeTable(root);
    var eof := table[PSEUDO_EOF].value;
    PathLeadsToLeaf(root, PSEUDO_EOF);
    if input == [] {
      assert Concat(table, input) + eof + trailing == eof + trailing;
      Walk(root, root, eof, trailing);
    } else {
      var b := input[0];
      var code := table[b].value;
      assert Decodable(root, input[1..]) by {
        assert forall i :: 0 <= i < |input[1..]| ==> input[1..][i] == input[i + 1];
      }
      DecodeEncoded(root, input[1..], trailing);
      var after := Concat(table, input[1..]) + eof + trailing;
      assert Concat(table, input) + eof + trailing == code + after;
      PathLeadsToLeaf(root, b);
      Walk(root, root, code, after);
      PathsOfNodeAreNonEmpty(root, PSEUDO_EOF);
      LeafThenRestart(root, Follow(root, code).value, after);
      assert [b] + input[1..] == input;
    }
  }

  /**
   * The lag of one bit: when the stream ends right after the last code of a non-empty
   * input, with no PSEUDO_EOF code, the last byte is never written.
   */
  lemma {:induction false} LastByteNeedsOneMoreBit(root: Tree, input: seq<Byte>)
    requires root.Node? && Decodable(root, input) && input != []
    ensures AllUsable(CodeTable(root), input)
    ensures Run(root, Some(root), Concat(CodeTable(root), input)) == (input[..|input| - 1], Exhausted)
  {
    DecodableIsUsable(root, input);
    var table := CodeTable(root);
    var b := input[0];
    var code := table[b].value;
    var after := Concat(table, input[1..]);
    PathLeadsToLeaf(root, b);
    Walk(root, root, code, after);
    if |input| == 1 {
      assert after == [];
      assert code + after == code;
    } else {
      assert Decodable(root, input[1..]) by {
        assert forall i :: 0 <= i < |input[1..]| ==> input[1..][i] == input[i + 1];
      }
      LastByteNeedsOneMoreBit(root, input[1..]);
      PathsOfNodeAreNonEmpty(root, input[1]);
      LeafThenRestart(root, Follow(root, code).value, after);
      assert [b] + input[1..][..|input| - 2] == input[..|input| - 1];
    }
  }
}
