/**
 * HuffProcessor's compress and decompress as compositions of the modelled steps:
 * counts, tree, code table, header (magic number and tree), then the coded body.
 */
module HuffProcessor {
  import opened Results
  import opened BitStreams
  import opened CodeTree
  import opened FrequencyCounter
  import opened TreeBuilder
  import opened Codings
  import opened TreeCodec
  import opened StreamEncoder
  import opened StreamDecoder

  /** Bits in the magic number. */
  const BITS_PER_INT: nat := 32
  /** The magic-number base, as a 32-bit pattern. */
  const HUFF_NUMBER: bv32 := 0xface8200
  /** The magic number of a tree header: HUFF_NUMBER | 1. */
  const HUFF_TREE: bv32 := HUFF_NUMBER | 1
  /** The magic number of the count header format, which is never written or read. */
  const HUFF_COUNTS: bv32 := HUFF_NUMBER | 2

  /** writeHeader: the magic number in 32 bits, then the pre-order tree. */
  function WriteHeader(t: Tree): (h: seq<bool>)
    ensures |h| == BITS_PER_INT + |WriteTree(t)|
  {
    ToBits(HUFF_TREE as int, BITS_PER_INT) + WriteTree(t)
  }

  /** What decompress does with a stream. */
  datatype Decompressed =
    | NotHuffFile                         // HuffException("not correct file")
    | Decoded(out: seq<Byte>, stop: Stop) // the bytes written and how decoding ended

  /**
   * decompress: read 32 bits and refuse the stream unless they are HUFF_TREE (a
   * stream shorter than 32 bits reads -1 and is refused too); only then read the tree
   * header and decode the rest.
   */
  function Decoding(bits: seq<bool>): (r: Decompressed)
    ensures r.NotHuffFile? <==>
      |bits| < BITS_PER_INT || FromBits(bits[..BITS_PER_INT]) != HUFF_TREE as int
  {
    var (id, rest) := ReadBits(bits, BITS_PER_INT);
    if id != HUFF_TREE as int then NotHuffFile
    else
      var (root, body) := ReadTree(rest);
      var (out, stop) := Run(root, Some(root), body);
      Decoded(out, stop)
  }

  /** decompress, running the decoding loop of readCompressedBits. */
  method Decompress(bits: seq<bool>) returns (r: Decompressed)
    ensures r == Decoding(bits)
  {
    var (id, rest) := ReadBits(bits, BITS_PER_INT);
    if id != HUFF_TREE as int {
      return NotHuffFile;
    }
    var (root, body) := ReadTree(rest);
    var out, stop := ReadCompressedBits(root, body);
    r := Decoded(out, stop);
  }

  /** Reading 32 bits after writeBits(32, HUFF_TREE) gives HUFF_TREE back. */
  lemma ReadMagic(rest: seq<bool>)
    ensures ReadBits(ToBits(HUFF_TREE as int, BITS_PER_INT) + rest, BITS_PER_INT) == (HUFF_TREE as int, rest)
  {
    assert Pow2(8) == 0x100;
    Pow2Add(8, 8);
    Pow2Add(16, 16);
    ReadBitsOf(HUFF_TREE as int, BITS_PER_INT, rest);
  }

  /** The header followed by rest: magic number, then the tree followed by rest. */
  lemma HeaderParts(root: Tree, rest: seq<bool>)
    ensures WriteHeader(root) + rest == ToBits(HUFF_TREE as int, BITS_PER_INT) + (WriteTree(root) + rest)
  {
  }

  /**
   * A stream that starts with the header of a writable tree passes the magic check,
   * and what follows the header is decoded with the tree the header describes.
   */
  lemma DecodeAfterHeader(root: Tree, rest: seq<bool>)
    requires Writable(root)
    ensures Decoding(WriteHeader(root) + rest) ==
      Decoded(Run(Strip(root), Some(Strip(root)), rest).0, Run(Strip(root), Some(Strip(root)), rest).1)
  {
    HeaderParts(root, rest);
    ReadMagic(WriteTree(root) + rest);
    WriteReadTree(root, rest);
  }

  /**
   * A stream written by compress decodes to the input: header, codes of the input,
   * code of PSEUDO_EOF, then anything at all.
   */
  lemma RoundTrip(root: Tree, input: seq<Byte>, trailing: seq<bool>)
    requires CodableTree(root) && root.Node? && Decodable(root, input)
    ensures AllUsable(CodeTable(root), input) && Usable(CodeTable(root)[PSEUDO_EOF])
    ensures Decoding(WriteHeader(root) + (Concat(CodeTable(root), input) + CodeTable(root)[PSEUDO_EOF].value) + trailing)
      == Decoded(input, if trailing == [] then Exhausted else EofSymbol)
  {
    DecodableIsUsable(root, input);
    var table := CodeTable(root);
    var body := Concat(table, input) + table[PSEUDO_EOF].value;
    var stripped := Strip(root);
    forall s ensures PathTo(stripped, s) == PathTo(root, s) {
      StripKeepsPaths(root, s);
    }
    StripKeepsPaths(root, PSEUDO_EOF);
    assert CodeTable(stripped) == table;
    assert Decodable(stripped, input);
    assert WriteHeader(root) + body + trailing == WriteHeader(root) + (body + trailing);
    DecodeAfterHeader(root, body + trailing);
    DecodeEncoded(stripped, input, trailing);
  }

  /** Every byte of the input has a leaf in the tree built from its counts, and so has PSEUDO_EOF. */
  lemma InputIsDecodable(root: Tree, input: seq<Byte>)
    requires BuiltTreeFor(root, CountsOf(input))
    ensures Decodable(root, input)
  {
    var f := CountsOf(input);
    forall i | 0 <= i < |input| ensures PathTo(root, input[i]).Some? {
      CountPositiveIffPresent(input, input[i]);
      assert multiset(Leaves(root))[input[i]] == 1;
      PathExistsIffLeaf(root, input[i]);
    }
    assert multiset(Leaves(root))[PSEUDO_EOF] == 1;
    PathExistsIffLeaf(root, PSEUDO_EOF);
  }

  /**
   * With no input every count is zero, so the tree is the lone PSEUDO_EOF leaf of
   * weight 1, whose code is empty.
   */
  lemma EmptyInputGivesEofLeaf(root: Tree)
    requires BuiltTreeFor(root, CountsOf([])) && root.Leaf?
    ensures root == Leaf(PSEUDO_EOF, 1)
    ensures CodeTable(root)[PSEUDO_EOF] == Some([])
  {
    assert multiset(Leaves(root))[PSEUDO_EOF] == 1;
  }

  /** With some input a byte has a non-zero count, so the tree is an internal node. */
  lemma NonEmptyInputGivesNode(root: Tree, input: seq<Byte>)
    requires input != []
    requires root.Leaf? <==> forall i :: 0 <= i < ALPH_SIZE ==> CountsOf(input)[i] == 0
    ensures root.Node?
  {
    CountPositiveIffPresent(input, input[0]);
    assert CountsOf(input)[input[0]] != 0;
  }

  /** The table of a lone leaf holds no code longer than 0 bits. */
  lemma LeafTableIsNarrow(root: Tree)
    requires root.Leaf?
    ensures Narrow(CodeTable(root))
  {
  }

  /**
   * What compress needs of the tree makeTreeFromCounts builds from the counts of the
   * input: it is codable; with no input it is the lone PSEUDO_EOF leaf, whose code is
   * empty; otherwise it is an internal node with a leaf for every input byte.
   */
  lemma BuiltTreeFacts(root: Tree, input: seq<Byte>)
    requires BuiltTreeFor(root, CountsOf(input))
    requires root.Leaf? <==> forall i :: 0 <= i < ALPH_SIZE ==> CountsOf(input)[i] == 0
    ensures CodableTree(root) && InRange(Writes(root, []), PSEUDO_EOF + 1)
    ensures input == [] ==> root == Leaf(PSEUDO_EOF, 1) && CodeTable(root)[PSEUDO_EOF] == Some([])
    ensures input != [] ==> root.Node? && Decodable(root, input)
  {
    BuiltTreeForIsCodable(root, CountsOf(input));
    WritesInRange(root, [], PSEUDO_EOF + 1);
    if input == [] {
      EmptyInputGivesEofLeaf(root);
    } else {
      NonEmptyInputGivesNode(root, input);
      InputIsDecodable(root, input);
    }
  }

  /**
   * The first steps of compress: count the input, build the tree and read its code table off it.
   */
  method BuildCodes(input: seq<Byte>) returns (root: Tree, codings: array<Option<Code>>)
    ensures fresh(codings)
    ensures BuiltTreeFor(root, CountsOf(input))
    ensures CodableTree(root) && codings[..] == CodeTable(root)
    ensures input == [] ==> root == Leaf(PSEUDO_EOF, 1) && CodeTable(root)[PSEUDO_EOF] == Some([])
    ensures input != [] ==> root.Node? && Decodable(root, input)
  {
    var counts := ReadForCounts(input);
    root := MakeTreeFromCounts(counts);
    assert counts[..ALPH_SIZE] == CountsOf(input);
    BuiltTreeFacts(root, input);
    codings := MakeCodingsFromTree(root);
  }

  /**
   * compress. root is the tree built from the counts of the input. Empty input fails at
   * parseInt("", 2), as the lone PSEUDO_EOF leaf has the empty code. A table holding a
   * code wider than 31 bits is refused. Otherwise compress succeeds: the output is the
   * header, the codes of the input and the code of PSEUDO_EOF, and it decodes back to
   * the input whatever bits follow it.
   */
  method Compress(input: seq<Byte>) returns (r: Result<seq<bool>, EncodeError>, ghost root: Tree)
    ensures BuiltTreeFor(root, CountsOf(input))
    ensures input == [] ==> r == Err(EmptyCode)
    ensures r == Err(CodeTooLong) <==> !Narrow(CodeTable(root))
    ensures r.Ok? <==> input != [] && Narrow(CodeTable(root))
    ensures r.Ok? ==> AllUsable(CodeTable(root), input) && Usable(CodeTable(root)[PSEUDO_EOF])
    ensures r.Ok? ==>
      r.value == WriteHeader(root) + (Concat(CodeTable(root), input) + CodeTable(root)[PSEUDO_EOF].value)
    ensures r.Ok? ==> forall trailing ::
      Decoding(r.value + trailing) == Decoded(input, if trailing == [] then Exhausted else EofSymbol)
  {
    var rt, codings := BuildCodes(input);
    root := rt;
    if rt.Leaf? {
      LeafTableIsNarrow(rt);
    }
    if !Narrow(codings[..]) {
      return Err(CodeTooLong), root;
    }
    var header := WriteHeader(rt);
    var body := WriteCompressedBits(input, codings);
    if input == [] {
      assert codings[PSEUDO_EOF] == codings[..][PSEUDO_EOF];
    } else {
      DecodableIsUsable(rt, input);
    }
    if body.Err? {
      return Err(body.error), root;
    }
    r := Ok(header + body.value);
    forall trailing ensures Decoding(r.value + trailing) ==
      Decoded(input, if trailing == [] then Exhausted else EofSymbol)
    {
      RoundTrip(rt, input, trailing);
    }
  }
}
