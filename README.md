# Huffman compression core (HuffProcessor), modelled in Dafny

This project models the compressor and decompressor in `src/HuffProcessor.java`:

- counting the bytes of the input (`readForCounts`);
- the greedy tree construction (`makeTreeFromCounts`), including the PSEUDO_EOF leaf of weight 1;
- reading the code table off the tree (`makeCodingsFromTree`, `makeCodingsHelper`), including the `isLeafNode` test on `myValue >= 0`;
- the tree header (`writeHeader`, `writeTree`) behind the HUFF_TREE magic number, and parsing it back (`readTreeHeader`);
- the encoding loop (`writeCompressedBits`);
- the magic-number check and the bit-by-bit decoding loop of `decompress` (`readCompressedBits`).

A bit stream is a `seq<bool>`. `readBits(n)` yields the next n bits as an unsigned value, or -1 once fewer than n bits remain. `writeBits(n, v)` appends the low n bits of v, most significant bit first.

The priority queue is a sequence. `remove()` takes out any tree of least weight, so ties are broken in no particular order. A `TreeNode` is the datatype `Tree`. A leaf has no children; an internal node has both. The Java `myValue` is kept on internal nodes: -1 when built, 0 when parsed. This is what makes the `isLeafNode` quirk visible.

Imperative parts are methods (loops with invariants, or a recursive walk), proved against specification functions:

- `ReadForCounts` against `CountsOf`;
- `InitialQueue` and `MergeLightest` against the queue's `LeafSymbols` and `TotalWeight`, with `BuiltFrom` on every tree; `MakeTreeFromCounts` against `BuiltTreeFor`;
- the recursive `MakeCodingsHelper` against `Apply`/`Writes`, and through them `CodeTable`;
- `WriteCompressedBits` against `Concat`;
- `ReadCompressedBits` against `Run`;
- `Decompress` against `Decoding`.

`writeTree` and `readTreeHeader` are recursive, and are modelled as functions.

Java exceptions become results:

- `HuffException("not correct file")` is `NotHuffFile`;
- `parseInt("", 2)` on an empty code is `EmptyCode`;
- a null table entry is `NullCode`;
- the decoder stepping below a leaf (a `NullPointerException`) is the stop reason `NullCurrent`.

Modules follow the parts of the program:

- `BitStreams`: the bit I/O view;
- `CodeTree`: the tree and its paths;
- `FrequencyCounter`;
- `TreeBuilder`;
- `Codings`;
- `TreeCodec`: the tree header;
- `StreamEncoder`;
- `StreamDecoder`;
- `HuffProcessor`: the constants and the compress/decompress composition;
- `Results`: Option and Result.

Where the code's own promise and its behaviour part ways, the model follows the code. The Javadoc comments of `compress` and `decompress` say compression must be reversible and loss-less, and decompression must restore the file bit for bit (src/HuffProcessor.java:26 and 125):

- Empty input breaks that promise. The tree is the lone PSEUDO_EOF leaf, whose code is empty, and `Integer.parseInt("", 2)` throws (`Compress`, `EmptyInputGivesEofLeaf`).
- The code does not check for a stream that ends inside the tree header or inside the coded body. It reads on silently: a header cut short yields a leaf with value -1, and the decoding loop simply stops (`TruncatedHeaderGivesBadLeaf`, `LastByteNeedsOneMoreBit`).

## Model

| member | source | states |
|---|---|---|
| FrequencyCounter.ReadForCounts | src/HuffProcessor.java:47-55 | the returned 256-entry table holds, at every byte b, the number of occurrences of b in the input |
| FrequencyCounter.CountsSumToLength | src/HuffProcessor.java:47-55 | the counts add up to the length of the input |
| FrequencyCounter.CountPositiveIffPresent | src/HuffProcessor.java:59-60 | a byte's count is non-zero exactly when the byte occurs in the input, so exactly the occurring bytes get leaves |
| TreeBuilder.QueuedBelowStep | src/HuffProcessor.java:58-62 | after looking at byte i, the queue holds one leaf weighing freq[j] for each j <= i with a non-zero count; its weight is the sum of the counts so far, and it is empty exactly when all of them were zero |
| TreeBuilder.QueuedBelowAdd | src/HuffProcessor.java:59-61 | adding the leaf of a counted byte adds exactly that byte to the queued symbols and its count to the queued weight |
| TreeBuilder.InitialQueue | src/HuffProcessor.java:57-63 | the initial queue holds leaves only: one for every counted byte plus the PSEUDO_EOF leaf of weight 1; its total weight is the sum of the counts plus 1; it has a single tree exactly when every count is zero |
| TreeBuilder.MinExists | src/HuffProcessor.java:65-66 | a non-empty queue has a least-weight tree for remove() to return |
| TreeBuilder.RemoveLightest | src/HuffProcessor.java:65-66 | remove() returns a tree of the queue weighing no more than any tree in it; the rest is the queue without exactly that tree, so it loses that tree's symbols and weight |
| TreeBuilder.MergeLightest | src/HuffProcessor.java:64-69 | one merge shrinks the queue by one and keeps its symbols and total weight; the other trees stay and the last tree is a new node with value -1 whose weight is its children's sum; its children are a lightest tree of the queue and then a lightest tree of what is left |
| TreeBuilder.JoinedQueue | src/HuffProcessor.java:67-68 | adding the node joining the two removed trees keeps the queue's symbols and total weight, and every tree stays built from the counts |
| TreeBuilder.LastTree | src/HuffProcessor.java:70-71 | the one tree left is built from the counts, has each coded symbol on exactly one leaf, and weighs the sum of the counts plus 1 |
| TreeBuilder.MakeTreeFromCounts | src/HuffProcessor.java:56-72 | the root is a full tree whose leaves are the counted bytes and PSEUDO_EOF, once each; every internal node has value -1 and weighs its children's sum; the root weighs the sum of the counts plus 1; the root is a leaf exactly when every count is zero |
| TreeBuilder.CodedSymbolsAt | src/HuffProcessor.java:58-63 | the symbols the tree must hold are each counted byte and PSEUDO_EOF, once each, and nothing else |
| TreeBuilder.TotalsRemove | src/HuffProcessor.java:65-66 | taking a tree out of the queue takes out its symbols and its weight |
| Codings.BuiltTreeIsCodable | src/HuffProcessor.java:56-72 | a tree built from counts, with no symbol on two leaves, has negative values on internal nodes and symbols 0..256 on leaves |
| Codings.BuiltTreeForIsCodable | src/HuffProcessor.java:67-71 | the tree makeTreeFromCounts returns is one whose code walk records every leaf's path |
| Codings.WritesInRange | src/HuffProcessor.java:84 | every store the code walk makes on such a tree indexes the 257-entry table |
| Codings.ApplyWritesAt | src/HuffProcessor.java:82-94 | walking a subtree from a prefix stores the prefix followed by the path of every leaf symbol, and leaves every other entry as it was |
| Codings.MakeCodingsHelper | src/HuffProcessor.java:82-94 | the array afterwards is the old array with the walk's stores applied in pre-order, left ('0') before right ('1') |
| Codings.MakeCodingsFromTree | src/HuffProcessor.java:76-81 | a fresh 257-entry table; for a codable tree entry s is the root-to-leaf path of s, and null for a symbol without a leaf |
| CodeTree.IsLeafNodeCases | src/HuffProcessor.java:73-75 | isLeafNode accepts every leaf holding a symbol and rejects the internal nodes makeTreeFromCounts builds (value -1), but accepts the internal nodes readTreeHeader builds (value 0) |
| CodeTree.PathExistsIffLeaf | src/HuffProcessor.java:83-84 | a symbol has a code exactly when some leaf holds it |
| CodeTree.PathLeadsToLeaf | src/HuffProcessor.java:166-171 | following a symbol's code from the root ends at the leaf holding that symbol |
| CodeTree.PathsArePrefixFree | src/HuffProcessor.java:87-92 | no symbol's code is a prefix of another symbol's code |
| CodeTree.PathsOfNodeAreNonEmpty | src/HuffProcessor.java:87-92 | under an internal root every code is at least one bit long |
| TreeCodec.WriteTree | src/HuffProcessor.java:99-112 | the header of a tree starts with a 1 flag exactly when isLeafNode accepts the root, in which case it is 10 bits long; a leaf with a negative value is written as a lone 0 |
| TreeCodec.ReadTree | src/HuffProcessor.java:143-153 | readTreeHeader never reads more bits than the stream holds |
| TreeCodec.WriteReadTree | src/HuffProcessor.java:99-112 | readTreeHeader after writeTree rebuilds the tree with the same shape and leaf symbols (internal values 0, weights -1 and 0) and leaves the following bits unread |
| TreeCodec.WriteTreeLength | src/HuffProcessor.java:99-112 | the header of a codable tree takes 10 bits per leaf plus 1 bit per internal node |
| TreeCodec.StripKeepsPaths | src/HuffProcessor.java:148-151 | the parsed tree has the same kind of root, the same leaf symbols and the same path for every symbol as the written tree |
| TreeCodec.TruncatedHeaderGivesBadLeaf | src/HuffProcessor.java:145-151 | a header cut short is read without error: it consumes every remaining bit and yields a tree with a leaf of value -1 |
| TreeCodec.TruncatedLeafHeader | src/HuffProcessor.java:150-151 | a leaf flag followed by fewer than 9 bits reads as the leaf -1 |
| TreeCodec.ParsedNodeIsLeafNode | src/HuffProcessor.java:73-75 | a parsed internal node has value 0, which isLeafNode accepts: writing it out again gives the single leaf 0, and the code walk stores only the empty code for symbol 0 |
| StreamEncoder.WriteCode | src/HuffProcessor.java:117-118 | writing a table entry succeeds exactly when it is a non-empty code, and then writes that code bit for bit; a null entry and an empty code fail distinctly |
| StreamEncoder.ConcatSnoc | src/HuffProcessor.java:115-119 | encoding one more byte appends that byte's code |
| StreamEncoder.WriteCompressedBits | src/HuffProcessor.java:113-122 | the loop succeeds exactly when every input byte and PSEUDO_EOF have non-empty codes; the output is then the codes of the input in order followed by the code of PSEUDO_EOF; otherwise the error is the one of the first byte whose entry is null or empty, or, when every byte's code is usable, the one of the PSEUDO_EOF entry |
| StreamDecoder.ReadCompressedBits | src/HuffProcessor.java:154-173 | the loop writes the bytes, and stops for the reason, that the decoding state machine gives from the root on the whole stream |
| StreamDecoder.Walk | src/HuffProcessor.java:166-171 | reading a path's bits moves the current node to where the path leads |
| StreamDecoder.LeafThenRestart | src/HuffProcessor.java:159-163 | at a leaf other than PSEUDO_EOF, with a bit left, the leaf's byte is written and the walk restarts at the root with that same bit |
| StreamDecoder.NeverNull | src/HuffProcessor.java:166-171 | with an internal root the loop never steps to null |
| StreamDecoder.DecodableIsUsable | src/HuffProcessor.java:117-121 | under an internal root every symbol with a leaf has a usable (non-null, non-empty) code |
| StreamDecoder.DecodeEncoded | src/HuffProcessor.java:154-173 | decoding the codes of S, then the PSEUDO_EOF code, then any trailing bits, writes exactly S; it stops at the PSEUDO_EOF leaf when a bit follows and by exhaustion otherwise, never reading past that one bit |
| StreamDecoder.LastByteNeedsOneMoreBit | src/HuffProcessor.java:157-162 | the one-bit lag: when the stream ends right after the last code of S, with no PSEUDO_EOF code, the last byte of S is not written |
| HuffProcessor.WriteHeader | src/HuffProcessor.java:95-98 | the header is 32 bits of magic number followed by the tree |
| HuffProcessor.ReadMagic | src/HuffProcessor.java:135-137 | readBits(32) after writeBits(32, HUFF_TREE) yields HUFF_TREE and leaves the rest unread |
| HuffProcessor.Decoding | src/HuffProcessor.java:134-142 | decompress refuses a stream exactly when it is shorter than 32 bits or its first 32 bits are not HUFF_TREE; the verdict depends on those bits only, so no tree bit is read before it |
| HuffProcessor.Decompress | src/HuffProcessor.java:134-142 | decompress with the decoding loop gives what the decoding specification gives |
| HuffProcessor.DecodeAfterHeader | src/HuffProcessor.java:139-141 | after a written header, the rest of the stream is decoded with the tree the header describes |
| HuffProcessor.RoundTrip | src/HuffProcessor.java:34-45 | header, codes of the input and the PSEUDO_EOF code, followed by any bits, decompress to exactly the input |
| HuffProcessor.InputIsDecodable | src/HuffProcessor.java:58-63 | every input byte, and PSEUDO_EOF, has a leaf in the tree built from the input's counts |
| HuffProcessor.EmptyInputGivesEofLeaf | src/HuffProcessor.java:63-70 | with no input the tree is the lone PSEUDO_EOF leaf of weight 1, and its code is empty |
| HuffProcessor.NonEmptyInputGivesNode | src/HuffProcessor.java:59-69 | with some input the root is an internal node |
| HuffProcessor.BuiltTreeFacts | src/HuffProcessor.java:35-37 | the tree built from the input's counts is codable; with no input it is the PSEUDO_EOF leaf with an empty code; otherwise an internal node with a leaf for every input byte |
| HuffProcessor.BuildCodes | src/HuffProcessor.java:35-37 | the root is a tree built from the counts of the input, with each coded symbol on one leaf; the table holds its root-to-leaf paths; with no input the root is the PSEUDO_EOF leaf with an empty code, otherwise an internal node with a leaf for every input byte |
| HuffProcessor.Compress | src/HuffProcessor.java:34-45 | with root the tree built from the counts of the input: empty input fails with the empty-code error; the wide-code refusal happens exactly when the table holds a code over 31 bits; otherwise compress succeeds, and its output is the header, the codes of the input and the code of PSEUDO_EOF, which decompresses, whatever bits follow it, to exactly the input |

## Left out

- `BitInputStream` and `BitOutputStream` are not part of this model. A stream is a sequence of bits. A read of n bits with fewer left yields -1 and leaves the stream exhausted. `in.reset()` re-reads the same sequence.
- The `TreeNode` class and its `compareTo` are not part of this model, and neither are the internals of `java.util.PriorityQueue`. The queue is a sequence from which any least-weight tree is removed. Which tree wins a tie is left open, so the exact tree shape, and with it the exact bits, are not pinned down.
- Optimality of the code lengths is not proved.
- `FrequencyCounter.ReadForCounts`: counts are unbounded integers. The 32-bit overflow of a Java `int` count past 2^31-1 occurrences is not modelled.
- `TreeBuilder.MakeTreeFromCounts`: weights are unbounded integers. A 32-bit overflow of a merged weight is not modelled. The table must have at least 256 entries, as the Java loop indexes `freq[0..255]`.
- `Codings.MakeCodingsHelper`: requires every store to index the array. The Java code throws `ArrayIndexOutOfBoundsException` otherwise. The trees compress builds always meet this requirement (`Codings.WritesInRange`).
- `StreamEncoder.WriteCompressedBits`: requires every present code to be at most 31 bits. `Integer.parseInt(code, 2)` overflows beyond that, and the overflow is not modelled.
- `HuffProcessor.Compress`: returns `CodeTooLong` when the built table holds a code longer than 31 bits, before encoding. The Java code goes on into `parseInt`, which throws for such a code unless its leading bits are zeros.
- `HuffProcessor.Compress`: on an error the model returns only the error. Java would already have written the header and part of the body.
- `HuffProcessor.Decoding`: the 32-bit magic number is read as an unsigned value and compared with `0xface8201`. Java compares the same 32 bits as a signed `int`, which gives the same verdict.
- The `Header` enum, the `myHeader` field and `setHeader` with its `System.out.println` are left out: they are configuration and console output. The count header `HUFF_COUNTS` is defined (`HuffProcessor.HUFF_COUNTS`) but never written or read by the code.
- `HuffException` and the other Java exceptions are results and stop reasons, not exceptions.
- `writeBits(8, current.myValue)` writes the low 8 bits of the value. This is modelled as the value modulo 256.
