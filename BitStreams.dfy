/**
 * Bit-level view of BitInputStream and BitOutputStream: a stream is a sequence of
 * bits, most significant bit first, and a multi-bit field is an unsigned value.
 */
module BitStreams {

  /** One input or output byte. */
  type Byte = b: int | 0 <= b < 256

  /** 2 to the power n. */
  function Pow2(n: nat): (r: nat)
    ensures r >= 1
  {
    if n == 0 then 1 else 2 * Pow2(n - 1)
  }

  /** Powers of two multiply by adding exponents. */
  lemma {:induction false} Pow2Add(a: nat, b: nat)
    ensures Pow2(a + b) == Pow2(a) * Pow2(b)
  {
    if a > 0 {
      Pow2Add(a - 1, b);
    }
  }

  /**
   * The low n bits of v, most significant first: what writeBits(n, v) appends.
   * Dafny's / and % are Euclidean, so a negative v yields its two's-complement bits.
   */
  function ToBits(v: int, n: nat): (b: seq<bool>)
    ensures |b| == n
    decreases n
  {
    if n == 0 then [] else ToBits(v / 2, n - 1) + [v % 2 == 1]
  }

  /** The unsigned value of a bit string read most significant bit first. */
  function FromBits(b: seq<bool>): (v: nat)
    ensures v < Pow2(|b|)
  {
    if b == [] then 0 else 2 * FromBits(b[..|b| - 1]) + (if b[|b| - 1] then 1 else 0)
  }

  /** Writing n bits of a value that fits in n bits and reading them back gives the value. */
  lemma {:induction false} FromToBits(v: int, n: nat)
    requires 0 <= v < Pow2(n)
    ensures FromBits(ToBits(v, n)) == v
  {
    if n > 0 {
      FromToBits(v / 2, n - 1);
      assert ToBits(v, n)[..n - 1] == ToBits(v / 2, n - 1);
    }
  }

  /** Reading a bit string as a number and writing that many bits of it gives the string back. */
  lemma {:induction false} ToFromBits(b: seq<bool>)
    ensures ToBits(FromBits(b), |b|) == b
  {
    if b != [] {
      var init := b[..|b| - 1];
      ToFromBits(init);
      assert FromBits(b) / 2 == FromBits(init);
      assert b == init + [b[|b| - 1]];
    }
  }

  /**
   * readBits(n): the next n bits as an unsigned value together with the rest of the
   * stream, or -1 when fewer than n bits remain; an exhausted stream stays exhausted.
   */
  function ReadBits(bits: seq<bool>, n: nat): (r: (int, seq<bool>))
    ensures r.0 == -1 <==> |bits| < n
    ensures r.0 == -1 ==> r.1 == []
    ensures r.0 != -1 ==> r.0 == FromBits(bits[..n]) && r.1 == bits[n..]
  {
    if |bits| < n then (-1, []) else (FromBits(bits[..n]) as int, bits[n..])
  }

  /** Reading n bits where writeBits(n, v) put them gives back v and the bits after them. */
  lemma ReadBitsOf(v: int, n: nat, rest: seq<bool>)
    requires 0 <= v < Pow2(n)
    ensures ReadBits(ToBits(v, n) + rest, n) == (v, rest)
  {
    var bits := ToBits(v, n) + rest;
    assert bits[..n] == ToBits(v, n) && bits[n..] == rest;
    FromToBits(v, n);
  }

  /** readBits(1) on a non-empty stream: 1 for a set bit, 0 for a clear one. */
  lemma ReadOneBit(bits: seq<bool>)
    requires bits != []
    ensures ReadBits(bits, 1) == (if bits[0] then 1 else 0, bits[1..])
  {
    var v := if bits[0] then 1 else 0;
    assert ToBits(v, 1) == [bits[0]];
    assert bits == ToBits(v, 1) + bits[1..];
    ReadBitsOf(v, 1, bits[1..]);
  }
}
