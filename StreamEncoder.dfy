/**
 * writeCompressedBits: for every input byte, write its code from the table; then
 * write the code of PSEUDO_EOF. A code is written as writeBits(length, parseInt(code, 2)).
 */
module StreamEncoder {
  import opened Results
  import opened BitStreams
  import opened CodeTree

  /** Widest code parseInt(code, 2) turns into a non-negative int. */
  const MAX_CODE_BITS: nat := 31

  /** Why writing a code fails. */
  datatype EncodeError =
    | NullCode     // the table entry is null: encode.length() throws
    | EmptyCode    // the code is "": Integer.parseInt("", 2) throws
    | CodeTooLong  // a code wider than MAX_CODE_BITS, refused before encoding

  /** A table entry that can be written: present and non-empty. */
  predicate Usable(c: Option<Code>)
  {
    c.Some? && c.value != []
  }

  /** Every present entry of the table fits in MAX_CODE_BITS bits. */
  predicate Narrow(table: seq<Option<Code>>)
  {
    forall s :: 0 <= s < |table| ==> table[s].None? || |table[s].value| <= MAX_CODE_BITS
  }

  /** Every byte of the input has a usable code. */
  predicate AllUsable(table: seq<Option<Code>>, input: seq<Byte>)
    requires |table| > PSEUDO_EOF
  {
    forall i :: 0 <= i < |input| ==> Usable(table[input[i]])
  }

  /** The codes of the input bytes, one after the other. */
  function Concat(table: seq<Option<Code>>, input: seq<Byte>): seq<bool>
    requires |table| > PSEUDO_EOF && AllUsable(table, input)
  {
    if input == [] then [] else table[input[0]].value + Concat(table, input[1..])
  }

  /** Encoding one more byte appends its code. */
  lemma {:induction false} ConcatSnoc(table: seq<Option<Code>>, input: seq<Byte>, b: Byte)
    requires |table| > PSEUDO_EOF && AllUsable(table, input) && Usable(table[b])
    ensures AllUsable(table, input + [b])
    ensures Concat(table, input + [b]) == Concat(table, input) + table[b].value
  {
    assert forall i :: 0 <= i < |input| ==> (input + [b])[i] == input[i];
    assert (input + [b])[|input|] == b;
    if input == [] {
      assert [b][1..] == [];
    } else {
      assert (input + [b])[1..] == input[1..] + [b];
      ConcatSnoc(table, input[1..], b);
    }
  }

  /**
   * writeCompressedBits writes each code as writeBits(code.length(), parseInt(code, 2)).
   * A null entry or an empty code throws; a code of at most 31 bits is written back bit
   * for bit.
   */
  function WriteCode(c: Option<Code>): (r: Result<seq<bool>, EncodeError>)
    requires c.Some? ==> |c.value| <= MAX_CODE_BITS
    ensures r.Ok? <==> Usable(c)
    ensures r.Ok? ==> r.value == c.value
    ensures r.Err? ==> r.error == (if c.None? then NullCode else EmptyCode)
  {
    match c
    case None => Err(NullCode)
    case Some(code) =>
      if code == [] then Err(EmptyCode)
      else
        var v := FromBits(code);
        ToFromBits(code);
        Ok(ToBits(v, |code|))
  }

  /**
   * writeCompressedBits: the encoding loop. It succeeds exactly when every input byte and
   * PSEUDO_EOF have usable codes, and then yields the codes of the input in order
   * followed by the code of PSEUDO_EOF; otherwise it reports the first failure.
   */
  method WriteCompressedBits(input: seq<Byte>, codings: array<Option<Code>>)
    returns (r: Result<seq<bool>, EncodeError>)
    requires codings.Length > PSEUDO_EOF && Narrow(codings[..])
    ensures r.Ok? <==> AllUsable(codings[..], input) && Usable(codings[PSEUDO_EOF])
    ensures r.Ok? ==> r.value == Concat(codings[..], input) + codings[PSEUDO_EOF].value
    ensures r.Err? ==> r.error in {NullCode, EmptyCode}
    ensures r.Err? && AllUsable(codings[..], input) ==>
      r.error == (if codings[PSEUDO_EOF].None? then NullCode else EmptyCode)
    ensures r.Err? && !AllUsable(codings[..], input) ==>
      exists k :: 0 <= k < |input| && AllUsable(codings[..], input[..k]) && !Usable(codings[input[k]]) &&
        r.error == (if codings[input[k]].None? then NullCode else EmptyCode)
  {
    ghost var table := codings[..];
    var out: seq<bool> := [];
    var i := 0;
    while i < |input|
      invariant 0 <= i <= |input|
      invariant AllUsable(table, input[..i])
      invariant out == Concat(table, input[..i])
    {
      assert table[input[i]] == codings[input[i]];
      var w := WriteCode(codings[input[i]]);
      if w.Err? {
        assert !Usable(table[input[i]]);
        assert !AllUsable(table, input);
        r := Err(w.error);
        return;
      }
      ConcatSnoc(table, input[..i], input[i]);
      out := out + w.value;
      assert input[..i + 1] == input[..i] + [input[i]];
      i := i + 1;
    }
    assert input[..i] == input;
    assert table[PSEUDO_EOF] == codings[PSEUDO_EOF];
    var eof := WriteCode(codings[PSEUDO_EOF]);
    if eof.Err? {
      r := Err(eof.error);
      return;
    }
    r := Ok(out + eof.value);
  }
}
