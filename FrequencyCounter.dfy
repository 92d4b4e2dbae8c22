/** readForCounts: one pass over the input tallying each of the 256 byte values. */
module FrequencyCounter {
  import opened BitStreams

  /** How many times b occurs in s. */
  function Count(s: seq<int>, b: int): nat
  {
    if s == [] then 0 else Count(s[..|s| - 1], b) + (if s[|s| - 1] == b then 1 else 0)
  }

  /** The frequency table of an input: entry b is the number of occurrences of byte b. */
  function CountsOf(input: seq<Byte>): (f: seq<int>)
    ensures |f| == 256
  {
    seq(256, b requires 0 <= b < 256 => Count(input, b))
  }

  /** The sum of a sequence of integers. */
  function Sum(s: seq<int>): int
  {
    if s == [] then 0 else Sum(s[..|s| - 1]) + s[|s| - 1]
  }

  /**
   * Reads the input one byte at a time until it is exhausted and returns the
   * 256-entry table whose entry b counts the occurrences of b.
   */
  method ReadForCounts(input: seq<Byte>) returns (answer: array<int>)
    ensures answer.Length == 256
    ensures answer[..] == CountsOf(input)
  {
    answer := new int[256](_ => 0);
    var i := 0;
    while i < |input|
      invariant 0 <= i <= |input|
      invariant answer.Length == 256
      invariant forall b :: 0 <= b < 256 ==> answer[b] == Count(input[..i], b)
    {
      assert input[..i + 1][..i] == input[..i];
      answer[input[i]] := answer[input[i]] + 1;
      i := i + 1;
    }
    assert input[..i] == input;
  }

  /** A symbol is counted at least once exactly when it occurs. */
  lemma {:induction false} CountPositiveIffPresent(s: seq<int>, b: int)
    ensures Count(s, b) > 0 <==> b in s
  {
    if s != [] {
      CountPositiveIffPresent(s[..|s| - 1], b);
      assert s == s[..|s| - 1] + [s[|s| - 1]];
    }
  }

  /** Adding d to one entry adds d to the sum. */
  lemma {:induction false} SumUpdate(s: seq<int>, k: nat, d: int)
    requires k < |s|
    ensures Sum(s[k := s[k] + d]) == Sum(s) + d
  {
    var s' := s[k := s[k] + d];
    if k < |s| - 1 {
      assert s'[..|s| - 1] == s[..|s| - 1][k := s[k] + d];
      SumUpdate(s[..|s| - 1], k, d);
    } else {
      assert s'[..|s| - 1] == s[..|s| - 1];
    }
  }

  /** The counts of readForCounts add up to the length of the input. */
  lemma {:induction false} CountsSumToLength(input: seq<Byte>)
    ensures Sum(CountsOf(input)) == |input|
  {
    if input == [] {
      assert CountsOf(input) == seq(256, _ => 0);
      ZeroSum(256);
    } else {
      var init := input[..|input| - 1];
      var x := input[|input| - 1];
      CountsSumToLength(init);
      assert CountsOf(input) == CountsOf(init)[x := CountsOf(init)[x] + 1];
      SumUpdate(CountsOf(init), x, 1);
    }
  }

  /** The sum of the first i + 1 entries adds entry i to the sum of the first i. */
  lemma SumPrefixStep(s: seq<int>, i: nat)
    requires i < |s|
    ensures Sum(s[..i + 1]) == Sum(s[..i]) + s[i]
  {
    assert s[..i + 1][..i] == s[..i];
  }

  /** A table of zeros sums to zero. */
  lemma {:induction false} ZeroSum(n: nat)
    ensures Sum(seq(n, _ => 0)) == 0
  {
    if n > 0 {
      assert seq(n, _ => 0)[..n - 1] == seq(n - 1, _ => 0);
      ZeroSum(n - 1);
    }
  }
}
