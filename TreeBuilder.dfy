/**
 * makeTreeFromCounts: the greedy Huffman construction. One leaf per counted byte and
 * one PSEUDO_EOF leaf of weight 1 go into a priority queue; the two lightest trees
 * are joined under a new internal node until one tree is left.
 */
module TreeBuilder {
  import opened CodeTree
  import opened FrequencyCounter

  /** Whether the built tree has a leaf for s: a byte counted at least once, or PSEUDO_EOF. */
  predicate IsCoded(freq: seq<int>, s: int)
    requires |freq| == ALPH_SIZE
  {
    (0 <= s < ALPH_SIZE && freq[s] != 0) || s == PSEUDO_EOF
  }

  /**
   * Every node is one makeTreeFromCounts creates: a leaf for a counted byte carries its
   * count, the PSEUDO_EOF leaf weight 1, and an internal node value -1 and the sum of
   * its children's weights.
   */
  predicate BuiltFrom(t: Tree, freq: seq<int>)
    requires |freq| == ALPH_SIZE
  {
    match t
    case Leaf(v, w) =>
      (0 <= v < ALPH_SIZE && freq[v] != 0 && w == freq[v]) || (v == PSEUDO_EOF && w == 1)
    case Node(v, w, l, r) =>
      v == -1 && w == l.weight + r.weight && BuiltFrom(l, freq) && BuiltFrom(r, freq)
  }

  /**
   * A tree makeTreeFromCounts may return: built from freq, each coded symbol on exactly
   * one leaf. It says nothing of optimality; the greedy choice of the two lightest trees
   * is stated by MergeLightest.
   */
  ghost predicate BuiltTreeFor(t: Tree, freq: seq<int>)
    requires |freq| == ALPH_SIZE
  {
    BuiltFrom(t, freq) &&
    forall s :: multiset(Leaves(t))[s] == if IsCoded(freq, s) then 1 else 0
  }

  /** The bytes below i with a non-zero count, as a multiset. */
  function CountedBelow(freq: seq<int>, i: nat): multiset<int>
    requires i <= |freq|
  {
    if i == 0 then multiset{}
    else CountedBelow(freq, i - 1) + if freq[i - 1] != 0 then multiset{i - 1} else multiset{}
  }

  /** The symbols the built tree must have leaves for: every counted byte and PSEUDO_EOF. */
  function CodedSymbols(freq: seq<int>): multiset<int>
    requires |freq| == ALPH_SIZE
  {
    CountedBelow(freq, ALPH_SIZE) + multiset{PSEUDO_EOF}
  }

  /** Whether every count below i is zero. */
  function AllZeroBelow(freq: seq<int>, i: nat): bool
    requires i <= |freq|
  {
    i == 0 || (freq[i - 1] == 0 && AllZeroBelow(freq, i - 1))
  }

  /** AllZeroBelow says what its name says. */
  lemma {:induction false} AllZeroBelowMeans(freq: seq<int>, i: nat)
    requires i <= |freq|
    ensures AllZeroBelow(freq, i) <==> forall j :: 0 <= j < i ==> freq[j] == 0
  {
    if i > 0 {
      AllZeroBelowMeans(freq, i - 1);
    }
  }

  /** CountedBelow holds each byte below i with a non-zero count once, and nothing else. */
  lemma {:induction false} CountedBelowAt(freq: seq<int>, i: nat, s: int)
    requires i <= |freq|
    ensures CountedBelow(freq, i)[s] == if 0 <= s < i && freq[s] != 0 then 1 else 0
  {
    if i > 0 {
      CountedBelowAt(freq, i - 1, s);
    }
  }

  /** CodedSymbols holds exactly the symbols IsCoded picks, once each. */
  lemma CodedSymbolsAt(freq: seq<int>, s: int)
    requires |freq| == ALPH_SIZE
    ensures CodedSymbols(freq)[s] == if IsCoded(freq, s) then 1 else 0
  {
    CountedBelowAt(freq, ALPH_SIZE, s);
  }

  /** The leaf symbols of all trees in the queue. */
  function LeafSymbols(pq: seq<Tree>): multiset<int>
  {
    if pq == [] then multiset{} else multiset(Leaves(pq[0])) + LeafSymbols(pq[1..])
  }

  /** The total weight of the trees in the queue. */
  function TotalWeight(pq: seq<Tree>): int
  {
    if pq == [] then 0 else pq[0].weight + TotalWeight(pq[1..])
  }

  /** Every tree in the queue is one built from freq. */
  ghost predicate AllBuiltFrom(pq: seq<Tree>, freq: seq<int>)
    requires |freq| == ALPH_SIZE
  {
    forall j :: 0 <= j < |pq| ==> BuiltFrom(pq[j], freq)
  }

  /** No tree in the queue weighs less than w. */
  predicate LighterThanAll(w: int, pq: seq<Tree>)
  {
    forall j :: 0 <= j < |pq| ==> w <= pq[j].weight
  }

  /** Adding a tree built from freq to a queue of such trees keeps them all built from freq. */
  lemma AllBuiltFromPush(pq: seq<Tree>, t: Tree, freq: seq<int>)
    requires |freq| == ALPH_SIZE && AllBuiltFrom(pq, freq) && BuiltFrom(t, freq)
    ensures AllBuiltFrom(pq + [t], freq)
  {
    forall j | 0 <= j < |pq| + 1 ensures BuiltFrom((pq + [t])[j], freq) {
      if j < |pq| {
        assert (pq + [t])[j] == pq[j];
      }
    }
  }

  /** pq[k] is a tree of least weight: one that pq.remove() may return. */
  predicate IsMinAt(pq: seq<Tree>, k: int)
  {
    0 <= k < |pq| && forall j :: 0 <= j < |pq| ==> pq[k].weight <= pq[j].weight
  }

  /** A non-empty queue has a least-weight tree. */
  lemma {:induction false} MinExists(pq: seq<Tree>)
    requires pq != []
    ensures exists k :: IsMinAt(pq, k)
  {
    if |pq| > 1 {
      MinExists(pq[1..]);
      var k :| IsMinAt(pq[1..], k);
      if pq[0].weight <= pq[k + 1].weight {
        assert IsMinAt(pq, 0);
      } else {
        assert IsMinAt(pq, k + 1);
      }
    } else {
      assert IsMinAt(pq, 0);
    }
  }

  /** Queue totals add up over concatenation. */
  lemma {:induction false} TotalsAppend(a: seq<Tree>, b: seq<Tree>)
    ensures LeafSymbols(a + b) == LeafSymbols(a) + LeafSymbols(b)
    ensures TotalWeight(a + b) == TotalWeight(a) + TotalWeight(b)
  {
    if a == [] {
      assert a + b == b;
    } else {
      assert (a + b)[0] == a[0] && (a + b)[1..] == a[1..] + b;
      TotalsAppend(a[1..], b);
    }
  }

  /** Adding a tree to the queue adds its symbols and its weight. */
  lemma TotalsPush(pq: seq<Tree>, t: Tree)
    ensures LeafSymbols(pq + [t]) == LeafSymbols(pq) + multiset(Leaves(t))
    ensures TotalWeight(pq + [t]) == TotalWeight(pq) + t.weight
  {
    TotalsAppend(pq, [t]);
    assert [t][1..] == [];
  }

  /** The queue with its k-th tree taken out. */
  function Without(pq: seq<Tree>, k: int): (r: seq<Tree>)
    requires 0 <= k < |pq|
    ensures |r| == |pq| - 1
    ensures forall j :: 0 <= j < |r| ==> r[j] == if j < k then pq[j] else pq[j + 1]
  {
    pq[..k] + pq[k + 1..]
  }

  /** Taking pq[k] out of the queue takes out its symbols and its weight. */
  lemma TotalsRemove(pq: seq<Tree>, k: int)
    requires 0 <= k < |pq|
    ensures LeafSymbols(pq) == LeafSymbols(pq[..k] + pq[k + 1..]) + multiset(Leaves(pq[k]))
    ensures TotalWeight(pq) == TotalWeight(pq[..k] + pq[k + 1..]) + pq[k].weight
  {
    var before, after := pq[..k], pq[k + 1..];
    SplitAround(pq, k);
    TotalsAppend(before + [pq[k]], after);
    TotalsPush(before, pq[k]);
    TotalsAppend(before, after);
  }

  /** A sequence is what comes before position k, the element at k, and what comes after. */
  lemma SplitAround<T>(s: seq<T>, k: int)
    requires 0 <= k < |s|
    ensures s == s[..k] + [s[k]] + s[k + 1..]
  {
    assert s == s[..k + 1] + s[k + 1..];
    assert s[..k + 1] == s[..k] + [s[k]];
  }

  /** The elements of s are those around position k and the one at k. */
  lemma MultisetAround<T>(s: seq<T>, k: int)
    requires 0 <= k < |s|
    ensures multiset(s) == multiset(s[..k] + s[k + 1..]) + multiset{s[k]}
  {
    SplitAround(s, k);
    assert multiset(s) == multiset(s[..k]) + multiset{s[k]} + multiset(s[k + 1..]);
  }

  /** Taking x, then y, out of a leaves c. */
  lemma TwoRemoved<T>(a: seq<T>, b: seq<T>, c: seq<T>, x: T, y: T)
    requires multiset(a) == multiset(b) + multiset{x}
    requires multiset(b) == multiset(c) + multiset{y}
    ensures multiset(a) == multiset(c) + multiset{x, y}
  {
  }

  /**
   * The queue after the first i bytes have been looked at: one leaf per byte below i
   * with a non-zero count, weighing that count.
   */
  ghost predicate QueuedBelow(pq: seq<Tree>, freq: seq<int>, i: nat)
    requires |freq| == ALPH_SIZE && i <= ALPH_SIZE
  {
    (forall t :: t in pq ==> t.Leaf? && BuiltFrom(t, freq)) &&
    LeafSymbols(pq) == CountedBelow(freq, i) &&
    TotalWeight(pq) == Sum(freq[..i]) &&
    (pq == [] <==> AllZeroBelow(freq, i))
  }

  /** Looking at byte i keeps QueuedBelow: a leaf is added exactly when its count is non-zero. */
  lemma QueuedBelowStep(pq: seq<Tree>, freq: seq<int>, i: nat)
    requires |freq| == ALPH_SIZE && i < ALPH_SIZE
    requires QueuedBelow(pq, freq, i)
    ensures QueuedBelow(if freq[i] != 0 then pq + [Leaf(i, freq[i])] else pq, freq, i + 1)
  {
    SumPrefixStep(freq, i);
    if freq[i] != 0 {
      QueuedBelowAdd(pq, freq, i);
    }
  }

  /** A byte with a non-zero count adds its leaf to the queue. */
  lemma QueuedBelowAdd(pq: seq<Tree>, freq: seq<int>, i: nat)
    requires |freq| == ALPH_SIZE && i < ALPH_SIZE && freq[i] != 0
    requires QueuedBelow(pq, freq, i)
    requires Sum(freq[..i + 1]) == Sum(freq[..i]) + freq[i]
    ensures QueuedBelow(pq + [Leaf(i, freq[i])], freq, i + 1)
  {
    var t := Leaf(i, freq[i]);
    TotalsPush(pq, t);
    MembersOfPush(pq, t);
  }

  /** The elements of s + [x] are those of s and x. */
  lemma MembersOfPush<T>(s: seq<T>, x: T)
    ensures forall y :: y in s + [x] <==> y in s || y == x
    ensures s + [x] != []
  {
  }

  /**
   * The start of makeTreeFromCounts: one leaf per byte with a non-zero count, in byte order, then the
   * PSEUDO_EOF leaf of weight 1.
   */
  method InitialQueue(freq: array<int>) returns (pq: seq<Tree>)
    requires freq.Length >= ALPH_SIZE
    ensures forall t :: t in pq ==> t.Leaf? && BuiltFrom(t, freq[..ALPH_SIZE])
    ensures LeafSymbols(pq) == CodedSymbols(freq[..ALPH_SIZE])
    ensures TotalWeight(pq) == Sum(freq[..ALPH_SIZE]) + 1
    ensures |pq| >= 1
    ensures |pq| == 1 <==> forall i :: 0 <= i < ALPH_SIZE ==> freq[i] == 0
  {
    ghost var f := freq[..ALPH_SIZE];
    pq := [];
    for i := 0 to ALPH_SIZE
      invariant QueuedBelow(pq, f, i)
    {
      QueuedBelowStep(pq, f, i);
      if freq[i] != 0 {
        pq := pq + [Leaf(i, freq[i])];
      }
    }
    assert f[..ALPH_SIZE] == f;
    AllZeroBelowMeans(f, ALPH_SIZE);
    TotalsPush(pq, Leaf(PSEUDO_EOF, 1));
    pq := pq + [Leaf(PSEUDO_EOF, 1)];
  }

  /**
   * pq.remove(): takes out a tree of the queue of least weight (any one, when several
   * tie). The rest is the queue without that tree, so it loses that tree's symbols and
   * weight, and the rest still come from freq.
   */
  method RemoveLightest(pq: seq<Tree>, ghost freq: seq<int>) returns (t: Tree, rest: seq<Tree>)
    requires |pq| > 0 && |freq| == ALPH_SIZE
    requires AllBuiltFrom(pq, freq)
    ensures |rest| == |pq| - 1
    ensures LighterThanAll(t.weight, pq) && LighterThanAll(t.weight, rest)
    ensures LeafSymbols(pq) == LeafSymbols(rest) + multiset(Leaves(t))
    ensures TotalWeight(pq) == TotalWeight(rest) + t.weight
    ensures BuiltFrom(t, freq) && AllBuiltFrom(rest, freq)
    ensures multiset(pq) == multiset(rest) + multiset{t}
  {
    MinExists(pq);
    var k :| IsMinAt(pq, k);
    t := pq[k];
    TotalsRemove(pq, k);
    rest := Without(pq, k);
    MultisetAround(pq, k);
  }

  /**
   * One round of the makeTreeFromCounts loop: remove a least-weight tree, then a
   * least-weight tree of what is left, and add an internal node (value -1) joining them,
   * weighing their sum. The other trees stay in the queue, which keeps its symbols and
   * total weight, and every tree stays one built from freq.
   */
  method MergeLightest(pq: seq<Tree>, ghost freq: seq<int>) returns (next: seq<Tree>)
    requires |pq| > 1 && |freq| == ALPH_SIZE
    requires AllBuiltFrom(pq, freq)
    ensures |next| == |pq| - 1
    ensures LeafSymbols(next) == LeafSymbols(pq) && TotalWeight(next) == TotalWeight(pq)
    ensures AllBuiltFrom(next, freq)
    ensures var t := next[|next| - 1];
      t.Node? && t.value == -1 && t.weight == t.left.weight + t.right.weight &&
      LighterThanAll(t.left.weight, pq) && LighterThanAll(t.right.weight, next[..|next| - 1])
    ensures multiset(pq) == multiset(next[..|next| - 1]) + multiset{next[|next| - 1].left, next[|next| - 1].right}
  {
    var left, rest := RemoveLightest(pq, freq);
    var right, others := RemoveLightest(rest, freq);
    next := others + [Node(-1, left.weight + right.weight, left, right)];
    JoinedQueue(pq, rest, others, left, right, freq);
    TwoRemoved(pq, rest, others, left, right);
  }

  /** The queue after the two lightest trees were taken out and their join was added. */
  lemma JoinedQueue(pq: seq<Tree>, rest: seq<Tree>, others: seq<Tree>, left: Tree, right: Tree, freq: seq<int>)
    requires |freq| == ALPH_SIZE && |pq| > 1
    requires |rest| == |pq| - 1 && |others| == |rest| - 1
    requires LighterThanAll(left.weight, pq) && LighterThanAll(right.weight, others)
    requires LeafSymbols(pq) == LeafSymbols(rest) + multiset(Leaves(left))
    requires LeafSymbols(rest) == LeafSymbols(others) + multiset(Leaves(right))
    requires TotalWeight(pq) == TotalWeight(rest) + left.weight
    requires TotalWeight(rest) == TotalWeight(others) + right.weight
    requires BuiltFrom(left, freq) && BuiltFrom(right, freq) && AllBuiltFrom(others, freq)
    ensures var next := others + [Node(-1, left.weight + right.weight, left, right)];
      |next| == |pq| - 1 &&
      LeafSymbols(next) == LeafSymbols(pq) && TotalWeight(next) == TotalWeight(pq) &&
      AllBuiltFrom(next, freq) &&
      next[..|next| - 1] == others
  {
    var t := Node(-1, left.weight + right.weight, left, right);
    assert BuiltFrom(t, freq);
    TotalsPush(others, t);
    AllBuiltFromPush(others, t, freq);
    PushPrefix(others, t);
  }

  /** Dropping the last element of s + [x] gives s back. */
  lemma PushPrefix<T>(s: seq<T>, x: T)
    ensures (s + [x])[..|s + [x]| - 1] == s
  {
  }

  /**
   * Builds the code tree for a frequency table. The queue is a sequence from which
   * any least-weight tree may be removed, so ties are broken in no particular order.
   */
  method MakeTreeFromCounts(freq: array<int>) returns (root: Tree)
    requires freq.Length >= ALPH_SIZE
    ensures BuiltTreeFor(root, freq[..ALPH_SIZE])
    ensures root.weight == Sum(freq[..ALPH_SIZE]) + 1
    ensures root.Leaf? <==> forall i :: 0 <= i < ALPH_SIZE ==> freq[i] == 0
  {
    ghost var f := freq[..ALPH_SIZE];
    var pq := InitialQueue(freq);
    ghost var pq0 := pq;
    ghost var merged := false;
    assert AllBuiltFrom(pq, f) by {
      forall j | 0 <= j < |pq| ensures BuiltFrom(pq[j], f) {
        assert pq[j] in pq;
      }
    }
    while |pq| > 1
      invariant |pq| >= 1
      invariant AllBuiltFrom(pq, f)
      invariant merged ==> |pq0| > 1
      invariant LeafSymbols(pq) == CodedSymbols(f)
      invariant TotalWeight(pq) == Sum(f) + 1
      invariant !merged ==> pq == pq0
      invariant merged ==> pq[|pq| - 1].Node?
      decreases |pq|
    {
      pq := MergeLightest(pq, f);
      merged := true;
    }
    root := pq[0];
    assert !merged ==> root in pq0;
    assert pq == [root];
    LastTree(root, f);
  }

  /** The one tree left in the queue is a tree built from freq, of the total weight. */
  lemma LastTree(root: Tree, freq: seq<int>)
    requires |freq| == ALPH_SIZE && AllBuiltFrom([root], freq)
    requires LeafSymbols([root]) == CodedSymbols(freq)
    requires TotalWeight([root]) == Sum(freq) + 1
    ensures BuiltTreeFor(root, freq)
    ensures root.weight == Sum(freq) + 1
  {
    assert BuiltFrom([root][0], freq);
    TotalsPush([], root);
    assert [] + [root] == [root];
    forall s ensures multiset(Leaves(root))[s] == if IsCoded(freq, s) then 1 else 0 {
      CodedSymbolsAt(freq, s);
    }
  }
}
