/**
 * The integer parts of the three statistics routines: the preorder lists of
 * end-node depths and word lengths, node and key-byte counts, minimum, maximum,
 * a most frequent value and the length histogram.
 */
module Analytics {
  import opened RadixNode
  import opened Enumerate

  /** `HeightStats` without `average_height`. */
  datatype HeightStats = HeightStats(minHeight: nat, maxHeight: nat, modeHeight: nat, allHeights: seq<nat>)

  /** `MemoryStats` without `bytes_per_word`. */
  datatype MemoryStats = MemoryStats(totalBytes: nat, nodeCount: nat, stringBytes: nat, overheadBytes: nat)

  /** `WordMetrics` without `average_length`. */
  datatype WordMetrics = WordMetrics(minLength: nat, maxLength: nat, modeLength: nat,
                                     lengthDistribution: seq<nat>, totalCharacters: nat)

  /** `calculate_heights_recursive(n, depth)`: the depth of every end node below `n`, in preorder. */
  function Heights(n: Node, depth: nat): seq<nat>
    decreases n, 1
  {
    (if n.isEnd then [depth] else []) + Flatten(ChildHeights(n, depth + 1))
  }

  function ChildHeights(n: Node, depth: nat): seq<seq<nat>>
    decreases n, 0
  {
    seq(|n.children|, i requires 0 <= i < |n.children| => Heights(n.children[i].1, depth))
  }

  /** `collect_word_lengths_recursive(n, len)`: the length of every word below `n`, in preorder. */
  function Lengths(n: Node, len: nat): seq<nat>
    decreases n, 1
  {
    var l := len + |n.key|;
    (if n.isEnd then [l] else []) + Flatten(ChildLengths(n, l))
  }

  function ChildLengths(n: Node, len: nat): seq<seq<nat>>
    decreases n, 0
  {
    seq(|n.children|, i requires 0 <= i < |n.children| => Lengths(n.children[i].1, len))
  }

  /** The `count_nodes` walk of `get_memory_stats`: the number of nodes, `n` included. */
  function CountNodes(n: Node): nat
    decreases n, 1
  {
    1 + Sum(ChildNodeCounts(n))
  }

  function ChildNodeCounts(n: Node): seq<nat>
    decreases n, 0
  {
    seq(|n.children|, i requires 0 <= i < |n.children| => CountNodes(n.children[i].1))
  }

  /** The same walk's total of key lengths. */
  function KeyBytes(n: Node): nat
    decreases n, 1
  {
    |n.key| + Sum(ChildKeyBytes(n))
  }

  function ChildKeyBytes(n: Node): seq<nat>
    decreases n, 0
  {
    seq(|n.children|, i requires 0 <= i < |n.children| => KeyBytes(n.children[i].1))
  }

  /** `std::min_element`. */
  function Min(xs: seq<nat>): (m: nat)
    requires xs != []
    ensures m in xs && forall x :: x in xs ==> m <= x
  {
    if |xs| == 1 then xs[0]
    else
      var m := Min(xs[1..]);
      assert xs == [xs[0]] + xs[1..];
      if xs[0] <= m then xs[0] else m
  }

  /** `std::max_element`. */
  function Max(xs: seq<nat>): (m: nat)
    requires xs != []
    ensures m in xs && forall x :: x in xs ==> x <= m
  {
    if |xs| == 1 then xs[0]
    else
      var m := Max(xs[1..]);
      assert xs == [xs[0]] + xs[1..];
      if xs[0] >= m then xs[0] else m
  }

  function WordLengths(ws: seq<string>): (r: seq<nat>)
    ensures |r| == |ws| && forall i :: 0 <= i < |ws| ==> r[i] == |ws[i]|
  {
    seq(|ws|, i requires 0 <= i < |ws| => |ws[i]|)
  }

  /** There is one height per end node. */
  lemma {:induction false} HeightsCount(n: Node, depth: nat)
    ensures |Heights(n, depth)| == EndCount(n)
    decreases n
  {
    forall i | 0 <= i < |n.children|
      ensures |ChildHeights(n, depth + 1)[i]| == ChildEndCounts(n)[i]
    {
      HeightsCount(n.children[i].1, depth + 1);
    }
    FlattenLength(ChildHeights(n, depth + 1), ChildEndCounts(n));
  }

  lemma {:induction false} WordLengthsConcat(a: seq<string>, b: seq<string>)
    ensures WordLengths(a + b) == WordLengths(a) + WordLengths(b)
  {
  }

  lemma {:induction false} WordLengthsFlatten(xss: seq<seq<string>>)
    ensures WordLengths(Flatten(xss))
         == Flatten(seq(|xss|, i requires 0 <= i < |xss| => WordLengths(xss[i])))
  {
    var ys := seq(|xss|, i requires 0 <= i < |xss| => WordLengths(xss[i]));
    if xss != [] {
      WordLengthsConcat(xss[0], Flatten(xss[1..]));
      WordLengthsFlatten(xss[1..]);
      assert ys[1..] == seq(|xss[1..]|, i requires 0 <= i < |xss[1..]| => WordLengths(xss[1..][i]));
    }
  }

  /** The lengths collected under `n` are those of the words the enumeration rebuilds, in the same order. */
  lemma {:induction false} LengthsAreWordLengths(n: Node, pre: string)
    ensures Lengths(n, |pre|) == WordLengths(Collect(n, pre))
    decreases n
  {
    var full := pre + n.key;
    var cw := ChildWords(n, full);
    var head: seq<string> := if n.isEnd then [full] else [];
    WordLengthsConcat(head, Flatten(cw));
    WordLengthsFlatten(cw);
    forall i | 0 <= i < |n.children|
      ensures ChildLengths(n, |full|)[i] == WordLengths(cw[i])
    {
      LengthsAreWordLengths(n.children[i].1, full);
    }
    assert ChildLengths(n, |pre| + |n.key|)
        == seq(|cw|, i requires 0 <= i < |cw| => WordLengths(cw[i]));
  }

  /** Each end node is a node; the root, never an end node, is one more. */
  lemma {:induction false} EndCountBelowNodes(n: Node)
    ensures EndCount(n) + (if n.isEnd then 0 else 1) <= CountNodes(n)
    decreases n
  {
    forall i | 0 <= i < |n.children|
      ensures ChildEndCounts(n)[i] <= ChildNodeCounts(n)[i]
    {
      EndCountBelowNodes(n.children[i].1);
    }
    SumPointwise(ChildEndCounts(n), ChildNodeCounts(n));
  }

  lemma {:induction false} SumPointwise(a: seq<nat>, b: seq<nat>)
    requires |a| == |b| && forall i :: 0 <= i < |a| ==> a[i] <= b[i]
    ensures Sum(a) <= Sum(b)
  {
    if a != [] {
      SumPointwise(a[1..], b[1..]);
    }
  }

  /**
   * The two loops of the mode computation: count each value into a map, then
   * visit the map's entries in an unspecified order, keeping the first with a
   * strictly larger count.  Which of several equally frequent values is
   * returned depends on that order; it is always one of maximal frequency.
   */
  method ModeOf(xs: seq<nat>) returns (mode: nat)
    requires xs != []
    ensures mode in xs && forall y :: y in xs ==> multiset(xs)[y] <= multiset(xs)[mode]
  {
    var frequency := CountFrequencies(xs);
    assert xs[0] in multiset(xs);
    mode := MostFrequent(frequency);
  }

  /** The frequency map of the mode computation: each value of `xs` with its number of occurrences. */
  method CountFrequencies(xs: seq<nat>) returns (frequency: map<nat, nat>)
    ensures forall y :: y in frequency <==> y in multiset(xs)
    ensures forall y :: y in frequency ==> frequency[y] == multiset(xs)[y]
  {
    frequency := map[];
    var i := 0;
    while i < |xs|
      invariant 0 <= i <= |xs|
      invariant forall y :: y in frequency <==> y in multiset(xs[..i])
      invariant forall y :: y in frequency ==> frequency[y] == multiset(xs[..i])[y]
    {
      var x := xs[i];
      frequency := frequency[x := (if x in frequency then frequency[x] else 0) + 1];
      assert xs[..i + 1] == xs[..i] + [x];
      i := i + 1;
    }
    assert xs[..i] == xs;
  }

  /** The scan over the frequency map: a key whose count no other key exceeds. */
  method MostFrequent(frequency: map<nat, nat>) returns (mode: nat)
    requires frequency != map[] && forall y :: y in frequency ==> frequency[y] > 0
    ensures mode in frequency && forall y :: y in frequency ==> frequency[y] <= frequency[mode]
  {
    var maxCount := 0;
    mode := 0;
    var rest := frequency.Keys;
    while rest != {}
      invariant rest <= frequency.Keys
      invariant forall y :: y in frequency && y !in rest ==> frequency[y] <= maxCount
      invariant maxCount > 0 ==> mode in frequency && frequency[mode] == maxCount
      invariant maxCount == 0 ==> rest == frequency.Keys
      decreases |rest|
    {
      var h :| h in rest;
      if frequency[h] > maxCount {
        maxCount := frequency[h];
        mode := h;
      }
      rest := rest - {h};
    }
    assert maxCount > 0 by {
      var y :| y in frequency;
      assert frequency[y] > 0;
    }
  }

  /** The counts of the values `0..k-1` of `xs`. */
  function CountsBelow(xs: seq<nat>, k: nat): (r: seq<nat>)
    ensures |r| == k && forall l :: 0 <= l < k ==> r[l] == multiset(xs)[l]
  {
    seq(k, l requires 0 <= l < k => multiset(xs)[l])
  }

  /** When every value is below `k`, the counts of `0..k-1` add up to the number of values. */
  lemma {:induction false} CountsBelowSum(xs: seq<nat>, k: nat)
    requires forall x :: x in xs ==> x < k
    ensures Sum(CountsBelow(xs, k)) == |xs|
    decreases |xs|
  {
    if xs == [] {
      SumZeros(CountsBelow(xs, k));
    } else {
      var ys := xs[..|xs| - 1];
      var x := xs[|xs| - 1];
      assert xs == ys + [x];
      assert x in xs;
      assert multiset(xs) == multiset(ys) + multiset{x};
      assert forall y :: y in ys ==> y in xs;
      CountsBelowSum(ys, k);
      var s := CountsBelow(ys, k);
      assert CountsBelow(xs, k) == s[x := s[x] + 1];
      SumUpdate(s, x, s[x] + 1);
    }
  }

  lemma {:induction false} SumZeros(s: seq<nat>)
    requires forall i :: 0 <= i < |s| ==> s[i] == 0
    ensures Sum(s) == 0
  {
    if s != [] {
      SumZeros(s[1..]);
    }
  }

  /** `length_distribution`: `maxLength + 1` slots, slot `l` counting the values equal to `l`. */
  method Distribution(xs: seq<nat>, maxLength: nat) returns (dist: seq<nat>)
    requires forall x :: x in xs ==> x <= maxLength
    ensures dist == CountsBelow(xs, maxLength + 1)
  {
    var a := new nat[maxLength + 1](_ => 0);
    var i := 0;
    while i < |xs|
      invariant 0 <= i <= |xs|
      invariant forall l :: 0 <= l <= maxLength ==> a[l] == multiset(xs[..i])[l]
    {
      var x := xs[i];
      assert x in xs;
      a[x] := a[x] + 1;
      assert xs[..i + 1] == xs[..i] + [x];
      i := i + 1;
    }
    assert xs[..i] == xs;
    dist := a[..];
  }

  /**
   * The integer parts of `get_word_metrics()` over the lengths of a non-empty
   * set of words: shortest, longest, a most frequent length, the counts of
   * each length up to the longest, and the total.
   */
  method LengthMetrics(lengths: seq<nat>) returns (m: WordMetrics)
    requires lengths != [] && forall l :: l in lengths ==> l >= 1
    ensures m.minLength == Min(lengths) && m.maxLength == Max(lengths)
    ensures 1 <= m.minLength <= m.modeLength <= m.maxLength
    ensures m.modeLength in lengths
    ensures forall l :: l in lengths ==> multiset(lengths)[l] <= multiset(lengths)[m.modeLength]
    ensures m.lengthDistribution == CountsBelow(lengths, m.maxLength + 1)
    ensures Sum(m.lengthDistribution) == |lengths|
    ensures m.totalCharacters == Sum(lengths)
  {
    var minLength := Min(lengths);
    var maxLength := Max(lengths);
    var mode := ModeOf(lengths);
    var dist := Distribution(lengths, maxLength);
    CountsBelowSum(lengths, maxLength + 1);
    m := WordMetrics(minLength, maxLength, mode, dist, Sum(lengths));
  }
}
