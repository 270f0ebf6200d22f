/**
 * The enumerator and the counts derived from the tree: `collect_words_from_node`
 * (a preorder walk that rebuilds every stored word under a node, children in
 * key order) and the number of end-of-word nodes, which the trie's counter tracks.
 */
module Enumerate {
  import opened Wrappers
  import opened RadixNode
  import opened TrieWalk

  /** The parts of `xss` joined in order. */
  function Flatten<T>(xss: seq<seq<T>>): seq<T>
  {
    if xss == [] then [] else xss[0] + Flatten(xss[1..])
  }

  /** The total of `xs`. */
  function Sum(xs: seq<nat>): nat
  {
    if xs == [] then 0 else xs[0] + Sum(xs[1..])
  }

  /** The number of nodes with the end-of-word flag set in the subtree of `n`. */
  function EndCount(n: Node): nat
    decreases n, 1
  {
    (if n.isEnd then 1 else 0) + Sum(ChildEndCounts(n))
  }

  function ChildEndCounts(n: Node): seq<nat>
    decreases n, 0
  {
    seq(|n.children|, i requires 0 <= i < |n.children| => EndCount(n.children[i].1))
  }

  /**
   * `collect_words_from_node(n, prefix)`: the word of `n` (`prefix + key`) when
   * it is an end node, then the words of the children in vector order.
   */
  function Collect(n: Node, prefix: string): seq<string>
    decreases n, 1
  {
    var full := prefix + n.key;
    (if n.isEnd then [full] else []) + Flatten(ChildWords(n, full))
  }

  function ChildWords(n: Node, prefix: string): seq<seq<string>>
    decreases n, 0
  {
    seq(|n.children|, i requires 0 <= i < |n.children| => Collect(n.children[i].1, prefix))
  }

  predicate NoDup(ws: seq<string>)
  {
    forall i, j :: 0 <= i < j < |ws| ==> ws[i] != ws[j]
  }

  lemma {:induction false} FlattenConcat<T>(a: seq<seq<T>>, b: seq<seq<T>>)
    ensures Flatten(a + b) == Flatten(a) + Flatten(b)
  {
    if a != [] {
      assert (a + b)[1..] == a[1..] + b;
      FlattenConcat(a[1..], b);
    } else {
      assert a + b == b;
    }
  }

  lemma {:induction false} FlattenMember(xss: seq<seq<string>>, w: string)
    ensures w in Flatten(xss) <==> exists i :: 0 <= i < |xss| && w in xss[i]
  {
    if xss != [] {
      FlattenMember(xss[1..], w);
      if w in Flatten(xss[1..]) {
        var i :| 0 <= i < |xss[1..]| && w in xss[1..][i];
        assert w in xss[i + 1];
      }
      forall i | 0 <= i < |xss| && w in xss[i]
        ensures w in Flatten(xss)
      {
        if i > 0 { assert xss[1..][i - 1] == xss[i]; }
      }
    }
  }

  lemma {:induction false} SumConcat(a: seq<nat>, b: seq<nat>)
    ensures Sum(a + b) == Sum(a) + Sum(b)
  {
    if a != [] {
      assert (a + b)[1..] == a[1..] + b;
      SumConcat(a[1..], b);
    } else {
      assert a + b == b;
    }
  }

  lemma {:induction false} SumUpdate(s: seq<nat>, i: nat, v: nat)
    requires i < |s|
    ensures Sum(s[i := v]) + s[i] == Sum(s) + v
  {
    if i > 0 {
      assert s[i := v][1..] == s[1..][i - 1 := v];
      SumUpdate(s[1..], i - 1, v);
    }
  }

  lemma {:induction false} FlattenLength<T>(xss: seq<seq<T>>, ns: seq<nat>)
    requires |xss| == |ns| && forall i :: 0 <= i < |xss| ==> |xss[i]| == ns[i]
    ensures |Flatten(xss)| == Sum(ns)
  {
    if xss != [] {
      FlattenLength(xss[1..], ns[1..]);
    }
  }

  /** Every word collected under `n` begins with `prefix + n.key`. */
  lemma {:induction false} CollectHasPrefix(n: Node, prefix: string, w: string)
    requires w in Collect(n, prefix)
    ensures prefix + n.key <= w
    decreases n
  {
    var full := prefix + n.key;
    if w != full {
      FlattenMember(ChildWords(n, full), w);
      var i :| 0 <= i < |n.children| && w in ChildWords(n, full)[i];
      CollectHasPrefix(n.children[i].1, full, w);
    }
  }

  /** The enumeration lists one word per end node. */
  lemma {:induction false} CollectLength(n: Node, prefix: string)
    ensures |Collect(n, prefix)| == EndCount(n)
    decreases n
  {
    var full := prefix + n.key;
    forall i | 0 <= i < |n.children|
      ensures |ChildWords(n, full)[i]| == ChildEndCounts(n)[i]
    {
      CollectLength(n.children[i].1, full);
    }
    FlattenLength(ChildWords(n, full), ChildEndCounts(n));
  }

  /**
   * The enumeration under `n` holds exactly the words that begin with
   * `prefix + n.key` and whose remainder the walk from `n` ends on an end node.
   */
  lemma {:induction false} CollectMembership(n: Node, prefix: string, w: string)
    requires WellFormed(n)
    ensures w in Collect(n, prefix) <==> prefix + n.key <= w && Ends(n, w[|prefix + n.key|..])
    decreases n, 1
  {
    if w in Collect(n, prefix) {
      CollectedEnds(n, prefix, w);
    }
    if prefix + n.key <= w && Ends(n, w[|prefix + n.key|..]) {
      EndsCollected(n, prefix, w);
    }
  }

  lemma {:induction false} CollectedEnds(n: Node, prefix: string, w: string)
    requires WellFormed(n) && w in Collect(n, prefix)
    ensures prefix + n.key <= w && Ends(n, w[|prefix + n.key|..])
    decreases n, 0
  {
    var full := prefix + n.key;
    var cw := ChildWords(n, full);
    FlattenMember(cw, w);
    CollectHasPrefix(n, prefix, w);
    var rest := w[|full|..];
    if w in Flatten(cw) {
      var i :| 0 <= i < |n.children| && w in cw[i];
      var ch := n.children[i].1;
      CollectMembership(ch, full, w);
      assert rest != [] && rest[0] == n.children[i].0 by {
        assert (full + ch.key)[|full|] == ch.key[0];
        assert w[|full|] == (full + ch.key)[|full|];
      }
      assert FindChild(n.children, rest[0]) == Some(i);
      assert rest[..|ch.key|] == ch.key by {
        assert rest[..|ch.key|] == w[|full|..|full| + |ch.key|];
        assert (full + ch.key)[|full|..] == ch.key;
      }
      assert rest[|ch.key|..] == w[|full + ch.key|..];
    } else {
      assert w == full && n.isEnd;
      assert rest == [];
    }
  }

  lemma {:induction false} EndsCollected(n: Node, prefix: string, w: string)
    requires WellFormed(n) && prefix + n.key <= w && Ends(n, w[|prefix + n.key|..])
    ensures w in Collect(n, prefix)
    decreases n, 0
  {
    var full := prefix + n.key;
    var cw := ChildWords(n, full);
    var rest := w[|full|..];
    if rest == [] {
      assert w == full;
    } else {
      FlattenMember(cw, w);
      WalkStep(n, rest);
      var i := FindChild(n.children, rest[0]).value;
      var ch := n.children[i].1;
      assert rest[..|ch.key|] == ch.key;
      assert full + ch.key <= w by {
        assert w == full + rest;
        assert rest == ch.key + rest[|ch.key|..];
      }
      assert w[|full + ch.key|..] == rest[|ch.key|..];
      CollectMembership(ch, full, w);
      assert w in cw[i];
    }
  }

  lemma NoDupConcat(a: seq<string>, b: seq<string>)
    requires NoDup(a) && NoDup(b) && forall w :: w in a ==> w !in b
    ensures NoDup(a + b)
  {
    forall i, j | 0 <= i < j < |a + b|
      ensures (a + b)[i] != (a + b)[j]
    {
      if i < |a| && j >= |a| {
        assert (a + b)[i] in a && (a + b)[j] in b;
      }
    }
  }

  lemma {:induction false} FlattenNoDup(xss: seq<seq<string>>)
    requires forall i :: 0 <= i < |xss| ==> NoDup(xss[i])
    requires forall i, j, w :: 0 <= i < j < |xss| && w in xss[i] ==> w !in xss[j]
    ensures NoDup(Flatten(xss))
  {
    if xss != [] {
      FlattenNoDup(xss[1..]);
      forall w | w in xss[0]
        ensures w !in Flatten(xss[1..])
      {
        FlattenMember(xss[1..], w);
      }
      NoDupConcat(xss[0], Flatten(xss[1..]));
    }
  }

  /** The enumeration lists each stored word once. */
  lemma {:induction false} CollectNoDup(n: Node, prefix: string)
    requires WellFormed(n)
    ensures NoDup(Collect(n, prefix))
    decreases n
  {
    var full := prefix + n.key;
    var cw := ChildWords(n, full);
    forall i | 0 <= i < |cw|
      ensures NoDup(cw[i])
    {
      CollectNoDup(n.children[i].1, full);
    }
    AllChildWordsLead(n, full);
    assert forall i, j :: 0 <= i < j < |cw| ==> n.children[i].0 != n.children[j].0;
    FlattenNoDup(cw);
    if n.isEnd {
      forall w | w in [full]
        ensures w !in Flatten(cw)
      {
        FlattenMember(cw, w);
      }
      NoDupConcat([full], Flatten(cw));
    }
  }

  /** A word collected under child `i` is longer than `prefix` and continues with that child's character. */
  lemma ChildWordLeads(n: Node, prefix: string, i: nat, w: string)
    requires WellFormed(n) && i < |n.children| && w in ChildWords(n, prefix)[i]
    ensures |w| > |prefix| && w[|prefix|] == n.children[i].0
  {
    var ch := n.children[i].1;
    CollectHasPrefix(ch, prefix, w);
    assert (prefix + ch.key)[|prefix|] == ch.key[0];
  }

  lemma AllChildWordsLead(n: Node, prefix: string)
    requires WellFormed(n)
    ensures forall i, w :: 0 <= i < |n.children| && w in ChildWords(n, prefix)[i] ==>
      |w| > |prefix| && w[|prefix|] == n.children[i].0
  {
    forall i, w | 0 <= i < |n.children| && w in ChildWords(n, prefix)[i]
      ensures |w| > |prefix| && w[|prefix|] == n.children[i].0
    {
      ChildWordLeads(n, prefix, i, w);
    }
  }

  /** Replacing one child changes the end count by the difference of the two subtrees' counts. */
  lemma EndCountReplace(n: Node, i: nat, x: Node)
    requires i < |n.children|
    ensures EndCount(n.(children := n.children[i := (n.children[i].0, x)])) + EndCount(n.children[i].1)
         == EndCount(n) + EndCount(x)
  {
    var n' := n.(children := n.children[i := (n.children[i].0, x)]);
    assert ChildEndCounts(n') == ChildEndCounts(n)[i := EndCount(x)];
    SumUpdate(ChildEndCounts(n), i, EndCount(x));
  }

  /** Inserting a child entry adds the count of the inserted subtree. */
  lemma EndCountInsert(n: Node, e: ChildEntry)
    ensures EndCount(n.(children := InsertEntry(n.children, e))) == EndCount(n) + EndCount(e.1)
  {
    var n' := n.(children := InsertEntry(n.children, e));
    var k := LowerBound(n.children, e.0);
    var s := ChildEndCounts(n);
    assert ChildEndCounts(n') == s[..k] + [EndCount(e.1)] + s[k..];
    SumConcat(s[..k] + [EndCount(e.1)], s[k..]);
    SumConcat(s[..k], [EndCount(e.1)]);
    SumConcat(s[..k], s[k..]);
    assert s == s[..k] + s[k..];
  }

  /**
   * Every node below `n` has an end node in its subtree.  Insertion keeps this;
   * removal does not, since it clears a flag and detaches nothing.
   */
  predicate Pruned(n: Node)
    decreases n
  {
    forall i :: 0 <= i < |n.children| ==> EndCount(n.children[i].1) > 0 && Pruned(n.children[i].1)
  }

  /** The words of `ws` that `keep` accepts, in their order. */
  function Filter(ws: seq<string>, keep: string -> bool): (r: seq<string>)
    ensures forall w :: w in r <==> w in ws && keep(w)
    ensures |r| <= |ws|
  {
    if ws == [] then []
    else (if keep(ws[0]) then [ws[0]] else []) + Filter(ws[1..], keep)
  }

  lemma {:induction false} FilterConcat(a: seq<string>, b: seq<string>, keep: string -> bool)
    ensures Filter(a + b, keep) == Filter(a, keep) + Filter(b, keep)
  {
    if a == [] {
      assert a + b == b;
    } else {
      assert (a + b)[1..] == a[1..] + b;
      FilterConcat(a[1..], b, keep);
    }
  }

  lemma {:induction false} FilterAll(ws: seq<string>, keep: string -> bool)
    requires forall w :: w in ws ==> keep(w)
    ensures Filter(ws, keep) == ws
  {
    if ws != [] {
      assert ws[0] in ws;
      forall w | w in ws[1..]
        ensures keep(w)
      {
        assert w in ws;
      }
      FilterAll(ws[1..], keep);
      assert ws == [ws[0]] + ws[1..];
    }
  }

  lemma {:induction false} FilterNone(ws: seq<string>, keep: string -> bool)
    requires forall w :: w in ws ==> !keep(w)
    ensures Filter(ws, keep) == []
  {
    if ws != [] {
      assert ws[0] in ws;
      forall w | w in ws[1..]
        ensures !keep(w)
      {
        assert w in ws;
      }
      FilterNone(ws[1..], keep);
    }
  }

  lemma {:induction false} FilterNoDup(ws: seq<string>, keep: string -> bool)
    requires NoDup(ws)
    ensures NoDup(Filter(ws, keep))
  {
    if ws != [] {
      FilterNoDup(ws[1..], keep);
      var head := if keep(ws[0]) then [ws[0]] else [];
      forall w | w in head
        ensures w !in Filter(ws[1..], keep)
      {
        assert w == ws[0];
        assert forall j :: 1 <= j < |ws| ==> ws[j] != ws[0];
      }
      NoDupConcat(head, Filter(ws[1..], keep));
    }
  }

  /** Filtering a flattened sequence filters each part. */
  lemma {:induction false} FilterFlatten(xss: seq<seq<string>>, keep: string -> bool)
    ensures Filter(Flatten(xss), keep)
         == Flatten(seq(|xss|, i requires 0 <= i < |xss| => Filter(xss[i], keep)))
  {
    var ys := seq(|xss|, i requires 0 <= i < |xss| => Filter(xss[i], keep));
    if xss != [] {
      FilterConcat(xss[0], Flatten(xss[1..]), keep);
      FilterFlatten(xss[1..], keep);
      assert ys[1..] == seq(|xss[1..]|, i requires 0 <= i < |xss[1..]| => Filter(xss[1..][i], keep));
    }
  }

  /** A flattening in which every part but part `i` is empty is part `i`. */
  lemma {:induction false} FlattenSingle(xss: seq<seq<string>>, i: nat)
    requires i < |xss| && forall j :: 0 <= j < |xss| && j != i ==> xss[j] == []
    ensures Flatten(xss) == xss[i]
  {
    if i == 0 {
      FlattenEmpty(xss[1..]);
    } else {
      FlattenSingle(xss[1..], i - 1);
    }
  }

  lemma {:induction false} FlattenEmpty(xss: seq<seq<string>>)
    requires forall j :: 0 <= j < |xss| ==> xss[j] == []
    ensures Flatten(xss) == []
  {
    if xss != [] {
      FlattenEmpty(xss[1..]);
    }
  }

}
