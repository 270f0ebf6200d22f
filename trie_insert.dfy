/**
 * Insertion: `split_node` and the descent of `insert`.  The in-place edits
 * `insert` and `split_node` make through node pointers (overwrite a child's
 * key, move it under a new intermediate node, set a flag) are modelled as
 * rebuilding the node values along the path.
 */
module TrieInsert {
  import opened Wrappers
  import opened RadixNode
  import opened TrieWalk
  import opened Enumerate

  /**
   * The intermediate node `split_node` builds from `child`: it holds the first
   * `cl` characters of the child's key and hangs under `c`; the old child, with
   * the rest of its key, becomes its only child and hangs under that rest's first character.
   */
  function Intermediate(child: Node, c: char, cl: nat): (mid: Node)
    requires cl < |child.key|
    ensures mid.key == child.key[..cl] && !mid.isEnd && mid.parentChar == c
  {
    var k := child.key;
    var mid := KeyNode(k[..cl]).(parentChar := c);
    var moved := child.(key := k[cl..]);
    var oldFirst := moved.key[0];
    mid.(children := InsertEntry(mid.children, (oldFirst, moved.(parentChar := oldFirst))))
  }

  /** `split_node(current, c, cl, ...)`: the child under `c` is replaced by its intermediate node. */
  function SplitNode(n: Node, c: char, cl: nat): (r: Node)
    requires FindChild(n.children, c).Some?
    requires cl < |n.children[FindChild(n.children, c).value].1.key|
    ensures r.key == n.key && r.isEnd == n.isEnd && r.parentChar == n.parentChar
    ensures |r.children| == |n.children|
  {
    var i := FindChild(n.children, c).value;
    n.(children := n.children[i := (c, Intermediate(n.children[i].1, c, cl))])
  }

  /** Whether the walk through `child` (the child under `v[0]`) ends on an end node. */
  predicate DescendEnds(child: Node, v: string)
  {
    Descend(child, v).Some? && Descend(child, v).value.isEnd
  }

  lemma DescendEndsUnfold(child: Node, v: string)
    ensures DescendEnds(child, v) == (child.key <= v && Ends(child, v[|child.key|..]))
  {
  }

  /**
   * Two nodes that differ only in what one child lookup returns hold the same
   * words except those that start with that child's character.
   */
  lemma EndsAfterChildChange(n: Node, n': Node, c: char, x: Node, v: string)
    requires n'.isEnd == n.isEnd
    requires forall d :: ChildFor(n'.children, d) == if d == c then Some(x) else ChildFor(n.children, d)
    ensures Ends(n', v) == if v != [] && v[0] == c then DescendEnds(x, v) else Ends(n, v)
  {
    if v != [] {
      WalkStep(n, v);
      WalkStep(n', v);
    }
  }

  /** A node that is not an end and has one child holds exactly the words below that child. */
  lemma SingleChildEnds(mid: Node, d: char, moved: Node, u: string)
    requires !mid.isEnd && mid.children == [(d, moved)]
    ensures Ends(mid, u) <==> u != [] && u[0] == d && DescendEnds(moved, u)
  {
    if u != [] {
      WalkStep(mid, u);
    }
  }

  /** A key is a prefix of `v` exactly when its two halves, cut at `cl`, are prefixes of `v` and of `v[cl..]`. */
  lemma PrefixHalves(k: string, cl: nat, v: string)
    requires cl <= |k|
    ensures k <= v <==> k[..cl] <= v && k[cl..] <= v[cl..]
    ensures k <= v ==> v[cl..][|k| - cl..] == v[|k|..]
  {
    if k[..cl] <= v && k[cl..] <= v[cl..] {
      assert k == k[..cl] + k[cl..];
      assert v[..|k|] == v[..cl] + v[cl..][..|k| - cl];
    }
  }

  /** An intermediate node holds, below itself, exactly the words its old child held. */
  lemma IntermediateDescend(child: Node, c: char, cl: nat, v: string)
    requires 0 < cl < |child.key|
    ensures DescendEnds(Intermediate(child, c, cl), v) == DescendEnds(child, v)
  {
    var k := child.key;
    var mid := Intermediate(child, c, cl);
    var moved := child.(key := k[cl..], parentChar := k[cl]);
    assert mid.children == [(k[cl], moved)];
    assert k[cl..][0] == k[cl];
    DescendEndsUnfold(mid, v);
    DescendEndsUnfold(child, v);
    PrefixHalves(k, cl, v);
    if k[..cl] <= v {
      SingleChildEnds(mid, k[cl], moved, v[cl..]);
      DescendEndsUnfold(moved, v[cl..]);
      if k <= v {
        EndsByLookup(moved, child, v[|k|..]);
      }
    }
  }

  /** `split_node` keeps every child vector sorted and every entry consistent. */
  lemma SplitNodeWellFormed(n: Node, c: char, cl: nat)
    requires WellFormed(n) && FindChild(n.children, c).Some?
    requires 0 < cl < |n.children[FindChild(n.children, c).value].1.key|
    ensures WellFormed(SplitNode(n, c, cl))
  {
    var i := FindChild(n.children, c).value;
    var child := n.children[i].1;
    var k := child.key;
    var mid := Intermediate(child, c, cl);
    var moved := child.(key := k[cl..], parentChar := k[cl]);
    var r := SplitNode(n, c, cl);
    assert mid.children == [(k[cl], moved)];
    assert WellFormed(moved) by {
      assert moved.children == child.children;
    }
    assert WellFormed(mid);
    ReplaceEntryLookup(n.children, i, mid);
    forall j | 0 <= j < |r.children|
      ensures EntryOk(r.children[j]) && WellFormed(r.children[j].1)
    {
      if j == i {
        assert k[..cl][0] == k[0];
      }
    }
  }

  /** `split_node` keeps exactly the stored words. */
  lemma SplitNodeKeepsWords(n: Node, c: char, cl: nat, v: string)
    requires WellFormed(n) && FindChild(n.children, c).Some?
    requires 0 < cl < |n.children[FindChild(n.children, c).value].1.key|
    ensures Ends(SplitNode(n, c, cl), v) == Ends(n, v)
  {
    var i := FindChild(n.children, c).value;
    var child := n.children[i].1;
    var mid := Intermediate(child, c, cl);
    ReplaceEntryLookup(n.children, i, mid);
    EndsAfterChildChange(n, SplitNode(n, c, cl), c, mid, v);
    if v != [] && v[0] == c {
      IntermediateDescend(child, c, cl, v);
      WalkStep(n, v);
    }
  }

  /** `split_node` adds a node that is not an end node, so the end count stays. */
  lemma SplitNodeKeepsCount(n: Node, c: char, cl: nat)
    requires FindChild(n.children, c).Some?
    requires cl < |n.children[FindChild(n.children, c).value].1.key|
    ensures EndCount(SplitNode(n, c, cl)) == EndCount(n)
  {
    var i := FindChild(n.children, c).value;
    var child := n.children[i].1;
    var k := child.key;
    var mid := Intermediate(child, c, cl);
    var moved := child.(key := k[cl..], parentChar := k[cl]);
    assert mid.children == [(k[cl], moved)];
    assert ChildEndCounts(mid) == [EndCount(moved)];
    assert ChildEndCounts(moved) == ChildEndCounts(child);
    assert Sum([EndCount(moved)]) == EndCount(moved) + Sum([]);
    assert EndCount(mid) == EndCount(moved);
    assert EndCount(moved) == (if child.isEnd then 1 else 0) + Sum(ChildEndCounts(child)) == EndCount(child);
    assert SplitNode(n, c, cl) == n.(children := n.children[i := (n.children[i].0, mid)]);
    EndCountReplace(n, i, mid);
  }

  /**
   * The loop of `insert` from node `n` with `w` left to place (non-empty):
   * returns the rebuilt node and whether the counter is incremented.
   *  - no child under `w[0]`: a new end leaf holding all of `w` goes in at the lower bound;
   *  - the child's key is a prefix of `w`: mark it if `w` ends there, else continue below it;
   *  - otherwise split the child and, at the intermediate node, mark it or continue.
   */
  function InsertAt(n: Node, w: string): (r: (Node, bool))
    requires WellFormed(n) && w != []
    ensures r.0.key == n.key && r.0.isEnd == n.isEnd && r.0.parentChar == n.parentChar
    decreases |w|
  {
    var c := w[0];
    match FindChild(n.children, c)
    case None =>
      var leaf := LinkedNode(w, c).(isEnd := true);
      (n.(children := InsertEntry(n.children, (c, leaf))), true)
    case Some(i) =>
      var child := n.children[i].1;
      var cl := CommonPrefixLength(child.key, w);
      if cl == |child.key| then
        if cl == |w| then
          (n.(children := n.children[i := (c, child.(isEnd := true))]), !child.isEnd)
        else
          var sub := InsertAt(child, w[cl..]);
          (n.(children := n.children[i := (c, sub.0)]), sub.1)
      else
        SplitNodeWellFormed(n, c, cl);
        var n1 := SplitNode(n, c, cl);
        var mid := n1.children[i].1;
        if cl == |w| then
          (n1.(children := n1.children[i := (c, mid.(isEnd := true))]), !mid.isEnd)
        else
          var sub := InsertAt(mid, w[cl..]);
          (n1.(children := n1.children[i := (c, sub.0)]), sub.1)
  }

  /** Walking through a replacement child that holds the old child's words plus the rest of `w`. */
  lemma DescendReplace(x: Node, child: Node, w: string, v: string)
    requires x.key == child.key && x.key <= w
    requires forall u :: Ends(x, u) <==> u == w[|x.key|..] || Ends(child, u)
    ensures DescendEnds(x, v) <==> v == w || DescendEnds(child, v)
  {
    var k := x.key;
    DescendEndsUnfold(x, v);
    DescendEndsUnfold(child, v);
    if k <= v {
      assert v == w <==> v[|k|..] == w[|k|..] by {
        assert v == k + v[|k|..];
        assert w == k + w[|k|..];
      }
      assert Ends(x, v[|k|..]) <==> v[|k|..] == w[|k|..] || Ends(child, v[|k|..]);
    } else {
      assert v != w;
    }
  }

  /** One word's membership after the child under `w[0]` is replaced as in `ReplaceChildWords`. */
  lemma ReplaceChildWordAt(n: Node, i: nat, x: Node, w: string, v: string)
    requires WellFormed(n) && i < |n.children| && w != [] && n.children[i].0 == w[0]
    requires x.key == n.children[i].1.key && x.key <= w
    requires forall u :: Ends(x, u) <==> u == w[|x.key|..] || Ends(n.children[i].1, u)
    ensures Ends(n.(children := n.children[i := (n.children[i].0, x)]), v) <==> v == w || Ends(n, v)
  {
    var cs := n.children;
    var c := cs[i].0;
    var child := cs[i].1;
    var n' := n.(children := cs[i := (c, x)]);
    ReplaceEntryLookup(cs, i, x);
    ChildForAt(cs, c, i);
    EndsAfterChildChange(n, n', c, x, v);
    EndsAfterChildChange(n, n, c, child, v);
    DescendReplace(x, child, w, v);
  }

  /**
   * Replacing the child under `w[0]` by a node with the same key that holds
   * the old child's words plus the rest of `w` adds exactly `w` to `n`.
   */
  lemma ReplaceChildWords(n: Node, i: nat, x: Node, w: string)
    requires WellFormed(n) && i < |n.children| && w != [] && n.children[i].0 == w[0]
    requires WellFormed(x) && x.key == n.children[i].1.key && x.parentChar == n.children[i].1.parentChar
    requires x.key <= w
    requires forall u :: Ends(x, u) <==> u == w[|x.key|..] || Ends(n.children[i].1, u)
    ensures WellFormed(n.(children := n.children[i := (n.children[i].0, x)]))
    ensures forall v :: Ends(n.(children := n.children[i := (n.children[i].0, x)]), v) <==> v == w || Ends(n, v)
    ensures Ends(n, w) == Ends(n.children[i].1, w[|x.key|..])
  {
    var cs := n.children;
    var n' := n.(children := cs[i := (cs[i].0, x)]);
    ReplaceEntryLookup(cs, i, x);
    assert WellFormed(n') by {
      forall j | 0 <= j < |n'.children|
        ensures EntryOk(n'.children[j]) && WellFormed(n'.children[j].1)
      {
      }
    }
    forall v
      ensures Ends(n', v) <==> v == w || Ends(n, v)
    {
      ReplaceChildWordAt(n, i, x, w, v);
    }
    ChildForAt(cs, cs[i].0, i);
    WalkStep(n, w);
  }

  /** The case where `w` ends exactly at an existing child: its flag is set. */
  lemma MarkChildCorrect(n: Node, i: nat, w: string)
    requires WellFormed(n) && i < |n.children| && w == n.children[i].1.key
    ensures var x := n.children[i].1.(isEnd := true);
      var n' := n.(children := n.children[i := (n.children[i].0, x)]);
      && WellFormed(n')
      && (forall v :: Ends(n', v) <==> v == w || Ends(n, v))
      && Ends(n, w) == n.children[i].1.isEnd
      && EndCount(n') == EndCount(n) + (if n.children[i].1.isEnd then 0 else 1)
  {
    var child := n.children[i].1;
    var x := child.(isEnd := true);
    assert WellFormed(x) by { assert x.children == child.children; }
    forall u
      ensures Ends(x, u) <==> u == w[|x.key|..] || Ends(child, u)
    {
      if u != [] {
        WalkStep(x, u);
        WalkStep(child, u);
      }
    }
    ReplaceChildWords(n, i, x, w);
    assert ChildEndCounts(x) == ChildEndCounts(child);
    EndCountReplace(n, i, x);
  }

  /** The case where the walk continues below a child whose key is a proper prefix of `w`. */
  lemma DescendChildCorrect(n: Node, i: nat, w: string, x: Node, added: bool)
    requires WellFormed(n) && i < |n.children| && w != [] && n.children[i].0 == w[0]
    requires n.children[i].1.key <= w
    requires WellFormed(x) && x.key == n.children[i].1.key && x.parentChar == n.children[i].1.parentChar
    requires forall u :: Ends(x, u) <==> u == w[|x.key|..] || Ends(n.children[i].1, u)
    requires added == !Ends(n.children[i].1, w[|x.key|..])
    requires EndCount(x) == EndCount(n.children[i].1) + (if added then 1 else 0)
    ensures var n' := n.(children := n.children[i := (n.children[i].0, x)]);
      && WellFormed(n')
      && (forall v :: Ends(n', v) <==> v == w || Ends(n, v))
      && added == !Ends(n, w)
      && EndCount(n') == EndCount(n) + (if added then 1 else 0)
  {
    ReplaceChildWords(n, i, x, w);
    EndCountReplace(n, i, x);
  }

  /** The case where no child starts with `w[0]`: a new end leaf holding `w` is inserted at the lower bound. */
  lemma NewLeafCorrect(n: Node, w: string)
    requires WellFormed(n) && w != [] && FindChild(n.children, w[0]).None?
    ensures var leaf := LinkedNode(w, w[0]).(isEnd := true);
      var r := n.(children := InsertEntry(n.children, (w[0], leaf)));
      && WellFormed(r)
      && (forall v :: Ends(r, v) <==> v == w || Ends(n, v))
      && !Ends(n, w)
      && EndCount(r) == EndCount(n) + 1
  {
    var c := w[0];
    var cs := n.children;
    var leaf := LinkedNode(w, c).(isEnd := true);
    var r := n.(children := InsertEntry(cs, (c, leaf)));
    NewLeafWellFormed(n, w);
    forall v
      ensures Ends(r, v) <==> v == w || Ends(n, v)
    {
      NewLeafWordAt(n, w, v);
    }
    WalkStep(n, w);
    EndCountInsert(n, (c, leaf));
    assert ChildEndCounts(leaf) == [];
  }

  /** The new leaf goes in at the lower bound, so the child vector stays sorted. */
  lemma NewLeafWellFormed(n: Node, w: string)
    requires WellFormed(n) && w != [] && FindChild(n.children, w[0]).None?
    ensures WellFormed(n.(children := InsertEntry(n.children, (w[0], LinkedNode(w, w[0]).(isEnd := true)))))
  {
    var c := w[0];
    var cs := n.children;
    var leaf := LinkedNode(w, c).(isEnd := true);
    var r := n.(children := InsertEntry(cs, (c, leaf)));
    InsertEntryLookup(cs, (c, leaf));
    forall j | 0 <= j < |r.children|
      ensures EntryOk(r.children[j]) && WellFormed(r.children[j].1)
    {
      InsertEntryAt(cs, (c, leaf), j);
    }
  }

  /** One word's membership after the new leaf is added. */
  lemma NewLeafWordAt(n: Node, w: string, v: string)
    requires WellFormed(n) && w != [] && FindChild(n.children, w[0]).None?
    ensures var r := n.(children := InsertEntry(n.children, (w[0], LinkedNode(w, w[0]).(isEnd := true))));
      Ends(r, v) <==> v == w || Ends(n, v)
  {
    var c := w[0];
    var cs := n.children;
    var leaf := LinkedNode(w, c).(isEnd := true);
    var r := n.(children := InsertEntry(cs, (c, leaf)));
    InsertEntryLookup(cs, (c, leaf));
    EndsAfterChildChange(n, r, c, leaf, v);
    if v != [] && v[0] == c {
      WalkStep(n, v);
      if |w| <= |v| && v[..|w|] == w && v[|w|..] != [] {
        WalkStep(leaf, v[|w|..]);
      }
      if v == w {
        assert v[|w|..] == [];
      }
    }
  }


  /** The case where `w` parts from the key of the child under `w[0]`: split, then mark or continue at the intermediate node. */
  lemma {:induction false} SplitCaseCorrect(n: Node, w: string)
    requires WellFormed(n) && w != [] && FindChild(n.children, w[0]).Some?
    requires CommonPrefixLength(n.children[FindChild(n.children, w[0]).value].1.key, w)
           < |n.children[FindChild(n.children, w[0]).value].1.key|
    ensures WellFormed(InsertAt(n, w).0)
    ensures forall v :: Ends(InsertAt(n, w).0, v) <==> v == w || Ends(n, v)
    ensures InsertAt(n, w).1 == !Ends(n, w)
    ensures EndCount(InsertAt(n, w).0) == EndCount(n) + (if InsertAt(n, w).1 then 1 else 0)
    decreases |w|, 0
  {
    var c := w[0];
    var i := FindChild(n.children, c).value;
    var child := n.children[i].1;
    var cl := CommonPrefixLength(child.key, w);
    SplitNodeWellFormed(n, c, cl);
    SplitNodeKeepsCount(n, c, cl);
    var n1 := SplitNode(n, c, cl);
    forall v
      ensures Ends(n1, v) == Ends(n, v)
    {
      SplitNodeKeepsWords(n, c, cl, v);
    }
    var mid := n1.children[i].1;
    assert mid.key == child.key[..cl] == w[..cl];
    if cl == |w| {
      MarkChildCorrect(n1, i, w);
    } else {
      var sub := InsertAt(mid, w[cl..]);
      InsertAtCorrect(mid, w[cl..]);
      DescendChildCorrect(n1, i, w, sub.0, sub.1);
    }
  }

  /** The case where the child under `w[0]` has a key that is a prefix of `w`: mark it, or continue below it. */
  lemma {:induction false} PrefixCaseCorrect(n: Node, w: string)
    requires WellFormed(n) && w != [] && FindChild(n.children, w[0]).Some?
    requires CommonPrefixLength(n.children[FindChild(n.children, w[0]).value].1.key, w)
          == |n.children[FindChild(n.children, w[0]).value].1.key|
    ensures WellFormed(InsertAt(n, w).0)
    ensures forall v :: Ends(InsertAt(n, w).0, v) <==> v == w || Ends(n, v)
    ensures InsertAt(n, w).1 == !Ends(n, w)
    ensures EndCount(InsertAt(n, w).0) == EndCount(n) + (if InsertAt(n, w).1 then 1 else 0)
    decreases |w|, 1
  {
    if |w| == |n.children[FindChild(n.children, w[0]).value].1.key| {
      PrefixMarkCase(n, w);
    } else {
      PrefixDescendCase(n, w);
    }
  }

  /** The prefix case where `w` ends exactly at the child: its flag is set. */
  lemma PrefixMarkCase(n: Node, w: string)
    requires WellFormed(n) && w != [] && FindChild(n.children, w[0]).Some?
    requires CommonPrefixLength(n.children[FindChild(n.children, w[0]).value].1.key, w)
          == |n.children[FindChild(n.children, w[0]).value].1.key| == |w|
    ensures WellFormed(InsertAt(n, w).0)
    ensures forall v :: Ends(InsertAt(n, w).0, v) <==> v == w || Ends(n, v)
    ensures InsertAt(n, w).1 == !Ends(n, w)
    ensures EndCount(InsertAt(n, w).0) == EndCount(n) + (if InsertAt(n, w).1 then 1 else 0)
  {
    var i := FindChild(n.children, w[0]).value;
    assert w == n.children[i].1.key;
    MarkChildCorrect(n, i, w);
  }

  /** The prefix case where the walk continues below the child with the rest of `w`. */
  lemma {:induction false} PrefixDescendCase(n: Node, w: string)
    requires WellFormed(n) && w != [] && FindChild(n.children, w[0]).Some?
    requires CommonPrefixLength(n.children[FindChild(n.children, w[0]).value].1.key, w)
          == |n.children[FindChild(n.children, w[0]).value].1.key| < |w|
    ensures WellFormed(InsertAt(n, w).0)
    ensures forall v :: Ends(InsertAt(n, w).0, v) <==> v == w || Ends(n, v)
    ensures InsertAt(n, w).1 == !Ends(n, w)
    ensures EndCount(InsertAt(n, w).0) == EndCount(n) + (if InsertAt(n, w).1 then 1 else 0)
    decreases |w|, 0
  {
    var i := FindChild(n.children, w[0]).value;
    var child := n.children[i].1;
    var rest := w[|child.key|..];
    InsertAtDescends(n, w);
    InsertAtCorrect(child, rest);
    var x := InsertAt(child, rest).0;
    assert child.key <= w by {
      assert child.key[..|child.key|] == child.key;
    }
    assert x.key == child.key;
    assert forall u :: Ends(x, u) <==> u == w[|x.key|..] || Ends(child, u);
    DescendChildCorrect(n, i, w, x, InsertAt(child, rest).1);
  }

  /** The prefix case of `InsertAt`, unfolded: the child is rebuilt by the descent with the rest of `w`. */
  lemma InsertAtDescends(n: Node, w: string)
    requires WellFormed(n) && w != [] && FindChild(n.children, w[0]).Some?
    requires CommonPrefixLength(n.children[FindChild(n.children, w[0]).value].1.key, w)
          == |n.children[FindChild(n.children, w[0]).value].1.key| < |w|
    ensures var i := FindChild(n.children, w[0]).value;
      var sub := InsertAt(n.children[i].1, w[|n.children[i].1.key|..]);
      InsertAt(n, w) == (n.(children := n.children[i := (w[0], sub.0)]), sub.1)
  {
  }


  /**
   * The insert descent adds exactly `w` to the words below `n`, keeps the node
   * well formed, and reports an increment exactly when `w` was not yet stored,
   * which is when the end count grows by one.
   */
  lemma {:induction false} InsertAtCorrect(n: Node, w: string)
    requires WellFormed(n) && w != []
    ensures WellFormed(InsertAt(n, w).0)
    ensures forall v :: Ends(InsertAt(n, w).0, v) <==> v == w || Ends(n, v)
    ensures InsertAt(n, w).1 == !Ends(n, w)
    ensures EndCount(InsertAt(n, w).0) == EndCount(n) + (if InsertAt(n, w).1 then 1 else 0)
    decreases |w|, 2
  {
    match FindChild(n.children, w[0])
    case None =>
      NewLeafCorrect(n, w);
    case Some(i) =>
      if CommonPrefixLength(n.children[i].1.key, w) == |n.children[i].1.key| {
        PrefixCaseCorrect(n, w);
      } else {
        SplitCaseCorrect(n, w);
      }
  }

  /** Replacing a child by a pruned subtree that holds a word keeps the node pruned. */
  lemma PrunedReplace(n: Node, i: nat, x: Node)
    requires Pruned(n) && i < |n.children| && EndCount(x) > 0 && Pruned(x)
    ensures Pruned(n.(children := n.children[i := (n.children[i].0, x)]))
  {
  }

  /** The case lemmas of `InsertAtPruned`: a split keeps the moved child's subtree, so the intermediate node holds a word. */
  lemma {:induction false} SplitCasePruned(n: Node, w: string)
    requires WellFormed(n) && w != [] && Pruned(n) && FindChild(n.children, w[0]).Some?
    requires CommonPrefixLength(n.children[FindChild(n.children, w[0]).value].1.key, w)
           < |n.children[FindChild(n.children, w[0]).value].1.key|
    ensures Pruned(InsertAt(n, w).0)
    decreases |w|, 0
  {
    var c := w[0];
    var i := FindChild(n.children, c).value;
    var child := n.children[i].1;
    var cl := CommonPrefixLength(child.key, w);
    SplitNodeWellFormed(n, c, cl);
    var n1 := SplitNode(n, c, cl);
    var mid := n1.children[i].1;
    var moved := child.(key := child.key[cl..]).(parentChar := child.key[cl]);
    assert mid.children == [(child.key[cl], moved)];
    assert EndCount(moved) == EndCount(child) by {
      assert ChildEndCounts(moved) == ChildEndCounts(child);
    }
    assert Pruned(moved) by {
      assert moved.children == child.children;
    }
    assert ChildEndCounts(mid) == [EndCount(moved)];
    assert Sum([EndCount(moved)]) == EndCount(moved) + Sum([]);
    assert Pruned(mid);
    PrunedReplace(n, i, mid);
    var x: Node;
    if cl == |w| {
      x := mid.(isEnd := true);
      assert ChildEndCounts(x) == ChildEndCounts(mid);
    } else {
      x := InsertAt(mid, w[cl..]).0;
      InsertAtPruned(mid, w[cl..]);
      InsertAtCorrect(mid, w[cl..]);
    }
    assert Pruned(x);
    PrunedReplace(n1, i, x);
  }

  lemma {:induction false} PrefixCasePruned(n: Node, w: string)
    requires WellFormed(n) && w != [] && Pruned(n) && FindChild(n.children, w[0]).Some?
    requires CommonPrefixLength(n.children[FindChild(n.children, w[0]).value].1.key, w)
          == |n.children[FindChild(n.children, w[0]).value].1.key|
    ensures Pruned(InsertAt(n, w).0)
    decreases |w|, 0
  {
    var c := w[0];
    var i := FindChild(n.children, c).value;
    var child := n.children[i].1;
    var cl := CommonPrefixLength(child.key, w);
    if cl == |w| {
      var x := child.(isEnd := true);
      assert ChildEndCounts(x) == ChildEndCounts(child);
      PrunedReplace(n, i, x);
    } else {
      InsertAtPruned(child, w[cl..]);
      InsertAtCorrect(child, w[cl..]);
      PrunedReplace(n, i, InsertAt(child, w[cl..]).0);
    }
  }

  /** Insertion leaves no subtree without an end node. */
  lemma {:induction false} InsertAtPruned(n: Node, w: string)
    requires WellFormed(n) && w != [] && Pruned(n)
    ensures Pruned(InsertAt(n, w).0)
    decreases |w|, 1
  {
    match FindChild(n.children, w[0])
    case None =>
      var leaf := LinkedNode(w, w[0]).(isEnd := true);
      var r := n.(children := InsertEntry(n.children, (w[0], leaf)));
      assert ChildEndCounts(leaf) == [];
      forall j | 0 <= j < |r.children|
        ensures EndCount(r.children[j].1) > 0 && Pruned(r.children[j].1)
      {
        InsertEntryAt(n.children, (w[0], leaf), j);
      }
    case Some(i) =>
      if CommonPrefixLength(n.children[i].1.key, w) == |n.children[i].1.key| {
        PrefixCasePruned(n, w);
      } else {
        SplitCasePruned(n, w);
      }
  }

  /** `insert(w)` from the root: nothing for the empty word, otherwise the descent. */
  function InsertWord(root: Node, w: string): (r: Node)
    requires WellFormed(root)
    ensures WellFormed(r) && r.key == root.key && r.isEnd == root.isEnd && r.parentChar == root.parentChar
    ensures forall v :: Ends(r, v) <==> (w != [] && v == w) || Ends(root, v)
    ensures EndCount(r) == EndCount(root) + (if w != [] && !Ends(root, w) then 1 else 0)
    ensures Pruned(root) ==> Pruned(r)
  {
    if w == [] then root
    else
      InsertAtCorrect(root, w);
      if Pruned(root) then
        InsertAtPruned(root, w);
        InsertAt(root, w).0
      else InsertAt(root, w).0
  }

  /** The words of `ws` inserted in order. */
  function InsertWords(root: Node, ws: seq<string>): (r: Node)
    requires WellFormed(root)
    ensures WellFormed(r) && r.key == root.key && r.isEnd == root.isEnd && r.parentChar == root.parentChar
    decreases |ws|
  {
    if ws == [] then root
    else InsertWord(InsertWords(root, ws[..|ws| - 1]), ws[|ws| - 1])
  }

  /** Inserting one more word of a list: the prefix of length `k + 1` is the prefix of length `k`, then `ws[k]`. */
  lemma InsertWordsSnoc(root: Node, ws: seq<string>, k: nat)
    requires WellFormed(root) && k < |ws|
    ensures InsertWords(root, ws[..k + 1]) == InsertWord(InsertWords(root, ws[..k]), ws[k])
  {
    assert ws[..k + 1][..k] == ws[..k];
  }

  /** After inserting `ws` the trie stores exactly the old words and the non-empty words of `ws`; pruning is kept. */
  lemma {:induction false} InsertWordsCorrect(root: Node, ws: seq<string>)
    requires WellFormed(root)
    ensures forall v :: Ends(InsertWords(root, ws), v) <==> (v != [] && v in ws) || Ends(root, v)
    ensures Pruned(root) ==> Pruned(InsertWords(root, ws))
    decreases |ws|
  {
    if ws != [] {
      var front := ws[..|ws| - 1];
      InsertWordsCorrect(root, front);
      assert ws == front + [ws[|ws| - 1]];
      assert forall v :: v in ws <==> v in front || v == ws[|ws| - 1];
    }
  }

  /** Inserting `a` and then `b` is inserting `a + b`. */
  lemma {:induction false} InsertWordsAppend(root: Node, a: seq<string>, b: seq<string>)
    requires WellFormed(root)
    ensures InsertWords(InsertWords(root, a), b) == InsertWords(root, a + b)
    decreases |b|
  {
    if b == [] {
      assert a + b == a;
    } else {
      var front := b[..|b| - 1];
      InsertWordsAppend(root, a, front);
      assert (a + b)[..|a + b| - 1] == a + front;
      assert (a + b)[|a + b| - 1] == b[|b| - 1];
    }
  }
}
