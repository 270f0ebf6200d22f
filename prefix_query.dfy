/**
 * `words_with_prefix`: walk to the node or edge where the prefix ends, then
 * enumerate from there.  Proved equal to the full enumeration filtered by the
 * prefix, which gives membership, uniqueness and order at once.
 */
module PrefixQuery {
  import opened Wrappers
  import opened RadixNode
  import opened TrieWalk
  import opened Enumerate

  /** The test for a word that begins with `p`. */
  function HasPrefix(p: string): string -> bool
  {
    w => p <= w
  }

  /**
   * The prefix rebuilt for the node where the walk stops: `p` less that node's
   * key, when the key is non-empty and no longer than `p`.
   */
  function BasePrefix(p: string, key: string): (r: string)
    ensures key != [] && |key| <= |p| ==> |r| == |p| - |key|
    ensures !(key != [] && |key| <= |p|) ==> r == p
  {
    if key != [] && |p| >= |key| then p[..|p| - |key|] else p
  }

  /**
   * The walk of `words_with_prefix` below `n` from position `pos` of `p`: when
   * the prefix ends exactly at a node, enumerate that node with `BasePrefix`;
   * otherwise follow the child for `p[pos]`, if there is one.
   */
  function PrefixCollect(n: Node, p: string, pos: nat): seq<string>
    requires pos <= |p|
    decreases n, 1
  {
    if pos == |p| then Collect(n, BasePrefix(p, n.key))
    else
      match FindChild(n.children, p[pos])
      case None => []
      case Some(i) => EdgeCollect(n.children[i].1, p, pos)
  }

  /**
   * The edge into `child` at position `pos`: when the prefix ends part-way
   * along its key and the key continues it, enumerate the child with the
   * prefix read so far; when the key is read in full, go on below it;
   * otherwise nothing.
   */
  function EdgeCollect(child: Node, p: string, pos: nat): seq<string>
    requires pos < |p|
    decreases child, 2
  {
    if pos + |child.key| > |p| then
      if p[pos..] == child.key[..|p| - pos] then Collect(child, p[..pos]) else []
    else if p[pos..pos + |child.key|] != child.key then []
    else PrefixCollect(child, p, pos + |child.key|)
  }

  /** `words_with_prefix(p)`: every word for the empty prefix, otherwise the walk from the root. */
  function WordsWithPrefix(root: Node, p: string): (r: seq<string>)
    ensures p == [] ==> r == Collect(root, [])
  {
    if p == [] then Collect(root, []) else PrefixCollect(root, p, 0)
  }

  /** Two prefixes of one word: the shorter is a prefix of the longer. */
  lemma PrefixesNest(a: string, b: string, w: string)
    ensures a <= w && b <= w && |a| <= |b| ==> a <= b
  {
    if a <= w && b <= w && |a| <= |b| {
      assert a == w[..|a|] && b[..|a|] == w[..|a|];
    }
  }

  /** Nothing under a child whose character differs from `p[pos]` begins with `p`. */
  lemma OtherChildNone(n: Node, p: string, pos: nat, j: nat)
    requires WellFormed(n) && pos < |p| && j < |n.children| && n.children[j].0 != p[pos]
    ensures Filter(ChildWords(n, p[..pos])[j], HasPrefix(p)) == []
  {
    var full := p[..pos];
    forall w | w in ChildWords(n, full)[j]
      ensures !(p <= w)
    {
      ChildWordLeads(n, full, j, w);
      PrefixesNest(full + [w[pos]], p, w);
      assert !(full + [w[pos]] <= p) by {
        assert (full + [w[pos]])[pos] == w[pos];
      }
      assert |full + [w[pos]]| == pos + 1;
      PrefixesNest(full + [w[pos]], p, w);
      assert full + [w[pos]] <= w by {
        assert w[..pos] == full by {
          CollectHasPrefix(n.children[j].1, full, w);
        }
        assert w[..pos + 1] == w[..pos] + [w[pos]];
      }
    }
    FilterNone(ChildWords(n, full)[j], HasPrefix(p));
  }

  /**
   * Beyond a prefix `full` of `p`, an edge key `k` agrees with `p` (covering
   * what is left of `p`, or being covered by it) exactly when the comparison
   * the walk makes succeeds.
   */
  lemma ExtensionAgrees(full: string, k: string, p: string)
    requires full <= p
    ensures |p| < |full + k| ==> (p <= full + k <==> p[|full|..] == k[..|p| - |full|])
    ensures |full + k| <= |p| ==> (full + k <= p <==> p[|full|..|full| + |k|] == k)
  {
    assert p == full + p[|full|..];
    if |p| < |full + k| {
      if p <= full + k {
        assert p[|full|..] == (full + k)[|full|..|p|];
      }
      if p[|full|..] == k[..|p| - |full|] {
        assert p == (full + k)[..|p|];
      }
    } else {
      if full + k <= p {
        assert p[|full|..|full| + |k|] == (full + k)[|full|..];
      }
      if p[|full|..|full| + |k|] == k {
        assert p[..|full + k|] == full + k;
      }
    }
  }

  /** Under the child for `p[pos]`, filtering by `p` gives what the walk gives at that edge. */
  lemma MatchingChild(n: Node, p: string, pos: nat, i: nat)
    requires WellFormed(n) && pos < |p| && i < |n.children| && n.children[i].0 == p[pos]
    ensures var child := n.children[i].1;
      var k := child.key;
      pos + |k| > |p| ==>
        Filter(Collect(child, p[..pos]), HasPrefix(p)) ==
          if p[pos..] == k[..|p| - pos] then Collect(child, p[..pos]) else []
    ensures var k := n.children[i].1.key;
      pos + |k| <= |p| && p[pos..pos + |k|] != k ==> Filter(Collect(n.children[i].1, p[..pos]), HasPrefix(p)) == []
  {
    var child := n.children[i].1;
    var k := child.key;
    var full := p[..pos];
    var ws := Collect(child, full);
    ExtensionAgrees(full, k, p);
    if pos + |k| > |p| {
      if p[pos..] == k[..|p| - pos] {
        forall w | w in ws
          ensures p <= w
        {
          CollectHasPrefix(child, full, w);
        }
        FilterAll(ws, HasPrefix(p));
      } else {
        forall w | w in ws
          ensures !(p <= w)
        {
          CollectHasPrefix(child, full, w);
          PrefixesNest(p, full + k, w);
        }
        FilterNone(ws, HasPrefix(p));
      }
    } else if p[pos..pos + |k|] != k {
      forall w | w in ws
        ensures !(p <= w)
      {
        CollectHasPrefix(child, full, w);
        PrefixesNest(full + k, p, w);
      }
      FilterNone(ws, HasPrefix(p));
    }
  }

  /** Where the walk stops at `n` with `p` used up, it enumerates all of `n`. */
  lemma AtEndFilters(n: Node, pre: string, p: string)
    requires pre + n.key == p
    ensures Collect(n, BasePrefix(p, n.key)) == Filter(Collect(n, pre), HasPrefix(p))
  {
    assert BasePrefix(p, n.key) == pre by {
      if n.key != [] {
        assert p[..|p| - |n.key|] == pre;
      }
    }
    forall w | w in Collect(n, pre)
      ensures p <= w
    {
      CollectHasPrefix(n, pre, w);
    }
    FilterAll(Collect(n, pre), HasPrefix(p));
  }

  /**
   * One step below a node whose full word is `p[..pos]`: only the child for
   * `p[pos]` contributes to the filtered enumeration.
   */
  lemma StepFilters(n: Node, pre: string, p: string, pos: nat)
    requires WellFormed(n) && pos < |p| && pre + n.key == p[..pos]
    ensures Filter(Collect(n, pre), HasPrefix(p)) ==
      match FindChild(n.children, p[pos])
      case None => []
      case Some(i) => Filter(Collect(n.children[i].1, p[..pos]), HasPrefix(p))
  {
    var full := pre + n.key;
    var cw := ChildWords(n, full);
    var head: seq<string> := if n.isEnd then [full] else [];
    FilterConcat(head, Flatten(cw), HasPrefix(p));
    FilterNone(head, HasPrefix(p));
    FilterFlatten(cw, HasPrefix(p));
    var ys := seq(|cw|, j requires 0 <= j < |cw| => Filter(cw[j], HasPrefix(p)));
    match FindChild(n.children, p[pos])
    case None =>
      forall j | 0 <= j < |ys|
        ensures ys[j] == []
      {
        OtherChildNone(n, p, pos, j);
      }
      FlattenEmpty(ys);
    case Some(i) =>
      forall j | 0 <= j < |ys| && j != i
        ensures ys[j] == []
      {
        OtherChildNone(n, p, pos, j);
      }
      FlattenSingle(ys, i);
  }

  /**
   * Below a node `n` whose full word `pre + n.key` is `p[..pos]`, the walk
   * returns exactly the enumeration of `n` filtered by `p`.
   */
  lemma {:induction false} PrefixCollectFilters(n: Node, pre: string, p: string, pos: nat)
    requires WellFormed(n) && pos <= |p| && pre + n.key == p[..pos]
    ensures PrefixCollect(n, p, pos) == Filter(Collect(n, pre), HasPrefix(p))
    decreases n, 1
  {
    if pos == |p| {
      AtEndFilters(n, pre, p);
    } else {
      StepFilters(n, pre, p, pos);
      ChildFilters(n, p, pos);
    }
  }

  /** The inductive step: the walk's answer at the edge for `p[pos]` is the filtered enumeration of that child. */
  lemma {:induction false} ChildFilters(n: Node, p: string, pos: nat)
    requires WellFormed(n) && pos < |p|
    ensures PrefixCollect(n, p, pos) ==
      match FindChild(n.children, p[pos])
      case None => []
      case Some(i) => Filter(Collect(n.children[i].1, p[..pos]), HasPrefix(p))
    decreases n, 0
  {
    var r := FindChild(n.children, p[pos]);
    if r.Some? {
      var i := r.value;
      var child := n.children[i].1;
      var k := child.key;
      MatchingChild(n, p, pos, i);
      if pos + |k| <= |p| && p[pos..pos + |k|] == k {
        assert p[..pos] + k == p[..pos + |k|] by {
          assert p[..pos + |k|] == p[..pos] + p[pos..pos + |k|];
        }
        PrefixCollectFilters(child, p[..pos], p, pos + |k|);
      }
    }
  }

  /** `words_with_prefix(p)` is the preorder enumeration of all words, filtered by `p`. */
  lemma WordsWithPrefixIsFilter(root: Node, p: string)
    requires ValidRoot(root)
    ensures WordsWithPrefix(root, p) == Filter(Collect(root, []), HasPrefix(p))
  {
    if p == [] {
      FilterAll(Collect(root, []), HasPrefix(p));
    } else {
      PrefixCollectFilters(root, [], p, 0);
    }
  }

  /** It returns exactly the stored words that begin with `p`, each once. */
  lemma WordsWithPrefixCorrect(root: Node, p: string)
    requires ValidRoot(root)
    ensures forall w :: w in WordsWithPrefix(root, p) <==> Search(root, w) && p <= w
    ensures NoDup(WordsWithPrefix(root, p))
  {
    WordsWithPrefixIsFilter(root, p);
    forall w
      ensures w in Collect(root, []) <==> Search(root, w)
    {
      StoredWordMembership(root, w);
    }
    CollectNoDup(root, []);
    FilterNoDup(Collect(root, []), HasPrefix(p));
  }

  /** The words of the whole enumeration are exactly the words `search` finds. */
  lemma StoredWordMembership(root: Node, w: string)
    requires ValidRoot(root)
    ensures w in Collect(root, []) <==> Search(root, w)
  {
    CollectMembership(root, [], w);
    assert [] + root.key == [];
    assert w[|[] + root.key|..] == w;
  }

  /** `starts_with(p)` holds whenever some stored word begins with `p`. */
  lemma WordsImplyStartsWith(root: Node, p: string)
    requires ValidRoot(root) && WordsWithPrefix(root, p) != []
    ensures StartsWith(root, EndCount(root), p)
  {
    if p == [] {
      CollectLength(root, []);
    } else {
      var w := WordsWithPrefix(root, p)[0];
      WordsWithPrefixCorrect(root, p);
      assert w in WordsWithPrefix(root, p);
      assert p[0..] == p;
      PrefixOfStored(root, w, p, 0);
    }
  }

  /** In a pruned trie the walk of `starts_with` only succeeds where some word lies beyond. */
  lemma {:induction false} PrefixWalkCollects(n: Node, p: string, pos: nat)
    requires Pruned(n) && pos <= |p| && (pos < |p| || EndCount(n) > 0)
    requires PrefixWalk(n, p, pos)
    ensures PrefixCollect(n, p, pos) != []
    decreases n
  {
    if pos == |p| {
      CollectLength(n, BasePrefix(p, n.key));
    } else {
      var i := FindChild(n.children, p[pos]).value;
      var child := n.children[i].1;
      if pos + |child.key| > |p| {
        CollectLength(child, p[..pos]);
      } else {
        PrefixWalkCollects(child, p, pos + |child.key|);
      }
    }
  }

  /** The converse of `WordsImplyStartsWith`, which holds once no subtree is left without a word. */
  lemma StartsWithImpliesWords(root: Node, p: string)
    requires ValidRoot(root) && Pruned(root) && StartsWith(root, EndCount(root), p)
    ensures WordsWithPrefix(root, p) != []
  {
    if p == [] {
      CollectLength(root, []);
    } else {
      PrefixWalkCollects(root, p, 0);
    }
  }
}
