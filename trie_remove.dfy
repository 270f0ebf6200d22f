/**
 * Removal: the flag update of `remove` and the upward walk of
 * `cleanup_orphaned_nodes`.  `remove` clears the end flag of the word's node
 * before it calls the cleanup, and the cleanup only starts pruning from a node
 * whose flag is still set and only detaches nodes whose flag is clear; so at
 * the one call site it returns at once.  That is proved here, not assumed.
 */
module TrieRemove {
  import opened Wrappers
  import opened RadixNode
  import opened TrieWalk
  import opened Enumerate

  /** The node reached by `find_node`'s walk with its end flag overwritten by `b`; unchanged when the walk fails. */
  function SetEnd(n: Node, w: string, b: bool): (r: Node)
    ensures r.key == n.key && r.parentChar == n.parentChar && |r.children| == |n.children|
    decreases n
  {
    if w == [] then n.(isEnd := b)
    else
      match FindChild(n.children, w[0])
      case None => n
      case Some(i) =>
        var child := n.children[i].1;
        if |child.key| > |w| || w[..|child.key|] != child.key then n
        else n.(children := n.children[i := (n.children[i].0, SetEnd(child, w[|child.key|..], b))])
  }

  /** The tree with every end flag cleared: what is left when only the node structure counts. */
  function Shape(n: Node): Node
    decreases n
  {
    Node(n.key, false, n.parentChar,
         seq(|n.children|, i requires 0 <= i < |n.children| => (n.children[i].0, Shape(n.children[i].1))))
  }

  /** Overwriting one end flag detaches, adds or moves no node. */
  lemma {:induction false} SetEndKeepsShape(n: Node, w: string, b: bool)
    ensures Shape(SetEnd(n, w, b)) == Shape(n)
    decreases n
  {
    if w != [] {
      match FindChild(n.children, w[0])
      case None =>
      case Some(i) =>
        var child := n.children[i].1;
        if |child.key| <= |w| && w[..|child.key|] == child.key {
          SetEndKeepsShape(child, w[|child.key|..], b);
          var r := SetEnd(n, w, b);
          assert Shape(r).children == Shape(n).children;
        }
    }
  }

  /**
   * When the walk reaches a node, overwriting its flag with `b` makes `w` stored
   * iff `b`, changes no other word, keeps the tree well formed, and moves the end
   * count by the flag's change.
   */
  lemma {:induction false} SetEndCorrect(n: Node, w: string, b: bool)
    requires WellFormed(n) && Walk(n, w).Some?
    ensures WellFormed(SetEnd(n, w, b))
    ensures forall v :: Ends(SetEnd(n, w, b), v) == if v == w then b else Ends(n, v)
    ensures EndCount(SetEnd(n, w, b)) + (if Ends(n, w) then 1 else 0) == EndCount(n) + (if b then 1 else 0)
    decreases n
  {
    var r := SetEnd(n, w, b);
    if w == [] {
      forall v
        ensures Ends(r, v) == if v == w then b else Ends(n, v)
      {
        if v != [] {
          WalkStep(n, v);
          WalkStep(r, v);
        }
      }
      assert ChildEndCounts(r) == ChildEndCounts(n);
    } else {
      var c := w[0];
      var i := FindChild(n.children, c).value;
      var child := n.children[i].1;
      var k := child.key;
      var rest := w[|k|..];
      var sub := SetEnd(child, rest, b);
      SetEndCorrect(child, rest, b);
      ReplaceEntryLookup(n.children, i, sub);
      assert WellFormed(r) by {
        forall j | 0 <= j < |r.children|
          ensures EntryOk(r.children[j]) && WellFormed(r.children[j].1)
        {
        }
      }
      ChildForAt(n.children, c, i);
      forall v
        ensures Ends(r, v) == if v == w then b else Ends(n, v)
      {
        SetEndWordAt(n, i, sub, w, b, v);
      }
      WalkStep(n, w);
      EndCountReplace(n, i, sub);
    }
  }

  /** Through one edge: a subtree that differs from `child` only at `w` gives the same descent except at `w`. */
  lemma SameEdge(child: Node, sub: Node, w: string, b: bool, v: string)
    requires sub.key == child.key && sub.key <= w
    requires forall u :: Ends(sub, u) == if u == w[|sub.key|..] then b else Ends(child, u)
    ensures (Descend(sub, v).Some? && Descend(sub, v).value.isEnd) ==
      if v == w then b else (Descend(child, v).Some? && Descend(child, v).value.isEnd)
  {
    var k := child.key;
    if |k| <= |v| && v[..|k|] == k {
      assert v == w <==> v[|k|..] == w[|k|..] by {
        assert v == k + v[|k|..];
        assert w == k + w[|k|..];
      }
      assert Ends(sub, v[|k|..]) == if v[|k|..] == w[|k|..] then b else Ends(child, v[|k|..]);
    } else {
      assert |k| <= |w| && w[..|k|] == k;
    }
  }

  lemma SetEndWordAt(n: Node, i: nat, sub: Node, w: string, b: bool, v: string)
    requires WellFormed(n) && i < |n.children| && w != [] && n.children[i].0 == w[0]
    requires sub.key == n.children[i].1.key && sub.key <= w
    requires forall u :: Ends(sub, u) == if u == w[|sub.key|..] then b else Ends(n.children[i].1, u)
    ensures Ends(n.(children := n.children[i := (n.children[i].0, sub)]), v) == if v == w then b else Ends(n, v)
  {
    var cs := n.children;
    var c := cs[i].0;
    var n' := n.(children := cs[i := (c, sub)]);
    ReplaceEntryLookup(cs, i, sub);
    ChildForAt(cs, c, i);
    if v != [] {
      WalkStep(n, v);
      WalkStep(n', v);
      if v[0] == c {
        SameEdge(cs[i].1, sub, w, b, v);
      } else {
        assert v != w;
      }
    }
  }


  /** The walk of `cleanup_orphaned_nodes`: the characters of the entries it follows to the node that spells `w`. */
  function PathTo(n: Node, w: string): Option<seq<char>>
    decreases n
  {
    if w == [] then Some([])
    else
      match FindChild(n.children, w[0])
      case None => None
      case Some(i) =>
        var child := n.children[i].1;
        if |child.key| > |w| || w[..|child.key|] != child.key then None
        else
          match PathTo(child, w[|child.key|..])
          case None => None
          case Some(p) => Some([n.children[i].0] + p)
  }

  /** `parent->children.erase(find_child(parent, c))` at the node reached by `path`, when that entry exists. */
  function DetachChild(n: Node, path: seq<char>, c: char): Node
    decreases |path|
  {
    if path == [] then
      match FindChild(n.children, c)
      case None => n
      case Some(i) => n.(children := n.children[..i] + n.children[i + 1..])
    else
      match FindChild(n.children, path[0])
      case None => n
      case Some(i) => n.(children := n.children[i := (n.children[i].0, DetachChild(n.children[i].1, path[1..], c))])
  }

  /**
   * The upward loop of `cleanup_orphaned_nodes` from the node at `path`: while
   * the node has a parent, detach it if it has no children and is not an end
   * node, then move to the parent; otherwise stop.
   */
  function PruneUp(root: Node, path: seq<char>): Node
    decreases |path|
  {
    if path == [] then root
    else
      match NodeAt(root, path)
      case None => root
      case Some(cur) =>
        if cur.children == [] && !cur.isEnd then
          PruneUp(DetachChild(root, path[..|path| - 1], cur.parentChar), path[..|path| - 1])
        else root
  }

  /**
   * `cleanup_orphaned_nodes(w)`: walk to the node that spells `w`; prune upward
   * from it only if it is an end node.  Since the first step of the upward loop
   * only detaches a node that is not an end node, nothing is ever detached.
   */
  function CleanupOrphanedNodes(root: Node, w: string): (r: Node)
    ensures r == root
  {
    if w == [] then root
    else
      match PathTo(root, w)
      case None => root
      case Some(path) =>
        match NodeAt(root, path)
        case None => root
        case Some(t) => if t.isEnd then PruneUp(root, path) else root
  }
}
