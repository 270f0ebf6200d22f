/**
 * The read-only walks of the trie: `common_prefix_length`, `find_node`,
 * `search` and `starts_with`.  Each walk starts at a node and consumes the
 * characters that follow that node's own key.
 */
module TrieWalk {
  import opened Wrappers
  import opened RadixNode

  /** The length of the longest common prefix of `s1` and `s2`. */
  function CommonPrefixLength(s1: string, s2: string): (r: nat)
    ensures r <= |s1| && r <= |s2|
    ensures s1[..r] == s2[..r]
    ensures r < |s1| && r < |s2| ==> s1[r] != s2[r]
  {
    if s1 == [] || s2 == [] || s1[0] != s2[0] then 0
    else 1 + CommonPrefixLength(s1[1..], s2[1..])
  }

  /** No common prefix is longer than the one `CommonPrefixLength` returns. */
  lemma CommonPrefixIsLongest(s1: string, s2: string, j: nat)
    requires CommonPrefixLength(s1, s2) < j <= |s1| && j <= |s2|
    ensures s1[..j] != s2[..j]
  {
    var r := CommonPrefixLength(s1, s2);
    assert s1[..j][r] == s1[r] && s2[..j][r] == s2[r];
  }

  /**
   * The walk of `find_node`: from `n`, consume `w` edge by edge.  It stops with
   * no node when no child starts with the next character, when the child's key
   * is longer than what is left, or when the key differs from it.
   */
  function Walk(n: Node, w: string): Option<Node>
    decreases n
  {
    if w == [] then Some(n)
    else
      match FindChild(n.children, w[0])
      case None => None
      case Some(i) =>
        var child := n.children[i].1;
        if |child.key| > |w| || w[..|child.key|] != child.key then None
        else Walk(child, w[|child.key|..])
  }

  /** One step of the walk, through the child stored under the next character. */
  function Descend(child: Node, w: string): Option<Node>
  {
    if |child.key| > |w| || w[..|child.key|] != child.key then None
    else Walk(child, w[|child.key|..])
  }

  lemma WalkStep(n: Node, w: string)
    requires w != []
    ensures Walk(n, w) == match ChildFor(n.children, w[0]) case None => None case Some(ch) => Descend(ch, w)
  {
  }

  /** `w` (relative to `n`) ends on an end-of-word node. */
  predicate Ends(n: Node, w: string)
  {
    Walk(n, w).Some? && Walk(n, w).value.isEnd
  }

  /** `find_node`: null for the empty word; otherwise the walk from the root. */
  function FindNode(root: Node, w: string): (r: Option<Node>)
    ensures w == [] ==> r.None?
    ensures w != [] ==> r == Walk(root, w)
  {
    if w == [] then None else Walk(root, w)
  }

  /** `search`: the node the word spells exists and is an end node. */
  function Search(root: Node, w: string): (r: bool)
    ensures r <==> w != [] && Ends(root, w)
  {
    var node := FindNode(root, w);
    node.Some? && node.value.isEnd
  }

  /** The node reached from `n` by following the child entries for the characters of `path`. */
  function NodeAt(n: Node, path: seq<char>): Option<Node>
    decreases |path|
  {
    if path == [] then Some(n)
    else
      match FindChild(n.children, path[0])
      case None => None
      case Some(i) => NodeAt(n.children[i].1, path[1..])
  }

  /**
   * What the keys of the nodes passed below `n` spell when following the
   * child entries for the characters of `path`; none when the path leaves the tree.
   */
  function Spell(n: Node, path: seq<char>): Option<string>
    decreases |path|
  {
    if path == [] then Some([])
    else
      match FindChild(n.children, path[0])
      case None => None
      case Some(i) =>
        match Spell(n.children[i].1, path[1..])
        case None => None
        case Some(s) => Some(n.children[i].1.key + s)
  }

  /** In a well-formed trie, the walk for the string a path spells reaches the node at the end of that path. */
  lemma {:induction false} WalkFindsSpelled(n: Node, path: seq<char>)
    requires WellFormed(n) && Spell(n, path).Some?
    ensures NodeAt(n, path).Some? && Walk(n, Spell(n, path).value) == NodeAt(n, path)
    decreases |path|
  {
    if path != [] {
      var i := FindChild(n.children, path[0]).value;
      var child := n.children[i].1;
      var k := child.key;
      var s := Spell(child, path[1..]).value;
      var w := k + s;
      assert EntryOk(n.children[i]) && WellFormed(child);
      assert w[0] == path[0];
      assert w[..|k|] == k && w[|k|..] == s;
      WalkFindsSpelled(child, path[1..]);
    }
  }

  /** Every node the walk reaches lies at the end of a path that spells exactly the walked string. */
  lemma {:induction false} WalkIsSpelled(n: Node, w: string)
    requires Walk(n, w).Some?
    ensures exists path :: Spell(n, path) == Some(w) && NodeAt(n, path) == Walk(n, w)
    decreases n
  {
    if w == [] {
      assert Spell(n, []) == Some(w) && NodeAt(n, []) == Walk(n, w);
    } else {
      var i := FindChild(n.children, w[0]).value;
      var child := n.children[i].1;
      var k := child.key;
      assert |k| <= |w| && w[..|k|] == k;
      var rest := w[|k|..];
      assert Walk(n, w) == Walk(child, rest);
      WalkIsSpelled(child, rest);
      var p :| Spell(child, p) == Some(rest) && NodeAt(child, p) == Walk(child, rest);
      SpellCons(n, w[0], p, i);
      KeyThenRest(w, k);
    }
  }

  /** A string that begins with `k` is `k` followed by the rest. */
  lemma KeyThenRest(w: string, k: string)
    requires |k| <= |w| && w[..|k|] == k
    ensures k + w[|k|..] == w
  {
    assert w == w[..|k|] + w[|k|..];
  }

  /** Following the entry `i` for `c` first, then `p`. */
  lemma SpellCons(n: Node, c: char, p: seq<char>, i: nat)
    requires FindChild(n.children, c) == Some(i)
    ensures NodeAt(n, [c] + p) == NodeAt(n.children[i].1, p)
    ensures Spell(n, [c] + p) ==
      match Spell(n.children[i].1, p) case None => None case Some(s) => Some(n.children[i].1.key + s)
  {
    assert ([c] + p)[0] == c && ([c] + p)[1..] == p;
  }

  /**
   * `find_node` returns the node whose path from the root spells exactly `w`,
   * and null when there is none: for the empty word, when a character has no
   * child, and when `w` stops part-way along an edge or leaves it.
   */
  lemma FindNodeSpells(root: Node, w: string)
    requires WellFormed(root)
    ensures FindNode(root, w).Some? <==> w != [] && exists path :: Spell(root, path) == Some(w)
    ensures forall path :: w != [] && Spell(root, path) == Some(w) ==> FindNode(root, w) == NodeAt(root, path)
  {
    if w != [] && Walk(root, w).Some? {
      WalkIsSpelled(root, w);
    }
    forall path | w != [] && Spell(root, path) == Some(w)
      ensures FindNode(root, w) == NodeAt(root, path) && FindNode(root, w).Some?
    {
      WalkFindsSpelled(root, path);
    }
  }

  /** `search` holds iff some path from the root spells the non-empty `w` and ends on an end node. */
  lemma SearchSpells(root: Node, w: string)
    requires WellFormed(root)
    ensures Search(root, w) <==>
      w != [] && exists path :: Spell(root, path) == Some(w) && NodeAt(root, path).Some? && NodeAt(root, path).value.isEnd
  {
    FindNodeSpells(root, w);
  }

  /**
   * Two nodes with the same end flag whose child vectors answer every lookup
   * alike hold the same words; keys and the order of entries do not matter.
   */
  lemma {:induction false} EndsByLookup(n: Node, m: Node, w: string)
    requires n.isEnd == m.isEnd
    requires forall d :: ChildFor(n.children, d) == ChildFor(m.children, d)
    ensures Ends(n, w) == Ends(m, w)
  {
    if w != [] {
      WalkStep(n, w);
      WalkStep(m, w);
    }
  }

  /**
   * The walk of `starts_with` below `n`, from position `pos` of `p`: true when
   * `p` is used up, either exactly at a node or part-way along an edge whose
   * key begins with what is left.
   */
  function PrefixWalk(n: Node, p: string, pos: nat): bool
    requires pos <= |p|
    decreases n
  {
    if pos == |p| then true
    else
      match FindChild(n.children, p[pos])
      case None => false
      case Some(i) =>
        var child := n.children[i].1;
        if pos + |child.key| > |p| then p[pos..] == child.key[..|p| - pos]
        else if p[pos..pos + |child.key|] != child.key then false
        else PrefixWalk(child, p, pos + |child.key|)
  }

  /** `starts_with`: the empty prefix holds iff the trie is not empty; otherwise walk from the root. */
  function StartsWith(root: Node, count: nat, p: string): (r: bool)
    ensures p == [] ==> (r <==> count != 0)
  {
    if p == [] then count != 0 else PrefixWalk(root, p, 0)
  }

  /** Every prefix of a word the walk reaches is accepted by the `starts_with` walk. */
  lemma {:induction false} PrefixOfStored(n: Node, w: string, p: string, pos: nat)
    requires WellFormed(n)
    requires pos <= |p| && p[pos..] <= w
    requires Walk(n, w).Some?
    ensures PrefixWalk(n, p, pos)
    decreases n
  {
    if pos < |p| {
      var rest := p[pos..];
      assert w != [] && w[0] == p[pos] by { assert rest[0] == p[pos]; }
      var i := FindChild(n.children, p[pos]).value;
      var child := n.children[i].1;
      var k := child.key;
      assert |k| <= |w| && w[..|k|] == k;
      if pos + |k| > |p| {
        assert rest == k[..|rest|];
      } else {
        assert p[pos..pos + |k|] == rest[..|k|] == k;
        assert p[pos + |k|..] == rest[|k|..];
        assert rest[|k|..] <= w[|k|..];
        PrefixOfStored(child, w[|k|..], p, pos + |k|);
      }
    }
  }
}
