/**
 * A node of the compressed trie and the sorted child vector it owns.
 *
 * `RadixNode`'s `parent` back-pointer is not stored: a node's
 * parent is the node whose child vector holds it, so every node has exactly
 * one owner and the structure is a tree by construction.  The character under
 * which a node hangs (`parentChar`) is kept, since the cleanup walk reads it.
 */
module RadixNode {
  import opened Wrappers

  /** One entry of a child vector: the leading character of the child's key, and the child. */
  type ChildEntry = (char, Node)

  datatype Node = Node(key: string, isEnd: bool, parentChar: char, children: seq<ChildEntry>)

  /** The default node: the shape of a fresh root. */
  function DefaultNode(): (n: Node)
    ensures n.key == [] && !n.isEnd && n.parentChar == '\0' && n.children == []
  {
    Node([], false, '\0', [])
  }

  /** The key-only node: no parent link yet, so `parentChar` is the null character. */
  function KeyNode(k: string): (n: Node)
    ensures n.key == k && !n.isEnd && n.parentChar == '\0' && n.children == []
  {
    Node(k, false, '\0', [])
  }

  /** The node created with its key, its parent and the character it hangs under. */
  function LinkedNode(k: string, pc: char): (n: Node)
    ensures n.key == k && !n.isEnd && n.parentChar == pc && n.children == []
  {
    Node(k, false, pc, [])
  }

  /** The child vector is strictly increasing in its character keys. */
  predicate KeysIncreasing(cs: seq<ChildEntry>)
  {
    forall i, j :: 0 <= i < j < |cs| ==> cs[i].0 < cs[j].0
  }

  /** A child entry `(c, n)` is consistent: the key of `n` is non-empty and starts with `c`, and `n` hangs under `c`. */
  predicate EntryOk(e: ChildEntry)
  {
    e.1.key != [] && e.1.key[0] == e.0 && e.1.parentChar == e.0
  }

  /** Every child vector in the subtree is sorted, and every entry is consistent. */
  predicate WellFormed(n: Node)
    decreases n
  {
    && KeysIncreasing(n.children)
    && forall i :: 0 <= i < |n.children| ==> EntryOk(n.children[i]) && WellFormed(n.children[i].1)
  }

  /** The shape the trie keeps at its root: empty key, never an end node, null parent character. */
  predicate ValidRoot(n: Node)
  {
    WellFormed(n) && n.key == [] && !n.isEnd && n.parentChar == '\0'
  }

  /** `std::lower_bound` over the child vector: the first position whose key is not less than `c`. */
  function LowerBound(cs: seq<ChildEntry>, c: char): (i: nat)
    ensures i <= |cs|
    ensures forall j :: 0 <= j < i ==> cs[j].0 < c
    ensures i < |cs| ==> c <= cs[i].0
  {
    if cs == [] || c <= cs[0].0 then 0 else 1 + LowerBound(cs[1..], c)
  }

  /**
   * `find_child` followed by the test every caller makes (`it != end && it->first == c`):
   * the position of the entry for `c`, if there is one.
   */
  function FindChild(cs: seq<ChildEntry>, c: char): (r: Option<nat>)
    ensures r.Some? ==> r.value < |cs| && cs[r.value].0 == c
    ensures KeysIncreasing(cs) ==> forall j :: 0 <= j < |cs| && cs[j].0 == c ==> r == Some(j)
  {
    var i := LowerBound(cs, c);
    if i < |cs| && cs[i].0 == c then Some(i) else None
  }

  /** The child stored under `c`, if any. */
  function ChildFor(cs: seq<ChildEntry>, c: char): Option<Node>
  {
    match FindChild(cs, c)
    case Some(i) => Some(cs[i].1)
    case None => None
  }

  /** `children.insert(lower_bound(c), e)`: the entry goes in at the lower-bound position. */
  function InsertEntry(cs: seq<ChildEntry>, e: ChildEntry): (r: seq<ChildEntry>)
    ensures |r| == |cs| + 1
  {
    var i := LowerBound(cs, e.0);
    cs[..i] + [e] + cs[i..]
  }

  /** Inserting at the lower bound a character that is absent keeps the vector strictly increasing. */
  lemma InsertEntrySorted(cs: seq<ChildEntry>, e: ChildEntry)
    requires KeysIncreasing(cs) && FindChild(cs, e.0).None?
    ensures KeysIncreasing(InsertEntry(cs, e))
  {
    var i := LowerBound(cs, e.0);
    var r := InsertEntry(cs, e);
    assert i < |cs| ==> e.0 < cs[i].0;
    forall a, b | 0 <= a < b < |r|
      ensures r[a].0 < r[b].0
    {
      InsertEntryAt(cs, e, a);
      InsertEntryAt(cs, e, b);
    }
  }

  lemma InsertEntryAt(cs: seq<ChildEntry>, e: ChildEntry, j: nat)
    requires j <= |cs|
    ensures var i := LowerBound(cs, e.0);
      InsertEntry(cs, e)[j] == if j < i then cs[j] else if j == i then e else cs[j - 1]
  {
  }

  /** Looking up the character `d` when an entry with that character sits at position `j`. */
  lemma ChildForAt(cs: seq<ChildEntry>, d: char, j: nat)
    requires KeysIncreasing(cs) && j < |cs| && cs[j].0 == d
    ensures ChildFor(cs, d) == Some(cs[j].1)
  {
  }

  /** Inserting at the lower bound a character that is absent adds exactly that entry and no other lookup changes. */
  lemma InsertEntryLookup(cs: seq<ChildEntry>, e: ChildEntry)
    requires KeysIncreasing(cs) && FindChild(cs, e.0).None?
    ensures KeysIncreasing(InsertEntry(cs, e))
    ensures forall d :: ChildFor(InsertEntry(cs, e), d) == if d == e.0 then Some(e.1) else ChildFor(cs, d)
  {
    var i := LowerBound(cs, e.0);
    var r := InsertEntry(cs, e);
    InsertEntrySorted(cs, e);
    forall d
      ensures ChildFor(r, d) == if d == e.0 then Some(e.1) else ChildFor(cs, d)
    {
      if d == e.0 {
        InsertEntryAt(cs, e, i);
        ChildForAt(r, d, i);
      } else if j :| 0 <= j < |cs| && cs[j].0 == d {
        var j' := if j < i then j else j + 1;
        InsertEntryAt(cs, e, j');
        ChildForAt(r, d, j');
        ChildForAt(cs, d, j);
      } else {
        forall j' | 0 <= j' < |r|
          ensures r[j'].0 != d
        {
          InsertEntryAt(cs, e, j');
        }
      }
    }
  }

  /** Replacing the child stored under its own character keeps the vector sorted and changes only that lookup. */
  lemma ReplaceEntryLookup(cs: seq<ChildEntry>, i: nat, x: Node)
    requires KeysIncreasing(cs) && i < |cs|
    ensures KeysIncreasing(cs[i := (cs[i].0, x)])
    ensures forall d :: ChildFor(cs[i := (cs[i].0, x)], d) == if d == cs[i].0 then Some(x) else ChildFor(cs, d)
  {
    var r := cs[i := (cs[i].0, x)];
    assert forall j :: 0 <= j < |r| ==> r[j].0 == cs[j].0;
    forall d
      ensures ChildFor(r, d) == if d == cs[i].0 then Some(x) else ChildFor(cs, d)
    {
      if d == cs[i].0 {
        ChildForAt(r, d, i);
      } else if j :| 0 <= j < |cs| && cs[j].0 == d {
        ChildForAt(r, d, j);
        ChildForAt(cs, d, j);
      }
    }
  }
}
