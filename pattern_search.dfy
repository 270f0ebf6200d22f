/**
 * `pattern_match_recursive` and `pattern_search`: a preorder walk that keeps
 * the stored words the glob matcher accepts, then sorts them.  Strings are
 * ordered lexicographically by character code, as `std::sort` on
 * `std::string` orders them.
 */
module PatternQuery {
  import opened RadixNode
  import opened TrieWalk
  import opened Enumerate
  import opened PrefixQuery
  import opened Wildcard

  /** The test for a word that `matches_pattern` accepts against `p`. */
  function Matches(p: string): string -> bool
  {
    w => MatchesPattern(w, p)
  }

  /** `pattern_match_recursive(n, cur, p)`: the matching end-node word of `n`, then the children's matches in vector order. */
  function PatternCollect(n: Node, cur: string, p: string): seq<string>
    decreases n, 1
  {
    var full := cur + n.key;
    (if n.isEnd && MatchesPattern(full, p) then [full] else []) + Flatten(ChildMatches(n, full, p))
  }

  function ChildMatches(n: Node, pre: string, p: string): seq<seq<string>>
    decreases n, 0
  {
    seq(|n.children|, i requires 0 <= i < |n.children| => PatternCollect(n.children[i].1, pre, p))
  }

  /** The matching walk keeps, in preorder, exactly the enumerated words the matcher accepts. */
  lemma {:induction false} PatternCollectFilters(n: Node, pre: string, p: string)
    ensures PatternCollect(n, pre, p) == Filter(Collect(n, pre), Matches(p))
    decreases n
  {
    var full := pre + n.key;
    var cw := ChildWords(n, full);
    var head: seq<string> := if n.isEnd then [full] else [];
    FilterConcat(head, Flatten(cw), Matches(p));
    FilterFlatten(cw, Matches(p));
    forall i | 0 <= i < |n.children|
      ensures ChildMatches(n, full, p)[i] == Filter(cw[i], Matches(p))
    {
      PatternCollectFilters(n.children[i].1, full, p);
    }
    assert ChildMatches(n, full, p) == seq(|cw|, i requires 0 <= i < |cw| => Filter(cw[i], Matches(p)));
  }

  /** Lexicographic order on strings by character code; a proper prefix comes first. */
  predicate LexLe(a: string, b: string)
    decreases |a|
  {
    a == [] || (b != [] && (a[0] < b[0] || (a[0] == b[0] && LexLe(a[1..], b[1..]))))
  }

  lemma {:induction false} LexLeTotal(a: string, b: string)
    ensures LexLe(a, b) || LexLe(b, a)
    decreases |a|
  {
    if a != [] && b != [] && a[0] == b[0] {
      LexLeTotal(a[1..], b[1..]);
    }
  }

  lemma {:induction false} LexLeTrans(a: string, b: string, c: string)
    requires LexLe(a, b) && LexLe(b, c)
    ensures LexLe(a, c)
    decreases |a|
  {
    if a != [] && a[0] == b[0] && b[0] == c[0] {
      LexLeTrans(a[1..], b[1..], c[1..]);
    }
  }

  lemma {:induction false} LexLeAntisymmetric(a: string, b: string)
    requires LexLe(a, b) && LexLe(b, a)
    ensures a == b
    decreases |a|
  {
    if a != [] {
      LexLeAntisymmetric(a[1..], b[1..]);
      assert a == [a[0]] + a[1..] && b == [b[0]] + b[1..];
    }
  }

  predicate Sorted(ws: seq<string>)
  {
    forall i, j :: 0 <= i < j < |ws| ==> LexLe(ws[i], ws[j])
  }

  /** `x` placed before the first element it does not exceed. */
  function InsertSorted(x: string, s: seq<string>): (r: seq<string>)
    ensures multiset(r) == multiset(s) + multiset{x}
  {
    if s == [] then [x]
    else if LexLe(x, s[0]) then [x] + s
    else
      assert s == [s[0]] + s[1..];
      [s[0]] + InsertSorted(x, s[1..])
  }

  /** The words of `ws` in ascending order: the sort `pattern_search` applies. */
  function SortWords(ws: seq<string>): (r: seq<string>)
    ensures multiset(r) == multiset(ws)
  {
    if ws == [] then []
    else
      assert ws == [ws[0]] + ws[1..];
      InsertSorted(ws[0], SortWords(ws[1..]))
  }

  lemma {:induction false} InsertSortedSorted(x: string, s: seq<string>)
    requires Sorted(s)
    ensures Sorted(InsertSorted(x, s))
  {
    if s != [] {
      if LexLe(x, s[0]) {
        var r := [x] + s;
        forall i, j | 0 <= i < j < |r|
          ensures LexLe(r[i], r[j])
        {
          if i == 0 && j > 1 {
            LexLeTrans(x, s[0], s[j - 1]);
          }
        }
      } else {
        LexLeTotal(x, s[0]);
        InsertSortedSorted(x, s[1..]);
        var t := InsertSorted(x, s[1..]);
        var r := [s[0]] + t;
        forall j | 0 <= j < |t|
          ensures LexLe(s[0], t[j])
        {
          assert t[j] in multiset(t);
          if t[j] != x {
            assert t[j] in multiset(s[1..]);
            var k :| 0 <= k < |s[1..]| && s[1..][k] == t[j];
            assert s[k + 1] == t[j];
          }
        }
        forall i, j | 0 <= i < j < |r|
          ensures LexLe(r[i], r[j])
        {
          if i > 0 {
            assert r[i] == t[i - 1] && r[j] == t[j - 1];
          } else {
            assert r[j] == t[j - 1];
          }
        }
      }
    }
  }

  lemma {:induction false} SortWordsSorted(ws: seq<string>)
    ensures Sorted(SortWords(ws))
  {
    if ws != [] {
      SortWordsSorted(ws[1..]);
      InsertSortedSorted(ws[0], SortWords(ws[1..]));
    }
  }

  /** A word that occurs at two positions occurs at least twice in the multiset. */
  lemma RepeatCounts(b: seq<string>, i: nat, j: nat)
    requires i < j < |b|
    ensures b[i] == b[j] ==> multiset(b)[b[i]] >= 2
  {
    if b[i] == b[j] {
      assert b == b[..j] + [b[j]] + b[j + 1..];
      assert b[i] in multiset(b[..j]) by { assert b[..j][i] == b[i]; }
    }
  }

  lemma {:induction false} NoDupCounts(a: seq<string>, x: string)
    requires NoDup(a)
    ensures multiset(a)[x] <= 1
  {
    if a != [] {
      NoDupCounts(a[1..], x);
      assert a == [a[0]] + a[1..];
      assert a[0] !in a[1..] by {
        assert forall k :: 0 <= k < |a[1..]| ==> a[1..][k] == a[k + 1];
      }
    }
  }

  /** A rearrangement of a list without repeats has none. */
  lemma NoDupPermutation(a: seq<string>, b: seq<string>)
    requires NoDup(a) && multiset(a) == multiset(b)
    ensures NoDup(b)
  {
    forall i, j | 0 <= i < j < |b|
      ensures b[i] != b[j]
    {
      RepeatCounts(b, i, j);
      NoDupCounts(a, b[i]);
    }
  }

  /** `pattern_search(p)`: nothing for the empty pattern or the empty trie; otherwise the matches, sorted. */
  function PatternSearch(root: Node, count: nat, p: string): (r: seq<string>)
    ensures p == [] || count == 0 ==> r == []
  {
    if p == [] || count == 0 then [] else SortWords(PatternCollect(root, [], p))
  }

  /**
   * The result is ascending, has no repeats, and holds exactly the stored words
   * in the glob language of a non-empty `p`.
   */
  lemma PatternSearchCorrect(root: Node, p: string)
    requires ValidRoot(root)
    ensures Sorted(PatternSearch(root, EndCount(root), p))
    ensures NoDup(PatternSearch(root, EndCount(root), p))
    ensures forall w :: w in PatternSearch(root, EndCount(root), p) <==> p != [] && Search(root, w) && Glob(w, p)
  {
    var r := PatternSearch(root, EndCount(root), p);
    var ws := Filter(Collect(root, []), Matches(p));
    CollectLength(root, []);
    forall w
      ensures w in Collect(root, []) <==> Search(root, w)
    {
      StoredWordMembership(root, w);
    }
    forall w
      ensures MatchesPattern(w, p) == Glob(w, p)
    {
      MatchesPatternIsGlob(w, p);
    }
    if p != [] && EndCount(root) != 0 {
      PatternCollectFilters(root, [], p);
      SortWordsSorted(ws);
      CollectNoDup(root, []);
      FilterNoDup(Collect(root, []), Matches(p));
      NoDupPermutation(ws, r);
      forall w
        ensures w in r <==> w in ws
      {
        assert w in r <==> w in multiset(r);
        assert w in ws <==> w in multiset(ws);
      }
    }
  }
}
