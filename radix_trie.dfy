/**
 * The `RadixTrie` class: the root node and the word counter, and the public
 * operations on them.  The stored words are the words `search` finds; the
 * class invariant ties the counter to the number of end nodes.
 */
module Seshat {
  import opened Wrappers
  import opened RadixNode
  import opened TrieWalk
  import opened Enumerate
  import opened TrieInsert
  import opened TrieRemove
  import opened PrefixQuery
  import opened Wildcard
  import opened PatternQuery
  import opened LineSplit
  import opened Analytics

  /** The chunk size `bulk_insert_from_file` reads with unless told otherwise. */
  const DefaultBufferSize: nat := 1024 * 1024

  /** A sequence without repeats has as many distinct elements as entries. */
  lemma {:induction false} NoDupCardinality(ws: seq<string>)
    requires NoDup(ws)
    ensures |set w | w in ws| == |ws|
  {
    if ws != [] {
      var rest := ws[1..];
      NoDupCardinality(rest);
      assert ws[0] !in rest by {
        assert forall k :: 0 <= k < |rest| ==> rest[k] == ws[k + 1];
      }
      assert (set w | w in ws) == (set w | w in rest) + {ws[0]} by {
        assert ws == [ws[0]] + rest;
      }
    }
  }

  /** The words stored below a root: those the enumeration rebuilds. */
  ghost function StoredWords(root: Node): set<string>
  {
    set w | w in Collect(root, [])
  }

  /** The stored words are the words `search` finds, as many as there are end nodes. */
  lemma StoredWordsAreFound(root: Node)
    requires ValidRoot(root)
    ensures forall w :: w in StoredWords(root) <==> TrieWalk.Search(root, w)
    ensures |StoredWords(root)| == EndCount(root)
  {
    forall w
      ensures w in StoredWords(root) <==> TrieWalk.Search(root, w)
    {
      StoredWordMembership(root, w);
    }
    CollectNoDup(root, []);
    NoDupCardinality(Collect(root, []));
    CollectLength(root, []);
  }

  /** Inserting `w` from the root stores `w` (when non-empty) and nothing else. */
  lemma InsertWordStores(root: Node, w: string)
    requires ValidRoot(root)
    ensures ValidRoot(InsertWord(root, w))
    ensures StoredWords(InsertWord(root, w)) == StoredWords(root) + (if w == [] then {} else {w})
  {
    var r := InsertWord(root, w);
    StoredWordsAreFound(root);
    StoredWordsAreFound(r);
  }

  /** Clearing the flag of a stored, non-empty word removes that word alone and one end node. */
  lemma RemoveWordStores(root: Node, w: string)
    requires ValidRoot(root) && w != [] && TrieWalk.Search(root, w)
    ensures ValidRoot(SetEnd(root, w, false))
    ensures StoredWords(SetEnd(root, w, false)) == StoredWords(root) - {w}
    ensures EndCount(SetEnd(root, w, false)) == EndCount(root) - 1
  {
    var r := SetEnd(root, w, false);
    SetEndCorrect(root, w, false);
    StoredWordsAreFound(root);
    StoredWordsAreFound(r);
  }

  /** The word lengths below a root: one per stored word, none of them zero. */
  lemma StoredLengths(root: Node)
    requires ValidRoot(root)
    ensures Lengths(root, 0) == WordLengths(Collect(root, []))
    ensures |Lengths(root, 0)| == EndCount(root)
    ensures forall l :: l in Lengths(root, 0) ==> l >= 1
  {
    var lengths := Lengths(root, 0);
    LengthsAreWordLengths(root, []);
    CollectLength(root, []);
    StoredWordsAreFound(root);
    forall l | l in lengths
      ensures l >= 1
    {
      var i :| 0 <= i < |lengths| && lengths[i] == l;
      assert Collect(root, [])[i] in StoredWords(root);
    }
  }

  /** Inserting a word a second time changes neither the stored words nor the end count. */
  lemma InsertTwice(root: Node, w: string)
    requires ValidRoot(root)
    ensures var once := InsertWord(root, w);
      StoredWords(InsertWord(once, w)) == StoredWords(once) && EndCount(InsertWord(once, w)) == EndCount(once)
  {
    var once := InsertWord(root, w);
    InsertWordStores(root, w);
    InsertWordStores(once, w);
    StoredWordsAreFound(once);
  }

  /** A root whose only child is the non-end leaf "ab". */
  function OrphanedLeafTrie(): Node
  {
    DefaultNode().(children := [('a', LinkedNode("ab", 'a'))])
  }

  /** Inserting "ab" into an empty trie hangs one end leaf under 'a'. */
  lemma InsertIntoEmpty()
    ensures InsertWord(DefaultNode(), "ab") == DefaultNode().(children := [('a', LinkedNode("ab", 'a').(isEnd := true))])
  {
    assert FindChild(DefaultNode().children, 'a') == None;
  }

  /** The orphaned leaf keeps the prefix "a" reachable although no word is stored. */
  lemma OrphanedLeafStale()
    ensures var r := OrphanedLeafTrie();
      && ValidRoot(r) && StoredWords(r) == {}
      && TrieWalk.StartsWith(r, EndCount(r), "a")
      && PrefixQuery.WordsWithPrefix(r, "a") == []
  {
    var r := OrphanedLeafTrie();
    var leaf := LinkedNode("ab", 'a');
    assert FindChild(r.children, 'a') == Some(0);
    assert "a"[0..] == leaf.key[..1];
    assert Collect(leaf, []) == [];
    assert ChildWords(r, []) == [[]];
    assert Flatten<string>([[]]) == [];
  }

  /**
   * After inserting "ab" and removing it again, the leaf for "ab" stays in
   * place: no word is stored, yet `starts_with("a")` still succeeds.
   */
  lemma StalePrefixAfterRemove()
    ensures var r := SetEnd(InsertWord(DefaultNode(), "ab"), "ab", false);
      && ValidRoot(r) && StoredWords(r) == {}
      && TrieWalk.StartsWith(r, EndCount(r), "a")
      && PrefixQuery.WordsWithPrefix(r, "a") == []
  {
    InsertIntoEmpty();
    var t := DefaultNode().(children := [('a', LinkedNode("ab", 'a').(isEnd := true))]);
    assert FindChild(t.children, 'a') == Some(0);
    assert SetEnd(t, "ab", false) == OrphanedLeafTrie();
    OrphanedLeafStale();
  }

  /** The non-empty words of a list: those that inserting the list stores. */
  ghost function NonEmptyWords(ws: seq<string>): set<string>
  {
    set w | w in ws && w != []
  }

  /** Inserting a list of words from the root stores exactly its non-empty words in addition. */
  lemma InsertWordsStores(root: Node, ws: seq<string>)
    requires ValidRoot(root)
    ensures ValidRoot(InsertWords(root, ws))
    ensures StoredWords(InsertWords(root, ws)) == StoredWords(root) + NonEmptyWords(ws)
  {
    var r := InsertWords(root, ws);
    InsertWordsCorrect(root, ws);
    StoredWordsAreFound(root);
    StoredWordsAreFound(r);
  }

  class RadixTrie {
    var root: Node
    var wordCount: nat
    /** Whether no word has been removed since construction or the last `clear`. */
    ghost var pristine: bool

    ghost predicate Valid()
      reads this
    {
      && ValidRoot(root)
      && wordCount == EndCount(root)
      && (pristine ==> Pruned(root))
    }

    /** The stored words. */
    ghost function Words(): set<string>
      reads this
    {
      StoredWords(root)
    }

    /** `RadixTrie()`: a default root and no words. */
    constructor()
      ensures Valid() && pristine
      ensures root == DefaultNode() && wordCount == 0
      ensures Words() == {}
    {
      root := DefaultNode();
      wordCount := 0;
      pristine := true;
    }

    /** `clear()`: back to the freshly constructed state. */
    method Clear()
      modifies this
      ensures Valid() && pristine
      ensures root == DefaultNode() && wordCount == 0
      ensures Words() == {}
    {
      root := DefaultNode();
      wordCount := 0;
      pristine := true;
    }

    /** `empty()`: reads only the counter. */
    method Empty() returns (r: bool)
      requires Valid()
      ensures r <==> wordCount == 0
      ensures r <==> Words() == {}
    {
      StoredWordsAreFound(root);
      r := wordCount == 0;
    }

    /** `size()`: reads only the counter, which is the number of stored words. */
    method Size() returns (r: nat)
      requires Valid()
      ensures r == wordCount == |Words()|
    {
      StoredWordsAreFound(root);
      r := wordCount;
    }

    /** `insert(w)`: `w` is stored afterwards, nothing else changes, and the counter grows iff `w` was new. */
    method Insert(w: string)
      requires Valid()
      modifies this
      ensures Valid() && pristine == old(pristine)
      ensures root == InsertWord(old(root), w)
      ensures wordCount == old(wordCount) + (if w != [] && !TrieWalk.Search(old(root), w) then 1 else 0)
      ensures Words() == old(Words()) + (if w == [] then {} else {w})
    {
      InsertWordStores(root, w);
      StoredWordsAreFound(root);
      if w == [] {
        return;
      }
      var r := InsertAt(root, w);
      InsertAtCorrect(root, w);
      root := r.0;
      if r.1 {
        wordCount := wordCount + 1;
      }
    }

    /** `search(w)`. */
    method Search(w: string) returns (r: bool)
      requires Valid()
      ensures r == TrieWalk.Search(root, w)
      ensures r <==> w in Words()
    {
      StoredWordsAreFound(root);
      r := TrieWalk.Search(root, w);
    }

    /**
     * `remove(w)`: succeeds iff `w` was stored; then only the flag of its node
     * is cleared, so `w` alone leaves the set and no node is detached.
     */
    method Remove(w: string) returns (removed: bool)
      requires Valid()
      modifies this
      ensures Valid()
      ensures removed <==> w in old(Words())
      ensures Words() == old(Words()) - {w}
      ensures root == (if removed then SetEnd(old(root), w, false) else old(root))
      ensures Shape(root) == Shape(old(root))
      ensures wordCount == old(wordCount) - (if removed then 1 else 0)
      ensures pristine == (old(pristine) && !removed)
    {
      StoredWordsAreFound(root);
      SetEndKeepsShape(root, w, false);
      if w == [] {
        return false;
      }
      var node := FindNode(root, w);
      if node.Some? && node.value.isEnd {
        RemoveWordStores(root, w);
        root := CleanupOrphanedNodes(SetEnd(root, w, false), w);
        wordCount := wordCount - 1;
        pristine := false;
        return true;
      }
      return false;
    }

    /**
     * `starts_with(p)`: true whenever a stored word begins with `p`; the
     * converse holds while no word has been removed since the last `clear`.
     */
    method StartsWith(p: string) returns (r: bool)
      requires Valid()
      ensures r == TrieWalk.StartsWith(root, wordCount, p)
      ensures (exists w :: w in Words() && p <= w) ==> r
      ensures pristine && r ==> exists w :: w in Words() && p <= w
    {
      r := TrieWalk.StartsWith(root, wordCount, p);
      StoredWordsAreFound(root);
      WordsWithPrefixCorrect(root, p);
      if exists w :: w in Words() && p <= w {
        var w :| w in Words() && p <= w;
        assert w in PrefixQuery.WordsWithPrefix(root, p);
        WordsImplyStartsWith(root, p);
      }
      if pristine && r {
        StartsWithImpliesWords(root, p);
        var w := PrefixQuery.WordsWithPrefix(root, p)[0];
        assert w in PrefixQuery.WordsWithPrefix(root, p);
      }
    }

    /** `words_with_prefix(p)`: the stored words beginning with `p`, each once, in preorder. */
    method WordsWithPrefix(p: string) returns (ws: seq<string>)
      requires Valid()
      ensures ws == PrefixQuery.WordsWithPrefix(root, p)
      ensures ws == Filter(Collect(root, []), HasPrefix(p))
      ensures forall w :: w in ws <==> w in Words() && p <= w
      ensures NoDup(ws)
    {
      ws := PrefixQuery.WordsWithPrefix(root, p);
      StoredWordsAreFound(root);
      WordsWithPrefixIsFilter(root, p);
      WordsWithPrefixCorrect(root, p);
    }

    /** `pattern_search(p)`: the stored words in the glob language of `p`, ascending, each once. */
    method PatternSearch(p: string) returns (ws: seq<string>)
      requires Valid()
      ensures ws == PatternQuery.PatternSearch(root, wordCount, p)
      ensures Sorted(ws) && NoDup(ws)
      ensures forall w :: w in ws <==> p != [] && w in Words() && Glob(w, p)
    {
      ws := PatternQuery.PatternSearch(root, wordCount, p);
      StoredWordsAreFound(root);
      PatternSearchCorrect(root, p);
    }

    /** `get_height_stats()`, integer parts. */
    method GetHeightStats() returns (s: HeightStats)
      requires Valid()
      ensures wordCount == 0 ==> s == HeightStats(0, 0, 0, [])
      ensures wordCount != 0 ==>
        && s.allHeights == Heights(root, 0)
        && |s.allHeights| == wordCount
        && s.minHeight == Min(s.allHeights) && s.maxHeight == Max(s.allHeights)
        && s.modeHeight in s.allHeights
        && (forall h :: h in s.allHeights ==> multiset(s.allHeights)[h] <= multiset(s.allHeights)[s.modeHeight])
        && s.minHeight <= s.modeHeight <= s.maxHeight
    {
      if wordCount == 0 {
        return HeightStats(0, 0, 0, []);
      }
      var heights := Heights(root, 0);
      HeightsCount(root, 0);
      var mode := ModeOf(heights);
      s := HeightStats(Min(heights), Max(heights), mode, heights);
    }

    /** `get_memory_stats()`, integer parts; `nodeSize` and `trieSize` stand for the two `sizeof` values. */
    method GetMemoryStats(nodeSize: nat, trieSize: nat) returns (s: MemoryStats)
      requires Valid()
      ensures wordCount == 0 ==> s == MemoryStats(trieSize + nodeSize, 1, 0, trieSize + nodeSize)
      ensures wordCount != 0 ==>
        && s.nodeCount == CountNodes(root) && s.stringBytes == KeyBytes(root)
        && s.totalBytes == trieSize + s.nodeCount * nodeSize + s.stringBytes
        && s.overheadBytes == s.totalBytes - s.stringBytes
        && s.nodeCount > wordCount
    {
      if wordCount == 0 {
        var total := trieSize + nodeSize;
        return MemoryStats(total, 1, 0, total);
      }
      var nodeCount := CountNodes(root);
      var stringBytes := KeyBytes(root);
      EndCountBelowNodes(root);
      var total := trieSize + nodeCount * nodeSize + stringBytes;
      s := MemoryStats(total, nodeCount, stringBytes, total - stringBytes);
    }

    /** `get_word_metrics()`, integer parts. */
    method GetWordMetrics() returns (m: WordMetrics)
      requires Valid()
      ensures wordCount == 0 ==> m == WordMetrics(0, 0, 0, [], 0)
      ensures wordCount != 0 ==>
        var lengths := Lengths(root, 0);
        && lengths == WordLengths(Collect(root, [])) && |lengths| == wordCount
        && m.minLength == Min(lengths) && m.maxLength == Max(lengths)
        && 1 <= m.minLength <= m.modeLength <= m.maxLength
        && m.modeLength in lengths
        && (forall l :: l in lengths ==> multiset(lengths)[l] <= multiset(lengths)[m.modeLength])
        && m.lengthDistribution == CountsBelow(lengths, m.maxLength + 1)
        && Sum(m.lengthDistribution) == wordCount
        && m.totalCharacters == Sum(lengths)
    {
      if wordCount == 0 {
        return WordMetrics(0, 0, 0, [], 0);
      }
      StoredLengths(root);
      m := LengthMetrics(Lengths(root, 0));
    }

    /** Insert each of `ws` in order, counting every insert as `bulk_insert_from_file` does. */
    method InsertAll(ws: seq<string>) returns (added: nat)
      requires Valid()
      modifies this
      ensures Valid() && pristine == old(pristine)
      ensures added == |ws|
      ensures root == InsertWords(old(root), ws)
      ensures Words() == old(Words()) + NonEmptyWords(ws)
    {
      ghost var root0 := root;
      added := 0;
      while added < |ws|
        invariant added <= |ws|
        invariant Valid() && pristine == old(pristine)
        invariant root == InsertWords(root0, ws[..added])
      {
        InsertWordsSnoc(root0, ws, added);
        Insert(ws[added]);
        added := added + 1;
      }
      assert ws[..added] == ws;
      InsertWordsStores(root0, ws);
    }

    /**
     * `bulk_insert_from_file(path, bufferSize)`, with the file's content given:
     * `None` when the file cannot be opened.  The content is read in chunks of
     * `bufferSize`; a size of 0 reads nothing.
     */
    method BulkInsertFromFile(path: string, file: Option<string>, bufferSize: nat := DefaultBufferSize)
      returns (r: Result<nat, string>)
      requires Valid()
      modifies this
      ensures Valid() && pristine == old(pristine)
      ensures file.None? ==> r == Err("Failed to open file: " + path) && root == old(root) && wordCount == old(wordCount)
      ensures file.Some? ==>
        var words := if bufferSize == 0 then [] else Lines(file.value);
        r == Ok(|words|) && root == InsertWords(old(root), words)
        && Words() == old(Words()) + NonEmptyWords(words)
    {
      if file.None? {
        return Err("Failed to open file: " + path);
      }
      var chunks := Chunks(file.value, bufferSize);
      var words := ReadLines(chunks);
      LinesFromWords(Concat(chunks), []);
      var n := InsertAll(words);
      r := Ok(n);
    }
  }
}
