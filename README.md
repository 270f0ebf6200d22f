# Seshat radix trie, modelled in Dafny

Seshat stores a set of words in a compressed radix trie. Every node carries:

- a key fragment;
- an end-of-word flag;
- the character under which its parent files it;
- a vector of child entries sorted by first character.

The `RadixTrie` class has a root node and a word counter. Its public operations:

- insert, search, remove;
- prefix test, prefix enumeration;
- a glob search over `*` and `?`;
- three statistics reports;
- bulk loading from a text file with one word per line. The file is read in chunks, lines are split at `\n` or `\r`, and blanks are trimmed.

The files are:

- `radix_node.dfy`: the node as a value. Also the sorted child vector: lookup by binary search (`std::lower_bound`), and insertion at the lower bound.
- `trie_walk.dfy`: the common-prefix helper, the walk of `find_node`, `search` and `starts_with`.
- `enumerate.dfy`: the preorder word collection and the number of end nodes, with their facts: membership, no repeats, length.
- `trie_insert.dfy`: `insert` and `split_node`, shown to add exactly the new word and to keep the trie well formed.
- `trie_remove.dfy`: clearing an end flag along the walk, and the orphan cleanup.
- `prefix_query.dfy`: `words_with_prefix`, shown to be the preorder list of stored words filtered by the prefix.
- `glob.dfy`: the backtracking matcher `matches_pattern` and a recursive reference definition of the glob language.
- `pattern_search.dfy`: `pattern_search`, shown to be sorted, free of repeats, and to hold exactly the matching stored words.
- `line_split.dfy`: the chunked read loop of `bulk_insert_from_file`, shown to yield the same words as a single pass over the whole stream.
- `analytics.dfy`: heights, node counts, key bytes and word lengths. Also minimum, maximum and mode, and the length distribution.
- `radix_trie.dfy`: the class `Seshat.RadixTrie`. It keeps `root` and `wordCount`, with the invariant that the counter equals the number of end nodes. Its methods are proved against the functions above.

Two features of the model:

- **Nodes are values.** An in-place edit of a node becomes a rebuild of the path from the root down to that node.
- **No parent pointer field.** The parent of a node is the node whose child vector holds it.

The class carries a ghost flag `pristine`. It holds while no word has been removed since construction or the last `clear`. While it holds, every leaf below the root stores a word, and `starts_with` then answers exactly "some stored word begins with the prefix".

Removal does not keep that property. `cleanup_orphaned_nodes` (src/RadixTrie.cc:359-413) only starts its upward loop when the node reached is an end node. The upward loop only detaches nodes that are not end nodes. `remove` clears the flag before calling the cleanup, so the cleanup never detaches anything. The model follows the code:

- `TrieRemove.CleanupOrphanedNodes` returns its input unchanged.
- `Seshat.RadixTrie.Remove` guarantees that the shape of the trie is unchanged.
- `Seshat.StalePrefixAfterRemove` exhibits a trie with no stored words in which `starts_with("a")` still succeeds, after inserting and removing "ab".

## Model

| member | source | states |
|---|---|---|
| RadixNode.DefaultNode | src/RadixNode.h:19 | the default node has an empty key, is not an end node, has parent character NUL and no children |
| RadixNode.KeyNode | src/RadixNode.h:20 | a node built from a key holds that key, is not an end node and has no children |
| RadixNode.LinkedNode | src/RadixNode.h:21-22 | a node built with key and parent character holds both, is not an end node and has no children |
| RadixNode.LowerBound | src/RadixTrie.cc:12-19 | the binary search position: every entry before it has a smaller character, and the entry at it (if any) is not smaller |
| RadixNode.FindChild | src/RadixTrie.cc:12-19 | a hit is an entry carrying the character; in a sorted vector every entry carrying the character is the hit, so a miss means no such entry |
| RadixNode.InsertEntrySorted | src/RadixTrie.cc:206-215 | inserting a new entry at its lower bound keeps the child vector strictly sorted |
| RadixNode.InsertEntryLookup | src/RadixTrie.cc:206-215 | after the insertion, a lookup by the new character finds the new child, and every other lookup is unchanged |
| RadixNode.ReplaceEntryLookup | src/RadixTrie.cc:469 | replacing the node of one entry keeps the vector sorted and changes only the lookup of that entry's character |
| TrieWalk.CommonPrefixLength | src/RadixTrie.cc:31-39 | the result is within both lengths, both strings agree up to it, and they differ at it when both continue |
| TrieWalk.CommonPrefixIsLongest | src/RadixTrie.cc:31-39 | no longer common prefix exists |
| TrieWalk.Walk | src/RadixTrie.cc:47-72 | stands for the loop of `find_node`: follow the child for the next character, fail when its key is longer than the rest or differs from it, otherwise consume the key (no contract of its own; see `TrieWalk.WalkFindsSpelled` and `TrieWalk.WalkIsSpelled`) |
| TrieWalk.WalkFindsSpelled | src/RadixTrie.cc:41-73 | in a well-formed trie, for any child path that stays in the tree, the walk for the string the keys along it spell reaches exactly the node at its end |
| TrieWalk.WalkIsSpelled | src/RadixTrie.cc:41-73 | every node the walk reaches lies at the end of a child path whose keys spell exactly the walked string |
| TrieWalk.FindNodeSpells | src/RadixTrie.cc:41-73 | `find_node` returns a node iff the word is non-empty and some path from the root spells it exactly, and then it is the node at the end of that path; null otherwise, including when the word ends part-way along an edge |
| TrieWalk.FindNode | src/RadixTrie.cc:41-73 | stands for `find_node`: null for the empty word, otherwise the root walk `Walk`; what that node is, is stated by `TrieWalk.FindNodeSpells` |
| TrieWalk.Search | src/RadixTrie.cc:255-258 | stands for `search`: the node `find_node` returns exists and is an end node; its meaning is stated by `TrieWalk.SearchSpells` and `Seshat.StoredWordsAreFound` |
| TrieWalk.SearchSpells | src/RadixTrie.cc:255-258 | `search` holds iff the word is non-empty and a path from the root spelling it exactly ends on an end node |
| Seshat.StoredWordsAreFound | src/RadixTrie.cc:255-258 | `search` holds exactly for the words the enumeration of `collect_words` (src/RadixTrie.cc:178-193) lists, and there are as many of them as end nodes |
| TrieWalk.StartsWith | src/RadixTrie.cc:260-263 | for the empty prefix the answer is whether the counter is non-zero |
| TrieWalk.PrefixWalk | src/RadixTrie.cc:264-297 | stands for the loop of `starts_with`: follow the child for the next character; a child key longer than the rest must begin with it; otherwise the key must match and is consumed (no contract of its own; see `TrieWalk.PrefixOfStored`, `PrefixQuery.WordsImplyStartsWith`, `PrefixQuery.StartsWithImpliesWords`) |
| TrieWalk.PrefixOfStored | src/RadixTrie.cc:264-297 | the prefix walk succeeds for every prefix of a word whose walk exists |
| TrieWalk.EndsByLookup | src/RadixTrie.cc:41-73 | two nodes with the same flag and the same child lookups store the same words |
| Enumerate.CollectMembership | src/RadixTrie.cc:178-193 | a word is collected under a node with a given prefix iff it extends prefix plus key and the rest of it ends at an end node below |
| Enumerate.Collect | src/RadixTrie.cc:178-193 | stands for `collect_words_from_node`: the word of the node if it is an end node, then the words of its children in vector order, each under prefix plus key (no contract of its own; see `Enumerate.CollectMembership`, `Enumerate.CollectNoDup`, `Enumerate.CollectLength`) |
| Enumerate.ChildWords | src/RadixTrie.cc:190-192 | stands for the loop over the children in `collect_words_from_node`: one word list per child (no contract of its own) |
| Enumerate.CollectNoDup | src/RadixTrie.cc:178-193 | in a well-formed trie the collected words have no repeats |
| Enumerate.CollectLength | src/RadixTrie.cc:178-193 | as many words are collected as there are end nodes |
| Enumerate.CollectHasPrefix | src/RadixTrie.cc:184 | every collected word starts with prefix plus key |
| Enumerate.EndCountInsert | src/RadixTrie.cc:206-215 | adding a child entry adds that child's end nodes to the count |
| TrieInsert.Intermediate | src/RadixTrie.cc:444-448 | the intermediate node of a split holds the common part of the key and is not an end node |
| TrieInsert.SplitNode | src/RadixTrie.cc:440-470 | the split keeps the parent's key, flag, parent character and number of children |
| TrieInsert.IntermediateDescend | src/RadixTrie.cc:444-466 | descending through the intermediate node reaches the same end nodes as descending through the old child |
| TrieInsert.SplitNodeWellFormed | src/RadixTrie.cc:440-470 | the split keeps the trie well formed: sorted children, parent characters that agree, non-empty keys |
| TrieInsert.SplitNodeKeepsWords | src/RadixTrie.cc:440-470 | the split changes no stored word |
| TrieInsert.SplitNodeKeepsCount | src/RadixTrie.cc:440-470 | the split changes no end count |
| TrieInsert.InsertAt | src/RadixTrie.cc:199-252 | stands for the descent of `insert` below a node: it keeps that node's own key, flag and parent character; what it stores is stated by `TrieInsert.InsertAtCorrect` |
| TrieInsert.NewLeafCorrect | src/RadixTrie.cc:206-215 | a missing child becomes a new end leaf holding the rest of the word; exactly that word is added and the end count grows by one |
| TrieInsert.MarkChildCorrect | src/RadixTrie.cc:229-235 | when the rest of the word equals a child's key, the child is marked; exactly that word is added and the count grows iff it was unmarked |
| TrieInsert.PrefixCaseCorrect | src/RadixTrie.cc:224-236 | when the child's key is a prefix of the rest, descending stores exactly the new word and reports whether it was new |
| TrieInsert.SplitCaseCorrect | src/RadixTrie.cc:237-251 | when the keys part inside the child's key, split and insert store exactly the new word and report whether it was new |
| TrieInsert.InsertAtCorrect | src/RadixTrie.cc:195-253 | insertion below a node keeps it well formed, stores exactly the old words plus the new one, and the flag says whether the counter must grow |
| TrieInsert.InsertAtPruned | src/RadixTrie.cc:195-253 | insertion keeps every leaf an end node |
| TrieInsert.InsertWord | src/RadixTrie.cc:195-197 | an empty word changes nothing; otherwise the words become the old ones plus the word, and the end count grows iff it was new |
| TrieInsert.InsertWordsCorrect | src/RadixTrie.cc:119-123 | inserting a list of words stores exactly the non-empty ones in addition, and keeps every leaf an end node |
| TrieInsert.InsertWordsSnoc | src/RadixTrie.cc:119-123 | inserting the first `k + 1` words of a list is inserting the first `k`, then word `k` |
| TrieRemove.SetEndCorrect | src/RadixTrie.cc:415-424 | setting the flag at the node a walk reaches changes exactly that word's membership and adjusts the end count by one |
| TrieRemove.SetEndKeepsShape | src/RadixTrie.cc:415-424 | setting a flag changes no key and no child entry |
| TrieRemove.SetEnd | src/RadixTrie.cc:419-422 | stands for `node->is_end = false` at the node `find_node` returns: keeps the key, parent character and number of children of every node on the way; its effect on the words is stated by `TrieRemove.SetEndCorrect` |
| TrieRemove.CleanupOrphanedNodes | src/RadixTrie.cc:359-413 | the cleanup runs its upward loop only from an end node, and that loop stops at the first node; the result is the trie unchanged |
| TrieRemove.PathTo | src/RadixTrie.cc:366-389 | stands for the downward walk of `cleanup_orphaned_nodes`: the characters of the entries it follows to the node spelling the word (no contract of its own) |
| TrieRemove.PruneUp | src/RadixTrie.cc:392-411 | stands for the upward loop of `cleanup_orphaned_nodes`: detach a childless non-end node from its parent, repeat at the parent, stop otherwise (no contract of its own; see `TrieRemove.CleanupOrphanedNodes`) |
| PrefixQuery.WordsWithPrefix | src/RadixTrie.cc:299-304 | the empty prefix gives every stored word in preorder |
| PrefixQuery.PrefixCollect | src/RadixTrie.cc:309-354 | stands for the walk of `words_with_prefix` after the empty-prefix case: at the end of the prefix, collect from the node under the base prefix; otherwise follow the child for the next character (no contract of its own; see `PrefixQuery.PrefixCollectFilters`) |
| PrefixQuery.EdgeCollect | src/RadixTrie.cc:321-342 | stands for one loop step of `words_with_prefix`: a child key longer than the rest of the prefix collects the child when it begins with that rest; otherwise the key must match and the walk goes on (no contract of its own) |
| PrefixQuery.PrefixCollectFilters | src/RadixTrie.cc:305-357 | the walk and the partial-edge comparison give exactly the preorder collection filtered by the prefix |
| PrefixQuery.WordsWithPrefixIsFilter | src/RadixTrie.cc:299-357 | `words_with_prefix` equals the stored words in preorder, filtered by the prefix |
| PrefixQuery.WordsWithPrefixCorrect | src/RadixTrie.cc:299-357 | a word is listed iff it is stored and begins with the prefix; no word is listed twice |
| PrefixQuery.WordsImplyStartsWith | src/RadixTrie.cc:260-297 | a stored word with the prefix makes `starts_with` true |
| PrefixQuery.StartsWithImpliesWords | src/RadixTrie.cc:260-297 | when every leaf is an end node, `starts_with` true means some stored word has the prefix |
| Wildcard.MatchesPatternIsGlob | src/RadixTrie.cc:649-688 | the backtracking matcher accepts exactly the glob language of the pattern |
| Wildcard.MatchesPattern | src/RadixTrie.cc:649-688 | stands for `matches_pattern`: the matching loop from the start of word and pattern (no contract of its own; its meaning is `Wildcard.MatchesPatternIsGlob`) |
| Wildcard.MatchLoop | src/RadixTrie.cc:654-681 | stands for the `while` loop of `matches_pattern`: `?` and equal characters advance both, a star at the end succeeds, another star backtracks, a mismatch fails (no contract of its own) |
| Wildcard.TryFrom | src/RadixTrie.cc:666-672 | stands for the backtracking `for` loop at a star: the recursive match of the rest of the pattern against each suffix of the word (no contract of its own) |
| Wildcard.SkipStars | src/RadixTrie.cc:682-687 | stands for the trailing-star loop and the final test that both word and pattern are used up (no contract of its own) |
| Wildcard.MatchLoopIsGlob | src/RadixTrie.cc:654-688 | from any word and pattern positions, the matching loop accepts exactly the glob language of the remaining pattern on the remaining word |
| Wildcard.TryFromIsGlob | src/RadixTrie.cc:665-672 | a star tries every split of the rest of the word, which is exactly glob matching of the star |
| Wildcard.SkipStarsAtEnd | src/RadixTrie.cc:682-687 | at the end of the word, the pattern matches iff only stars remain |
| Wildcard.StarAcceptsAll | src/RadixTrie.cc:661-663 | a trailing star accepts any rest of the word |
| Wildcard.LiteralMatchesItself | src/RadixTrie.cc:673-679 | a pattern without wildcards matches exactly itself |
| Wildcard.QuestionsMatchLength | src/RadixTrie.cc:655-658 | a pattern of only `?` matches exactly the words of its length |
| Wildcard.TrailingStarKeeps | src/RadixTrie.cc:659-687 | appending a star to a pattern keeps every match |
| PatternQuery.PatternCollectFilters | src/RadixTrie.cc:691-706 | the recursive pattern walk is the preorder collection filtered by the matcher |
| PatternQuery.PatternCollect | src/RadixTrie.cc:691-706 | stands for `pattern_match_recursive`: the full word of an end node if it matches, then the matches of its children in order (no contract of its own) |
| PatternQuery.SortWords | src/RadixTrie.cc:720 | sorting is a permutation |
| PatternQuery.SortWordsSorted | src/RadixTrie.cc:720 | the sort result is in lexicographic order |
| PatternQuery.PatternSearch | src/RadixTrie.cc:713-715 | an empty pattern or an empty trie gives no words |
| PatternQuery.PatternSearchCorrect | src/RadixTrie.cc:709-722 | the result is sorted and has no repeats, and holds a word iff the pattern is non-empty, the word is stored and matches the glob |
| LineSplit.TrimIsSlice | src/RadixTrie.cc:112-118 | trimming keeps the slice between the first and the last non-blank character, and everything cut away is blank |
| LineSplit.TrimIdempotent | src/RadixTrie.cc:112-118 | trimming twice is trimming once |
| LineSplit.Trim | src/RadixTrie.cc:112-118 | stands for the two trimming loops: drop trailing blanks, then leading blanks (no contract of its own; see `LineSplit.TrimIsSlice`) |
| LineSplit.LinesFrom | src/RadixTrie.cc:101-172 | stands for the line splitting of `bulk_insert_from_file` over one contiguous stream: a break emits the pending line, other characters extend it, the end emits the rest (no contract of its own; see `LineSplit.LinesFromSplit`, `LineSplit.ReadLines`) |
| LineSplit.Lines | src/RadixTrie.cc:93-172 | the words a whole stream gives, starting with an empty carry (no contract of its own) |
| LineSplit.TrimBounds | src/RadixTrie.cc:112-118 | the two scans give bounds whose slice is the trimmed line |
| LineSplit.Emit | src/RadixTrie.cc:112-123 | a line gives at most one word, its trimmed form, and exactly one when that is non-empty |
| LineSplit.FlushLine | src/RadixTrie.cc:107-141 | joining the carry with the segment before a break and trimming both ends gives the emitted word of that line |
| LineSplit.SkipBreakRun | src/RadixTrie.cc:145-148 | skipping a run of breaks stops before the next non-break; the lines completed and left over are the same as after the first break |
| LineSplit.ScanChunk | src/RadixTrie.cc:101-157 | scanning one chunk with a carry gives the lines it completes and the unfinished rest as the new carry |
| LineSplit.LinesFromSplit | src/RadixTrie.cc:101-157 | cutting the stream anywhere keeps the words: the completed lines then the lines of the rest, starting from the leftover |
| LineSplit.ReadLines | src/RadixTrie.cc:93-172 | the words read chunk by chunk, final carry included, are the words of the concatenated stream |
| LineSplit.Chunks | src/RadixTrie.cc:93-99 | a positive chunk size gives non-empty reads of at most that size that concatenate to the stream; size 0 reads nothing |
| LineSplit.LinesFromWords | src/RadixTrie.cc:104-172 | every word read is non-empty, already trimmed and free of line breaks |
| LineSplit.LinesFromBreak | src/RadixTrie.cc:104-142 | a break splits the stream into the lines before it and the lines after it |
| LineSplit.MixedTerminatorsExample | src/RadixTrie.cc:104-172 | "cat\r\napple\n\n banana \r" gives exactly "cat", "apple", "banana" |
| Analytics.HeightsCount | src/RadixTrie.cc:473-486 | one height is recorded per end node |
| Analytics.Heights | src/RadixTrie.cc:473-486 | stands for `calculate_heights_recursive`: the depth in edges of every end node, in preorder (no contract of its own; see `Analytics.HeightsCount`) |
| Analytics.Lengths | src/RadixTrie.cc:583-598 | stands for `collect_word_lengths_recursive`: the accumulated key length of every end node, in preorder (no contract of its own; see `Analytics.LengthsAreWordLengths`) |
| Analytics.CountNodes | src/RadixTrie.cc:559-570 | stands for the node count of the `count_nodes` lambda: every node of the tree, the root included (no contract of its own; see `Analytics.EndCountBelowNodes`) |
| Analytics.KeyBytes | src/RadixTrie.cc:559-570 | stands for the key-byte sum of the `count_nodes` lambda: the key lengths of all nodes (no contract of its own) |
| Analytics.LengthsAreWordLengths | src/RadixTrie.cc:583-598 | the recorded lengths are the lengths of the stored words, in preorder |
| Analytics.EndCountBelowNodes | src/RadixTrie.cc:556-570 | the nodes outnumber the end nodes, counting the root, which is never an end node |
| Analytics.Min | src/RadixTrie.cc:504 | the minimum is an element and no element is smaller |
| Analytics.Max | src/RadixTrie.cc:505 | the maximum is an element and no element is larger |
| Analytics.CountFrequencies | src/RadixTrie.cc:512-516 | the frequency map has exactly the elements as keys, each with its number of occurrences |
| Analytics.MostFrequent | src/RadixTrie.cc:517-523 | the chosen key has a maximal count |
| Analytics.ModeOf | src/RadixTrie.cc:512-523 | the mode is an element, and no element occurs more often |
| Analytics.Distribution | src/RadixTrie.cc:639-643 | entry `l` of the distribution is the number of words of length `l`, for every `l` up to the maximum |
| Analytics.CountsBelowSum | src/RadixTrie.cc:639-643 | the distribution sums to the number of words |
| Analytics.LengthMetrics | src/RadixTrie.cc:601-646 | word metrics of a non-empty list: min, max and mode are correct and ordered, the mode occurs most often, the distribution is by length and sums to the count, and the total is the sum of lengths |
| Seshat.InsertWordStores | src/RadixTrie.cc:195-253 | inserting from the root adds exactly the word, when non-empty |
| Seshat.RemoveWordStores | src/RadixTrie.cc:415-424 | clearing the flag of a stored word takes out that word alone and one end node |
| Seshat.InsertTwice | src/RadixTrie.cc:229-235 | inserting the same word again changes neither the stored words nor the count |
| Seshat.InsertWordsStores | src/RadixTrie.cc:119-123 | loading a list of words adds exactly its non-empty words |
| Seshat.StoredLengths | src/RadixTrie.cc:583-598 | one recorded length per stored word, none of them zero |
| Seshat.InsertIntoEmpty | src/RadixTrie.cc:206-215 | inserting "ab" into an empty trie hangs one end leaf "ab" under 'a' |
| Seshat.OrphanedLeafStale | src/RadixTrie.cc:260-297 | a trie whose only leaf is not an end node stores nothing, yet `starts_with("a")` holds while `words_with_prefix("a")` is empty |
| Seshat.StalePrefixAfterRemove | src/RadixTrie.cc:392-411 | after inserting and removing "ab" nothing is stored, yet `starts_with("a")` still holds |
| Seshat.RadixTrie.constructor | src/RadixTrie.cc:10 | a fresh trie has the default root, a zero counter and no words |
| Seshat.RadixTrie.Clear | src/RadixTrie.cc:435-438 | clearing restores the default root and a zero counter; no words remain |
| Seshat.RadixTrie.Empty | src/RadixTrie.cc:431 | true iff the counter is zero, which is iff no word is stored |
| Seshat.RadixTrie.Size | src/RadixTrie.cc:433 | the counter, which equals the number of stored words |
| Seshat.RadixTrie.Insert | src/RadixTrie.cc:195-253 | the word set gains exactly the word (if non-empty), and the counter grows iff the word was new |
| Seshat.RadixTrie.Search | src/RadixTrie.cc:255-258 | true iff the word is stored |
| Seshat.RadixTrie.Remove | src/RadixTrie.cc:415-429 | succeeds iff the word was stored, then takes it out alone, lowers the counter by one and detaches no node |
| Seshat.RadixTrie.StartsWith | src/RadixTrie.cc:260-297 | true if some stored word has the prefix; the converse holds while no word has been removed |
| Seshat.RadixTrie.WordsWithPrefix | src/RadixTrie.cc:299-357 | exactly the stored words with the prefix, each once, in preorder |
| Seshat.RadixTrie.PatternSearch | src/RadixTrie.cc:709-722 | exactly the stored words matching the glob, ascending, each once; none for an empty pattern |
| Seshat.RadixTrie.GetHeightStats | src/RadixTrie.cc:489-526 | zeros for an empty trie; otherwise one height per word, with correct minimum, maximum and a most frequent mode between them |
| Seshat.RadixTrie.GetMemoryStats | src/RadixTrie.cc:543-580 | root-only figures for an empty trie; otherwise node count and key bytes of the whole trie, total as sizes times counts plus key bytes, overhead as total minus key bytes, more nodes than words |
| Seshat.RadixTrie.GetWordMetrics | src/RadixTrie.cc:601-646 | zeros for an empty trie; otherwise the length metrics of the stored words, with the distribution summing to the word count |
| Seshat.RadixTrie.InsertAll | src/RadixTrie.cc:119-123 | inserts each word in order, so the words become the old ones plus the non-empty words of the list; returns the number of words handed over, as `words_inserted` counts them |
| Seshat.RadixTrie.BulkInsertFromFile | src/RadixTrie.cc:76-176 | an unopenable file gives the open error and changes nothing; otherwise the lines of the content, trimmed and non-empty, are inserted in order, the stored words gain exactly them, and their number is returned |

## Left out

- In-place edits through pointers become path rebuilds on node values. Node identity, aliasing and the `unique_ptr` ownership are not modelled. There is no `parent` field, because the parent is implied by the tree.
- Floating-point fields (`average_height`, `average_length`, `bytes_per_word`) are not computed. The statistics records hold only their integer parts.
- Seshat.RadixTrie.GetMemoryStats: `sizeof(RadixNode)` and `sizeof(RadixTrie)` are parameters, not fixed numbers. The contract states the node count, the key bytes and the totals computed from them.
- Analytics.ModeOf, Analytics.MostFrequent: `get_height_stats` and `get_word_metrics` pick among equally frequent values by the iteration order of an `unordered_map`, which is unspecified. The model only states that the chosen value has maximal frequency.
- Seshat.RadixTrie.BulkInsertFromFile: opening and reading the file become a parameter `file`. `None` means the file could not be opened. The thrown `runtime_error` becomes an `Err` carrying the same message. These are not modelled: buffer allocation failure, partial reads, read errors, and the `eof` bookkeeping.
- Seshat.RadixTrie.BulkInsertFromFile: the words are computed from the whole stream first, then inserted in order. `bulk_insert_from_file` inserts each word as soon as its line ends. The scan never reads the trie, so the final trie and the returned count are the same.
- Seshat.RadixTrie.BulkInsertFromFile: the result counts every word handed to `insert`, duplicates included, as `words_inserted` does.
- The JavaScript bindings (`src/Seshat.cc`) are not part of this model. Neither are any concurrency and the benchmarks.
- `size_t` and `int` overflow are not modelled: counters, lengths and byte totals are unbounded naturals.
- The signedness of C++ `char` in comparisons are not modelled. Child order uses Dafny's `char` order.
- Blanks are the C-locale `isspace` set: space, `\t`, `\n`, `\v`, `\f`, `\r`.
- `calculate_memory_recursive` is declared and defined but never called. It is not modelled.
- The worst-case exponential running time of the backtracking matcher is not modelled. Only its result is.
- TrieRemove.PruneUp: the upward loop of `cleanup_orphaned_nodes` has no contract of its own. It is reached only from an end node, where its first test fails, so `CleanupOrphanedNodes` states the whole effect.
- No corrected variant of the cleanup is given. The model keeps the behaviour as written: a removed word's path stays in the trie, which `Seshat.StalePrefixAfterRemove` exhibits.
