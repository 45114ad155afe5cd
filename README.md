# CharTrie in Dafny

This project models the ordered character trie of CharTrie (`CharTrie/TrieData.h`) and the two key buffers that feed it keys (`CharTrie/TrieStrings.h`).

**Trie.** Each node holds one key character, an `int` value (`-1` means "no value"), a `next` sibling link and a `child` link. The nodes below one parent form a sibling chain. The chain is sorted under the case-folding comparator `compare_no_case`, and no two of its keys compare equal.

**Arena model.** The trie is a `class Trie` over an arena:
- `nodes: seq<NodeRec>`: node records indexed by node id.
- `root`: the id of the root node.
- A ghost forest of `Tree(id, key, val, kids)` values that the arena represents.

Every method that rewires links changes the arena in place. Its contract ties the new arena to the new forest, so the node-id identities of the source (for example, the head of a chain that keeps its identity when a smaller key is spliced in front of it) are kept.

**Iterator.** `base_interator` is a `class Iterator` with:
- a stack of `(node, descend-flag)` levels;
- a cached key string;
- a ghost cursor that tracks the traversal as a value.

The traversal itself (`operator++`) is specified by the value-level functions `TrieCursor.Step` and `TrieCursor.Advance`.

**Buffers.** The buffers `StringOfCharsZeroEnd` and `StringOfCharsFixedLen` are classes over a `seq<char>` vector field.

Module layout, one file each:
- `char_order.dfy`: the comparator and the key order it induces.
- `trie_forest.dfy`: the forest, its representation in the arena, and key resolution.
- `chain_splice.dfy`: splicing a node into a chain and unsplicing one from it.
- `trie_paths.dfy`: node paths, and the key-value map after an insertion, a value update or a removal.
- `trie_cursor.dfy`: the traversal as values.
- `trie_bounds.dfy`: the cursors that `find`, `lower_bound` and `begin` build.
- `trie_order.dfy`: the valued keys in ascending order, the corrected `begin` and `++` walk in terms of them, and the corrected `lower_bound` search.
- `trie_iterator.dfy`: the iterator class.
- `trie_data.dfy`: the trie class.
- `trie_strings.dfy`: the two buffers.
- `wrappers.dfy`: `Option`.

The key-value map of a trie is `TrieForest.Get(forest, k)`. It gives the value stored at the node that `k` resolves to, or `None` when that node does not exist or has no value.

The model follows the code in these cases:
- `find` returns a non-end iterator for any key whose path resolves, including a prefix whose node has no value. Its doc comment (`CharTrie/TrieData.h:184-190`) speaks of a found word and does not single out value-less prefixes.
- `lower_bound("")` is the end iterator, because the greater-or-equal path of the empty key is empty. The corrected search `TrieOrder.LowerBoundGe` gives the first key with a value instead.
- `removeKey` of a key whose node has no value still returns true, and it drops that node's whole subtree.
- `addKeyValue` requires a non-empty key. The source asserts that the created path is not the end iterator, and for the empty key that path is empty.

## Model

| member | source | states |
|---|---|---|
| CharOrder.IsKeyLess | CharTrie/TrieData.h:377-381 | `is_key_less` holds exactly when the folded first character is below the folded second; it implies the characters differ and are not key-equal |
| CharOrder.IsKeyEq | CharTrie/TrieData.h:384-389 | `is_key_eq` holds exactly when the folds agree, which is exactly when neither character is less than the other under `compare_no_case` |
| CharOrder.KeyLessIrreflexive | CharTrie/TrieData.h:24-32 | keys that compare equal character by character are not less than each other in either direction |
| CharOrder.KeyLessTransitive | CharTrie/TrieData.h:24-32 | the key order induced by the comparator is transitive |
| CharOrder.KeyTotal | CharTrie/TrieData.h:24-32 | any two keys are ordered one way, the other way, or compare equal |
| CharOrder.PrefixLess | CharTrie/TrieData.h:1188-1240 | a proper prefix sorts before every extension of it (pre-order yields a node before its subtree) |
| CharOrder.DivergeLess | CharTrie/TrieData.h:1188-1240 | keys that first differ at a character ordered by the comparator are ordered the same way, whatever follows |
| TrieForest.FindEq | CharTrie/TrieData.h:652-690 | the index of the first chain entry whose key is `is_key_eq` to the character: no earlier entry matches, and the result is the chain length when none does |
| TrieForest.FindGe | CharTrie/TrieData.h:692-726 | the index of the first chain entry not less than the character: every earlier entry is less |
| TrieForest.SortedFind | CharTrie/TrieData.h:652-726 | in a sorted chain the exact match, if any, is the first entry not less than the character, and every entry after that is greater |
| TrieForest.FindEqUnique | CharTrie/TrieData.h:652-690 | in a sorted chain an entry equal to the character is the only one: the search finds exactly it |
| TrieForest.Levels | CharTrie/TrieData.h:970-1000 | resolving a key gives either nothing or exactly one non-empty chain suffix per key character |
| TrieForest.LevelsSnoc | CharTrie/TrieData.h:979-994 | resolving one more character extends the resolution by the matching entry's chain suffix, or fails when the chain has no match |
| TrieForest.FindReplace | CharTrie/TrieData.h:1003-1045 | after the chain below prefix `p` is replaced, keys that start with `p` are looked up in the new chain and all other keys as before |
| ChainSplice.SpliceInSorted | CharTrie/TrieData.h:579-612 | inserting a new entry between a smaller predecessor and a larger successor keeps the chain strictly ascending |
| ChainSplice.SpliceInAfterRep | CharTrie/TrieData.h:594-612 | linking a fresh node after the `k-1`-th entry (predecessor's `next` set to it, its `next` set to the old successor) makes the arena represent the chain with the new leaf at position `k` |
| ChainSplice.SpliceBeforeRep | CharTrie/TrieData.h:418-424 | cloning the head into a fresh second node and overwriting the head with the new key, no value and no child represents the chain with the new leaf in front, with the head keeping its id |
| ChainSplice.SpliceBeforeGood | CharTrie/TrieData.h:558-570 | the before-head insertion keeps the chain sorted with distinct node ids |
| ChainSplice.UnspliceRep | CharTrie/TrieData.h:784-815 | unlinking the `j`-th entry (from the parent's `child` when `j == 0`, else from the predecessor's `next`) makes the arena represent the chain without it |
| ChainSplice.UnspliceGood | CharTrie/TrieData.h:784-815 | the chain without one entry stays sorted with distinct ids |
| TriePaths.NodePath | CharTrie/TrieData.h:970-1000 | the node path of a key is empty or exactly as long as the key |
| TriePaths.NodePathSnoc | CharTrie/TrieData.h:979-994 | one more resolved character appends exactly the matching node to the path and descends to its child chain |
| TriePaths.NodePathKeys | CharTrie/TrieData.h:970-1000 | the `i`-th node of a resolved path holds a key character equal to `key[i]` under the comparator |
| TriePaths.NodePathLinked | CharTrie/TrieData.h:970-1000 | node `i+1` of a resolved path lies in the child chain of node `i`, and node 0 in the root's chain |
| TriePaths.GetInserted | CharTrie/TrieData.h:552-617 | inserting a value-less leaf into a chain changes no key's value |
| TriePaths.FindInsertedAt | CharTrie/TrieData.h:552-617 | after inserting a value-less leaf for `c`, the one-character keys equal to `c` reach that leaf and every other key finds what it found before |
| TriePaths.ResolvesStep | CharTrie/TrieData.h:1014-1038 | after one round of the path-creating loop, the non-empty keys that resolve are those that resolved before and those equal to the prefix plus the character |
| TriePaths.SetValueGet | CharTrie/TrieData.h:747-762 | setting the value of a key's node gives that value (or none, for `-1`) to every key comparing equal to it and leaves every other key's value unchanged; the same keys resolve as before |
| TriePaths.GetWithout | CharTrie/TrieData.h:765-825 | dropping one entry of a sorted chain drops exactly the keys that start with a character equal to its key |
| TriePaths.RemovedGet | CharTrie/TrieData.h:765-825 | removing a resolving key drops the value of every key extending it (its whole subtree) and keeps every other key's value |
| TriePaths.RemovedWf | CharTrie/TrieData.h:765-825 | unsplicing the node of a resolving key from its parent or predecessor leaves a well-formed trie representing the forest without it |
| TrieCursor.Step | CharTrie/TrieData.h:1197-1228 | one round of the `++` loop descends one level, moves to the next sibling or pops one level; the descend flag is set exactly when the stack did not shrink |
| TrieCursor.StepWork | CharTrie/TrieData.h:1188-1240 | each round strictly decreases the work left (twice the nodes still to reach, plus the stack depth), so `++` terminates |
| TrieCursor.Advance | CharTrie/TrieData.h:1188-1240 | `operator++` as written: repeats rounds until the stack is empty or its top node has a value, without regard to the descend flag |
| TrieCursor.AdvanceSkips | CharTrie/TrieData.h:1188-1240 | `operator++` only passes over value-less nodes: every node it leaves behind, other than the one it stops on, has no value |
| TrieCursor.AdvanceRevisits | CharTrie/TrieData.h:1232 | over `"a"=1, "ab"=2`, two moves from `"a"` yield `"ab"` then `"a"` again, so successive keys are not ascending |
| TrieCursor.AdvanceFixed | CharTrie/TrieData.h:1232 | the corrected `++` also requires the descend flag at the stop, so only freshly entered nodes with a value are yielded |
| TrieCursor.AdvanceFixedSkips | CharTrie/TrieData.h:1188-1240 | the corrected `++` stops on a node it had not yet visited and passes over value-less nodes only |
| TrieCursor.AdvanceFixedAscends | CharTrie/TrieData.h:1188-1240 | the corrected `++` yields a key strictly greater than the current one under the comparator |
| TrieCursor.StepKey | CharTrie/TrieData.h:1148-1163 | after a round the rebuilt key gains the first child's character, swaps its last character for the next sibling's, or drops its last character |
| TrieBounds.UnderLevels | CharTrie/TrieData.h:1148-1163 | for a stack hanging in the forest, the key rebuilt from it resolves back to exactly that stack |
| TrieBounds.UnderNode | CharTrie/TrieData.h:1148-1163 | the key rebuilt from a stack reaches the stack's top node |
| TrieBounds.GeLevels | CharTrie/TrieData.h:1047-1082 | the greater-or-equal path: empty, or between 1 and `|key|` non-empty levels |
| TrieBounds.GeStep | CharTrie/TrieData.h:1059-1075 | one round of `intGetNodePathGreatEq`: no entry not less than the character clears the path, a greater entry ends it, an equal entry resolves one more character and continues |
| TrieBounds.GeLevelsKey | CharTrie/TrieData.h:1047-1082 | the key rebuilt from a non-empty greater-or-equal path is equal to or greater than the searched key |
| TrieBounds.LowerBoundAt | CharTrie/TrieData.h:863-875 | `lower_bound` as written is the end or sits on a node with a value, and the empty key gives the end |
| TrieBounds.LowerBoundBelowKey | CharTrie/TrieData.h:863-875 | over `"a"=1` with the value-less child `"ab"`, `lower_bound("ab")` lands on `"a"`, which is below the key |
| TrieBounds.LowerBoundFixed | CharTrie/TrieData.h:863-875 | the corrected `lower_bound` advances with the corrected `++` and is the end or sits on a node with a value |
| TrieBounds.LowerBoundFixedAbove | CharTrie/TrieData.h:202-211 | the corrected `lower_bound` yields a key equal to or greater than the searched key |
| TrieBounds.LowerBoundMissesGreater | CharTrie/TrieData.h:1078-1079 | over `"a"=1, "b"=2`, `lower_bound("ab")` is the end although `"b"` is greater (the path is cleared when a level has no entry not less than the character) |
| TrieOrder.FirstValued | CharTrie/TrieData.h:1188-1240 | the first node with a value in pre-order: a stack of non-empty levels whose last node holds a value, or empty |
| TrieOrder.FirstValuedLeast | CharTrie/TrieData.h:1188-1240 | the first valued node in pre-order is empty exactly when no key has a value; otherwise it hangs in the forest and no key with a value is less than its key |
| TrieOrder.AdvanceFixedDown | CharTrie/TrieData.h:1188-1240 | the corrected `++` from a node it may descend from stops at the first valued node in pre-order below that node, else among its later siblings and below them, else continues from the level above |
| TrieOrder.AdvanceFixedPassed | CharTrie/TrieData.h:1188-1240 | the corrected `++` from a node whose subtree is done stops at the first valued node in pre-order among its later siblings and below them, else continues from the level above |
| TrieOrder.BeginFixedComplete | CharTrie/TrieData.h:903-915 | the corrected `begin` stands on the first valued node in pre-order (the end when there is none); it is the end exactly when no node has a value, and otherwise sits on a node of the trie |
| TrieOrder.BeginFixedLeast | CharTrie/TrieData.h:903-915 | the corrected `begin` is the end exactly when no key has a value; otherwise `Get` of its key is its node's value and no key with a value is less than that key |
| TrieOrder.LeastGe | CharTrie/TrieData.h:1047-1082 | the corrected greater-or-equal search: a stack of non-empty levels ending on a node with a value, or empty |
| TrieOrder.LeastGeLeast | CharTrie/TrieData.h:202-211 | the corrected search is empty only when every key with a value is less than `k`; otherwise its key is not less than `k` and no key with a value that is not less than `k` is less than it |
| TrieOrder.LowerBoundGe | CharTrie/TrieData.h:863-875 | the corrected `lower_bound` is the end or sits on a node with a value |
| TrieOrder.LowerBoundGeLeast | CharTrie/TrieData.h:202-211 | the corrected `lower_bound` is the end exactly when every key with a value is less than `k`; otherwise `Get` of its key is its node's value, the key is not less than `k`, and it is the least such key |
| TrieOrder.LowerBoundGeFindsGreater | CharTrie/TrieData.h:1078-1079 | over `"a"=1, "b"=2`, the corrected `lower_bound("ab")` lands on `"b"` with value 2 |
| TrieBounds.BeginAt | CharTrie/TrieData.h:903-915 | `begin` as written: end, or a node with a value |
| TrieBounds.BeginSkipsFirst | CharTrie/TrieData.h:903-915 | over the single key `"a"=1`, `begin` is already the end: a first top-level node without children is never yielded (one with children is yielded only after its subtree) |
| TrieIterator.Stack | CharTrie/TrieData.h:1096-1113 | the level stack has one level per cursor level, and every level but the last has its descend flag false |
| TrieIterator.Iterator.End | CharTrie/TrieData.h:1090-1093 | the default iterator has an empty stack and an empty string |
| TrieIterator.Iterator.FromPath | CharTrie/TrieData.h:1096-1113 | an iterator built from a node path has one level per node, only the last with the descend flag |
| TrieIterator.Iterator.StepOnce | CharTrie/TrieData.h:1197-1228 | one round of the `++` loop on the level stack is the cursor's `Step`, and the top level's node value is the cursor top's value |
| TrieIterator.Iterator.Next | CharTrie/TrieData.h:1188-1240 | `operator++` is a no-op on the end iterator; otherwise the new position is `Advance` of the old one and the cached string is cleared |
| TrieIterator.Iterator.Rebuild | CharTrie/TrieData.h:1154-1160 | the characters of the stack's nodes, in order, are the key the cursor stands for |
| TrieIterator.Iterator.GetString | CharTrie/TrieData.h:1148-1163 | `getString` returns and caches the key the position stands for; looking that key up reaches the iterator's node |
| TrieIterator.Iterator.Equals | CharTrie/TrieData.h:1243-1264 | iterators are equal exactly when their stacks have the same length and the same node at every level; equal iterators over one trie stand for the same key |
| TrieData.Trie.constructor | CharTrie/TrieData.h:733-737 | a new trie holds no key |
| TrieData.Trie.GetBrotherSimple | CharTrie/TrieData.h:652-690 | returns the node of the chain entry equal to the character, non-null exactly when such an entry exists, and null at once when the character sorts below the head |
| TrieData.Trie.GetBrotherEqOrGreat | CharTrie/TrieData.h:692-726 | returns the first entry not less than the character: the head when the character is not above it, null exactly when every entry is less |
| TrieData.Trie.Clone | CharTrie/TrieData.h:416-425 | appends a node with the same key, value, `next` and `child` as the given one |
| TrieData.Trie.GetBrotherCreate | CharTrie/TrieData.h:552-617 | returns the chain's unique entry equal to the character; `created` is false exactly when one existed and then nothing changes; otherwise one value-less leaf is inserted in sorted position, the head keeps its id, and only chain nodes change |
| TrieData.Trie.CreateNode | CharTrie/TrieData.h:400-405 | `Node::create(keyChar)` appends one node holding the character, no value and no links; nothing else changes |
| TrieData.Trie.GetChildCreate | CharTrie/TrieData.h:636-650 | returns the existing first child unchanged, or appends a fresh node and links it as the child |
| TrieData.Trie.PathSimple | CharTrie/TrieData.h:970-1000 | `intGetNodePathSimple` returns exactly the node path of the key: empty, or one node per character |
| TrieData.Trie.PathCreate | CharTrie/TrieData.h:1003-1045 | `intGetNodePathCreate` makes the key resolve and returns its path of `|key|` nodes, changes no key's value, and changes nothing when the key already resolved; afterwards the non-empty keys that resolve are those that resolved before and those equal to a prefix of the key |
| TrieData.Trie.CreateLevel | CharTrie/TrieData.h:1014-1038 | one round of `intGetNodePathCreate`: the prefix plus one character resolves, the path grows by the node found or created (a created child gets the character at once), and values are unchanged; the non-empty keys that resolve afterwards are those that resolved before and those equal to the prefix plus the character |
| TrieData.Trie.AddKeyValue | CharTrie/TrieData.h:747-762 | `addKeyValue` stores the value for every key equal to the given one and leaves all others; `find` then reaches the returned node holding it; re-adding an equal key creates no node and keeps the stored characters; afterwards the non-empty keys that resolve are those that resolved before and those equal to a prefix of the key |
| TrieData.Trie.Unsplice | CharTrie/TrieData.h:784-815 | the unlink step of `removeKey` always finds the node and leaves the arena as `UnspliceNodes` describes |
| TrieData.Trie.RemoveKey | CharTrie/TrieData.h:765-825 | the empty key empties the trie and returns true; otherwise the result is whether the key resolves; on failure nothing changes; on success exactly the keys extending it lose their values |
| TrieData.Trie.FindKey | CharTrie/TrieData.h:828-833 | `find` returns an iterator on the key's resolved path with only the last level descending, non-end exactly when the key resolves (value or not), on the key's node |
| TrieData.Trie.PathGreatEq | CharTrie/TrieData.h:1047-1082 | `intGetNodePathGreatEq` returns the heads of the greater-or-equal path |
| TrieData.Trie.LowerBound | CharTrie/TrieData.h:863-875 | `lower_bound` gives the iterator at `LowerBoundAt` of the key |
| TrieData.Trie.Begin | CharTrie/TrieData.h:903-915 | `begin` gives the iterator at `BeginAt` of the trie |
| TrieData.Trie.EndIterator | CharTrie/TrieData.h:918-923 | `end` gives the iterator with an empty stack |
| TrieStrings.GetStrLen | CharTrie/TrieStrings.h:104-117 | the index of the first 0 in the buffer |
| TrieStrings.ZeroEndChars | CharTrie/TrieStrings.h:120-124 | the characters a zero-terminated source contributes contain no 0 and are followed by 0 in the source; null contributes none |
| TrieStrings.ZeroEnd.IntAssign | CharTrie/TrieStrings.h:242-249 | the buffer becomes the first `n` source characters followed by 0 |
| TrieStrings.ZeroEnd.constructor | CharTrie/TrieStrings.h:120-124 | the new string holds the characters before the first 0 of the source, or none for null |
| TrieStrings.ZeroEnd.Copy | CharTrie/TrieStrings.h:127-131 | the copy holds the same characters and the source is unchanged |
| TrieStrings.ZeroEnd.MoveFrom | CharTrie/TrieStrings.h:134-138 | the move takes the other's vector and leaves it empty |
| TrieStrings.ZeroEnd.MoveFromFixed | CharTrie/TrieStrings.h:134-138 | the corrected move leaves the other a valid empty string |
| TrieStrings.ZeroEnd.MoveAssign | CharTrie/TrieStrings.h:155-162 | move assignment takes the other's vector and leaves it empty |
| TrieStrings.ZeroEnd.Clear | CharTrie/TrieStrings.h:166-170 | `clear` leaves a valid string of length 0 that is empty |
| TrieStrings.ZeroEnd.Assign | CharTrie/TrieStrings.h:180-185 | the string holds the characters before the source's first 0 |
| TrieStrings.ZeroEnd.AssignN | CharTrie/TrieStrings.h:188-193 | the string holds the first `n` source characters and has length `n` |
| TrieStrings.ZeroEnd.AppendChar | CharTrie/TrieStrings.h:196-203 | the character is inserted before the terminator: earlier characters kept, 0 still last, length one more |
| TrieStrings.ZeroEnd.GetStr | CharTrie/TrieStrings.h:207-212 | the vector is the characters followed by 0 |
| TrieStrings.ZeroEnd.Empty | CharTrie/TrieStrings.h:215-220 | under the terminator invariant, empty exactly when no characters are held; an empty vector also counts as empty |
| TrieStrings.ZeroEnd.Length | CharTrie/TrieStrings.h:223-229 | `size - 1`: the number of characters under the invariant, `SIZE_MAX` for an empty vector |
| TrieStrings.ZeroEnd.At | CharTrie/TrieStrings.h:232-238 | the `i`-th character below the length, the terminator at the length, an out-of-range failure beyond |
| TrieStrings.MovedFromLengthWraps | CharTrie/TrieStrings.h:134-138 | a moved-from string breaks the terminator invariant: it is empty, its length wraps to `SIZE_MAX`, and `at(0)` fails |
| TrieStrings.FixedLen.IntAssign | CharTrie/TrieStrings.h:376-383 | the vector becomes exactly the first `n` source characters |
| TrieStrings.FixedLen.constructor | CharTrie/TrieStrings.h:251-255 | the default string is empty |
| TrieStrings.FixedLen.FromBuf | CharTrie/TrieStrings.h:258-262 | the string holds the first `n` source characters |
| TrieStrings.FixedLen.Copy | CharTrie/TrieStrings.h:264-267 | the copy constructor as written leaves the copy empty |
| TrieStrings.FixedLen.CopyFixed | CharTrie/TrieStrings.h:264-267 | the corrected copy holds the same characters |
| TrieStrings.FixedLen.MoveFrom | CharTrie/TrieStrings.h:270-274 | the move takes the other's vector and leaves it empty |
| TrieStrings.FixedLen.MoveAssign | CharTrie/TrieStrings.h:293-300 | move assignment takes the other's vector and leaves it empty |
| TrieStrings.FixedLen.Clear | CharTrie/TrieStrings.h:303-308 | `clear` leaves an empty string of length 0 |
| TrieStrings.FixedLen.Assign | CharTrie/TrieStrings.h:317-322 | the string holds the characters before the source's first 0 |
| TrieStrings.FixedLen.AssignN | CharTrie/TrieStrings.h:283-290 | assigning `n` characters (also `operator=` from another string) holds exactly those |
| TrieStrings.FixedLen.AppendChar | CharTrie/TrieStrings.h:333-337 | `appendChar` pushes one character |
| TrieStrings.FixedLen.GetStr | CharTrie/TrieStrings.h:341-347 | `getStr` exposes the vector's characters themselves, with no terminator appended |
| TrieStrings.FixedLen.Empty | CharTrie/TrieStrings.h:349-355 | empty exactly when the length is 0 |
| TrieStrings.FixedLen.Length | CharTrie/TrieStrings.h:358-364 | the length is the vector's size |
| TrieStrings.FixedLen.At | CharTrie/TrieStrings.h:367-373 | a character exactly for indices below the length, the vector's entry there |
| TrieStrings.CopyLosesContents | CharTrie/TrieStrings.h:264-267 | copying the one-character string `"a"` gives length 0 |
| TrieStrings.CopyFixedKeepsContents | CharTrie/TrieStrings.h:264-267 | the corrected copy of `"a"` has length 1 |

## Left out

- `CharTrie/CharTrie.cpp` is not part of this model. It is a console demo (locale setup and printing).
- Locale behaviour of `tolower`, and the signedness of `char`: `CharOrder.Fold` is the "C"-locale fold of ASCII letters, compared as an unsigned ordinal. The source stores the fold in a `char` (`CharTrie/TrieData.h:28-30`), so where `char` is signed, bytes from 0x80 up sort before ASCII; the model orders them after it. No lemma depends on the fold beyond `Less` comparing fold values, so the results hold for any fold.
- Deallocation is left out: the recursive node destructor, `delete` in `removeKey`, and `intResetRoot`. Removed nodes stay in the arena, unreachable from the root.
- The unspecialised `get_undefined_value` template. Only the `int` specialisation (`-1`, `TrieForest.UNDEFINED`) is used.
- The `const_iterator`/`iterator` wrappers, `cbegin`/`cend`, the `std::iterator` base, and `operator*`/`operator->`. These only forward to the one traversal modelled here.
- Iterator copy and move are left out. So is iterator validity after the trie changes: an `Iterator` keeps the arena it was made from.
- The virtual `StringOfChars` interface dispatch is left out. The two concrete buffers are modelled directly.
- `reserve` is left out: it is a no-op.
- `StringOfCharsZeroEnd::operator=(const StringOfChars&)` is left out. It has no `return`, and the copy it performs is `TrieStrings.ZeroEnd.AssignN`.
- `memcpy`, `strlen` and `wcslen` are modelled as a sequence slice and a first-zero search. Keys are sequences of `char`, whatever the character width.
- `intGetNodeCreate` and `intGetNodeSimple` are left out: they only wrap a path into an iterator. `TrieData.Trie.FindKey` builds that iterator from `PathSimple`, and `AddKeyValue` builds it from the path of `PathCreate`.
- TrieBounds.LowerBoundFixedAbove: states only that the corrected `lower_bound` lands at or above the key. It does not state that the position is the least such key, nor that the end is returned only when no greater key exists. As written, the path is cleared whenever a level has no entry at or above the character (`TrieBounds.LowerBoundMissesGreater`), and `TrieBounds.LowerBoundFixed` keeps that greater-or-equal search. The full promise is proved for the corrected search instead, in `TrieOrder.LowerBoundGeLeast`.
- TrieData.Trie.AddKeyValue: requires a non-empty key, which the source only asserts.
- TrieStrings.ZeroEnd.IntAssign, `ZeroEnd.Assign`, `ZeroEnd.AssignN`, `FixedLen.IntAssign`, `FixedLen.Assign` and `FixedLen.AssignN` (which also stands for `FixedLen`'s `operator=`) take the source characters as a value. So assigning a buffer from its own storage cannot be expressed, for example `s.assign(s.getStr())`, or `operator=` through a `StringOfChars&` bound to the same buffer. In the source, `clear()` and `resize()` zero-fill that storage before `memcpy` reads it (`CharTrie/TrieStrings.h:246-248`, `380-382`), so such a self-assignment gives n zero characters through an overlapping `memcpy`.
- TrieStrings.ZeroEnd.MoveAssign and `FixedLen.MoveAssign` require that the other buffer is a different object, so self-move is not modelled.
- TrieStrings.ZeroEnd.AppendChar requires a vector of at least one element, and `ZeroEnd.Copy` requires a valid other buffer. Both exclude a moved-from buffer, whose vector is empty. In the source, that case is a `pop_back` on an empty vector, or a `memcpy` of `SIZE_MAX` characters.

## Findings

| source | as written | input that shows it | evidently intended | confidence | as-written member | corrected member |
|---|---|---|---|---|---|---|
| CharTrie/TrieStrings.h:134-138 | the move constructor leaves the other buffer with an empty vector, so its `length()` is `size() - 1` in `size_t` | move from any string, then call `length()` on the source | the moved-from buffer stays a valid empty string `{0}` | high (not executed) | TrieStrings.MovedFromLengthWraps | TrieStrings.ZeroEnd.MoveFromFixed |
| CharTrie/TrieStrings.h:264-267 | the copy constructor of `StringOfCharsFixedLen` has an empty body | copy the string `"a"` | the copy holds `"a"` | high (not executed) | TrieStrings.CopyLosesContents | TrieStrings.CopyFixedKeepsContents |
| CharTrie/TrieData.h:1232 | after popping back to a parent, `++` stops on the parent if it has a value, so the parent is yielded again after its subtree | keys `"a"=1`, `"ab"=2`: iteration from `find("a")` yields `"a"`, `"ab"`, `"a"` | stop only on a freshly entered node, giving strictly ascending keys | high (not executed) | TrieCursor.AdvanceRevisits | TrieCursor.AdvanceFixedAscends |
| CharTrie/TrieData.h:863-875 | `lower_bound` advances with the same `++`, so it can land on the parent of the searched key | `"a"=1` with a value-less `"ab"`: `lower_bound("ab")` is `"a"` | a key equal to or greater than the searched key | high (not executed) | TrieBounds.LowerBoundBelowKey | TrieBounds.LowerBoundFixedAbove |
| CharTrie/TrieData.h:1078-1079 | the greater-or-equal path is cleared when a level has no entry at or above the key's character, so `lower_bound` returns the end although a greater key exists, against its doc comment (`CharTrie/TrieData.h:202-211`) | keys `"a"=1`, `"b"=2`: `lower_bound("ab")` is the end although `"b"` is greater | go on after the dead end with the next sibling of the matched node, so that the end means no key with a value is at or above the searched key | high (not executed) | TrieBounds.LowerBoundMissesGreater | TrieOrder.LowerBoundGeLeast |
| CharTrie/TrieData.h:903-915 | `begin` seeds the stack with the first top-level node and always advances once, so that node is never yielded before its children, and not at all when it has none | the single key `"a"=1`: `begin() == end()` | start on the first node with a value in pre-order, which holds the least key with a value | high (not executed) | TrieBounds.BeginSkipsFirst | TrieOrder.BeginFixedLeast |
