# HAMT string set, modelled in Dafny

The system is a hash array mapped trie (HAMT) that stores a set of strings.
`Hamt` hashes each string to 64 bits and hands the hash and the string to
`TopLevelHamtNode`. That is a table of `MAX_IDX` = 64 entries, indexed by the
hash's low six bits (`BITS_PER_LEVEL` = 6, `FIRST_N_BITS` = 63).

An entry is one of three things:
- null;
- a leaf: a hash shifted to the leaf's depth, plus a vector of keys with that hash, in insertion order;
- a node: a 64-bit occupancy map plus one child per set bit, highest bit first.

At each level below the table, the next six bits of the hash choose a child:
- `containsHash` tests the bit;
- `numberOfHashesAbove` counts the set bits at that position and above, so the child sits at index `numberOfHashesAbove - 1`;
- a new child goes at index `numberOfHashesAbove`, computed before its bit is set.

Three operations change or read the table:
- **Insert** walks down. It adds a leaf under a node whose map lacks the key's chunk, or appends to a leaf of the same hash. A leaf of another hash is split into a two-leaf node when the next chunks differ; when they agree, the leaf is pushed one level down and the walk goes on.
- **Lookup** walks the same way and searches the leaf's keys.
- **Remove** erases the key from its leaf. When the leaf becomes empty, `deleteFromNode` removes the sub-tree from the "cut". The cut is the table slot to begin with, whatever it holds. It moves to each node on the way down that has more than one child.

## How the model is built

- `HamtBitmap` (bitmap.dfy): the constants and the bitmap helpers on `bv64`.
  - `BitsFrom` is a reference definition of "set bits at or above a position", and the popcount-based helpers are proved equal to it.
  - `RoutesTo(m, h, j)` says the chunk of `h` is set in `m` and owns child `j`.
- `HamtEntryTag` (entry_tag.dfy): the one-word tagged pointer of `HamtNodeEntry` and its tag tests.
- `HamtTrie` (trie.dfy): entries as the `Entry` datatype, plus:
  - `Keys`, the strings stored below an entry;
  - `WfAt`, the invariant at each depth: leaves hold distinct keys, each of which has the leaf's shifted hash; a node has one non-null child per set bit, at least one, and routes every key below child `j` to `j`;
  - the depth bound, proved from the 64-bit hash: nodes only above depth 10.
- `HamtZipper` (zipper.dfy) models the C++ `HamtNodeEntry *` the walks move down as a path of frames from the slot. Writing through the pointer is `Plug` into the end of the path.
- `HamtNodeOps` (node_ops.dfy): the entry rewrites, as functions from the entry before to the entry after:
  - `std::find` and `erase` on leaf data;
  - adding a child;
  - the two leaf splits;
  - `deleteFromNode`.
- `HamtPaths` (paths.dfy): what the walks need about paths:
  - the walk invariant;
  - writing back through the pointer;
  - remove's cut.
- `HamtInsertSteps` / `HamtRemoveSteps` contain the loops of insert and of remove below a non-null slot, as methods with their loop invariants and one lemma per branch.
- `HamtTable` (table.dfy) is the class `TopLevelHamtNode`: an `array<Entry>` of 64 slots with `Insert`, `Lookup` and `Remove`.
- `HamtSet` (hamt.dfy) is the class `Hamt`, whose hash function is a constructor parameter.

The table keeps a ghost hash function `H`. Every method of `TopLevelHamtNode` requires `hash == H(str)`, which is all the C++ code needs from its callers: `Hamt` always passes `hasher(str)`.

Where the documentation and the code disagree, the model follows the code:
- The comment on `numberOfHashesAbove` (include/HAMT.hh:148-153) gives the map of chunks 0, 2 and 3 a count of 2 for chunk 0. The code (src/HAMT.cc:359-362) counts the bit itself and gives 3, and its callers use `idx - 1` to match. `HamtBitmap.HashesAboveExample` states both values.
- The comment on `map` (include/HAMT.hh:169-181) matches the code. `numberOfHashesAbove` shifts by the chunk and counts, and its callers subtract one when the bit is set (`children[idx - 1]`) and not when it is clear (the new child at `idx`). `RoutesTo` and `InsertChild` state that rule.
- include/HAMT.hh declares a `std::unique_ptr` API: `takeChild`, `takeLeaf` and `release`, the move constructors, and the `HamtNode` constructors. src/HAMT.cc defines a raw-pointer version instead (`HamtNodeEntry(HamtNode *)`, `free`). The model follows src/HAMT.cc.
- The test file calls `find` and `erase`, which `Hamt` does not declare. They are read as `lookup` and `remove`.

## Model

| member | source | states |
|---|---|---|
| HamtBitmap.ConstantsAgree | include/HAMT.hh:12-21 | BITS_PER_LEVEL is 6, FIRST_N_BITS is 63 and MAX_IDX is 64, so every `hash & FIRST_N_BITS` indexes the 64-entry table and a 64-bit map |
| HamtBitmap.Chunk | src/HAMT.cc:23 | `hash & FIRST_N_BITS` is below 64 |
| HamtBitmap.NumberOfChildrenCounts | src/HAMT.cc:355-357 | numberOfChildren (a popcount) equals the reference count of set bits from position 0, and is zero exactly for the empty map |
| HamtBitmap.NumberOfHashesAboveCounts | src/HAMT.cc:359-362 | numberOfHashesAbove equals the reference count of set bits at positions greater than or equal to the hash's low six bits |
| HamtBitmap.HashesAboveExample | include/HAMT.hh:148-154 | for the map of chunks 0, 2 and 3, the count is 2 for chunk 2 and 3 for chunk 0 (the code's value, not the comment's) |
| HamtBitmap.ContainsHashMeans | src/HAMT.cc:364-366 | containsHash holds exactly when markHash of the hash leaves the map unchanged, and exactly when numberOfHashesAbove is one more than the count of set bits strictly above the chunk |
| HamtBitmap.MarkHashBit | src/HAMT.cc:368-370 | markHash sets the hash's bit and leaves every other bit as it was |
| HamtBitmap.UnmarkHashBit | src/HAMT.cc:372-374 | unmarkHash clears the hash's bit and leaves every other bit as it was |
| HamtBitmap.RoutesToUnique | include/HAMT.hh:184-190 | two set chunks own the same child index exactly when they are the same chunk |
| HamtBitmap.HigherBitSmallerIndex | include/HAMT.hh:184-186 | a higher set bit owns a smaller child index: children run from high bits to low |
| HamtBitmap.RoutesToBounds | src/HAMT.cc:38-39 | when containsHash holds, `numberOfHashesAbove - 1` is a valid child index |
| HamtBitmap.MarkCounts | src/HAMT.cc:42-67 | marking an absent hash adds one child, and the new bit owns index `numberOfHashesAbove` taken before the mark |
| HamtBitmap.MarkRoutes | src/HAMT.cc:67-72 | after the mark, each old child keeps its index before that position and moves one place along from it |
| HamtBitmap.UnmarkCounts | src/HAMT.cc:195-196 | unmarking a present hash removes one child, and numberOfHashesAbove after the unmark is the old child's 0-based index |
| HamtBitmap.UnmarkRoutes | src/HAMT.cc:195-213 | after the unmark, the children before the removed one keep their index and those after it move one place back |
| HamtBitmap.TwoBits | src/HAMT.cc:101-103 | the map of two different chunks has two children, the higher chunk at index 0 |
| HamtBitmap.OneBit | src/HAMT.cc:136-137 | the map of one chunk has one child, at index 0 |
| HamtEntryTag.NodeEntry | src/HAMT.cc:289-290 | a node's entry word is neither null nor a leaf |
| HamtEntryTag.LeafEntry | src/HAMT.cc:293-294 | a leaf's entry word (low bit set) is a leaf and not null |
| HamtEntryTag.NullEntry | src/HAMT.cc:297 | the default entry word is null and not a leaf |
| HamtEntryTag.GetChild | src/HAMT.cc:307-315 | getChild of a non-null non-leaf word is an allocator address |
| HamtEntryTag.GetLeaf | src/HAMT.cc:317-325 | getLeaf clears the tag bit |
| HamtEntryTag.NodeRoundTrip | src/HAMT.cc:289-315 | getChild of a node's entry gives the node's address back |
| HamtEntryTag.LeafRoundTrip | src/HAMT.cc:293-325 | getLeaf of a leaf's entry gives the leaf's address back |
| HamtEntryTag.LeafRebuilt | src/HAMT.cc:293-325 | a leaf word with a non-zero address is the leaf entry of its getLeaf |
| HamtEntryTag.NodeRebuilt | src/HAMT.cc:289-315 | a non-null non-leaf word is the node entry of its getChild |
| HamtEntryTag.TagTests | src/HAMT.cc:299-305 | isNull holds for the default (zero) word alone; isLeaf holds exactly for the words that setting the tag bit leaves unchanged; a leaf word is never null |
| HamtEntryTag.ExactlyOneKind | include/HAMT.hh:32-40 | a null word is not a leaf, and a word that is neither null nor a leaf holds an allocator address (non-zero and even) |
| HamtEntryTag.KindsDisjoint | include/HAMT.hh:39-40 | the entries of a leaf and of a node never coincide, and leaf entries are equal exactly for equal addresses |
| HamtTrie.DistinctChunkDepth | src/HAMT.cc:83-131 | two hashes that still differ at a depth but share its chunk differ one level further down, which is at most depth 10, so a split node fits in a 64-bit hash |
| HamtTrie.ShrVanishes | src/HAMT.cc:34 | after eleven shifts by BITS_PER_LEVEL a 64-bit hash is zero |
| HamtTrie.NodeKeysSplit | include/HAMT.hh:184-190 | a node's keys are those of one child plus those of the others |
| HamtNodeOps.Find | src/HAMT.cc:88-90 | std::find returns the first index holding the key, or the length when there is none |
| HamtNodeOps.Erase | src/HAMT.cc:253 | std::vector::erase drops one element and keeps the others in order |
| HamtNodeOps.InsertChild | src/HAMT.cc:41-77 | the new node's map is the old one with the hash marked; the new child sits at `numberOfHashesAbove`, the children before it stay and the rest move one along |
| HamtNodeOps.SplitLeaf | src/HAMT.cc:95-131 | a two-child node under the marks of both next chunks; it holds the new leaf and the old one, both one level down |
| HamtNodeOps.PushDown | src/HAMT.cc:132-139 | a one-child node holding the old leaf with its hash shifted once more |
| HamtNodeOps.DeleteFromNode | src/HAMT.cc:173-225 | a leaf, or a node of one child, becomes null; otherwise the node loses the hash's bit and the child at `numberOfHashesAbove - 1`, the others in order |
| HamtNodeOps.LeafAppend | src/HAMT.cc:87-93 | appending an absent key of the leaf's hash keeps the leaf well-formed and adds just that key |
| HamtNodeOps.LeafErase | src/HAMT.cc:250-255 | erasing from a leaf of two or more keys keeps it well-formed and removes just that key |
| HamtNodeOps.InsertChildWf | src/HAMT.cc:41-78 | adding a well-formed child for an absent chunk keeps the node well-formed and adds the child's keys |
| HamtNodeOps.SplitLeafWf | src/HAMT.cc:95-131 | splitting a leaf for a key of another hash with a different next chunk gives a well-formed node holding the old keys and the new one |
| HamtNodeOps.SplitLeafDepth | src/HAMT.cc:83-87 | a leaf reached by a key of another hash with the same chunk is above depth 10 |
| HamtNodeOps.PushDownWf | src/HAMT.cc:132-141 | pushing a well-formed leaf one level down gives a well-formed node with the same keys |
| HamtNodeOps.DeleteChildWf | src/HAMT.cc:195-223 | deleting a routed child of a node of two or more children, via deleteFromNode, keeps the node well-formed |
| HamtPaths.LeafFind | src/HAMT.cc:156-158 | std::find succeeds on a leaf exactly when the key is stored there |
| HamtPaths.NodeKeyAbsent | src/HAMT.cc:163-165 | a key whose chunk is absent from a well-formed node's map is not below the node |
| HamtPaths.NodeStep | src/HAMT.cc:160-167 | at a well-formed node, a key is below it exactly when its chunk is set and it is below child `numberOfHashesAbove - 1`, which is well-formed one level down |
| HamtPaths.DescendWalk | src/HAMT.cc:38-40 | descending into that child keeps the walk invariant without changing the slot, and the key stays below the entry reached |
| HamtPaths.LeafChunk | src/HAMT.cc:82 | at a leaf the walk reached, the key's chunk at that depth equals the leaf hash's chunk |
| HamtPaths.WriteBack | src/HAMT.cc:77 | writing through the entry pointer an entry that adds at most the key keeps the slot well-formed and adds just those keys |
| HamtPaths.EraseBack | src/HAMT.cc:252-259 | erasing the key from a leaf of two or more keys at the end of the walk removes just that key from the slot, which stays well-formed |
| HamtPaths.CutDeletable | src/HAMT.cc:174-183 | the entry at the cut meets deleteFromNode's assertions: it is not null, and a node there has the cut hash's bit set |
| HamtPaths.CutWhole | src/HAMT.cc:230-242 | when the cut entry has one child or the path is empty, the cut is the slot and the key was its only key |
| HamtPaths.CutDelete | src/HAMT.cc:195-223 | at a cut node of two or more children, deleteFromNode drops exactly the child the walk took |
| HamtPaths.CutChain | src/HAMT.cc:262-268 | below the cut the path runs through one-child nodes only, so it holds no other key |
| HamtPaths.CutBack | src/HAMT.cc:255-256 | when the key's leaf runs empty, deleting from the cut keeps the slot well-formed and removes just that key |
| HamtInsertSteps.NewLeaf | src/HAMT.cc:25-30 | a null slot gets a leaf of the full hash holding only the key |
| HamtInsertSteps.OtherLeaf | src/HAMT.cc:81-82 | a leaf of another hash reached by the key shares its chunk at this depth (the source's assertion), and does not hold the key |
| HamtInsertSteps.AddChild | src/HAMT.cc:41-78 | a node lacking the key's next chunk: the key was absent, and adding the leaf gives a well-formed slot with the key added |
| HamtInsertSteps.Append | src/HAMT.cc:87-93 | a leaf of the key's hash without the key: the key was absent, and appending it gives a well-formed slot with the key added |
| HamtInsertSteps.Present | src/HAMT.cc:87-93 | a leaf of the key's hash holding the key: the key was there, and the slot is unchanged |
| HamtInsertSteps.Split | src/HAMT.cc:95-131 | a leaf of another hash with a different next chunk: the key was absent, and the split gives a well-formed slot with the key added |
| HamtInsertSteps.Push | src/HAMT.cc:132-141 | a leaf of another hash with the same next chunk: the key was absent, and after the push-down the walk invariant holds at the new node, at the same depth |
| HamtInsertSteps.NodeCase | src/HAMT.cc:33-79 | at a node, either the walk goes on into the child (invariant kept) or the new leaf is added and insert is done |
| HamtInsertSteps.LeafCase | src/HAMT.cc:80-143 | at a leaf, each of the four branches finishes insert or, for the push-down, keeps the invariant |
| HamtInsertSteps.InsertBelow | src/HAMT.cc:32-144 | the loop of insert below a non-null slot ends, with a well-formed slot holding the old keys and the key; the slot is unchanged when the key was there |
| HamtRemoveSteps.RNodeCase | src/HAMT.cc:262-274 | at a node, the cut moves to it when it has more than one child; then either the walk goes on into the child or the key is absent |
| HamtRemoveSteps.RLeafCase | src/HAMT.cc:248-261 | at the leaf: the key is absent; or it is erased from a leaf that keeps other keys; or the leaf runs empty and deleting from the cut leaves a well-formed slot without the key |
| HamtRemoveSteps.RemoveBelow | src/HAMT.cc:241-276 | the loop of remove below a non-null slot reports whether the key was there; if so, the new slot is well-formed and lacks exactly the key, otherwise the slot is unchanged |
| HamtTable.SlotKeys | include/HAMT.hh:193-207 | in a well-formed table a key is present exactly when it is below the slot of its first chunk |
| HamtTable.TableRemoved | src/HAMT.cc:227-277 | replacing the key's slot by a slot without the key removes the key from the table and keeps everything else |
| HamtTable.TopLevelHamtNode.constructor | include/HAMT.hh:207 | the table starts with MAX_IDX null entries: well-formed and empty |
| HamtTable.TopLevelHamtNode.Lookup | src/HAMT.cc:147-171 | lookup returns true exactly when the key is in the set |
| HamtTable.TopLevelHamtNode.Insert | src/HAMT.cc:22-145 | insert keeps the table well-formed, the set gains the key, no other slot changes, and nothing changes when the key was already there |
| HamtTable.TopLevelHamtNode.Remove | src/HAMT.cc:227-277 | remove keeps the table well-formed, returns whether the key was there, the set loses the key, no other slot changes, and nothing changes when the key was absent |
| HamtTable.TopLevelHamtNode.Added | src/HAMT.cc:22-31 | storing insert's slot gives a well-formed table holding the old keys and the key, and the old table when the key was there |
| HamtTable.TopLevelHamtNode.Removed | src/HAMT.cc:227-277 | storing remove's slot gives a well-formed table holding the old keys but the key |
| HamtSet.Hamt.constructor | include/HAMT.hh:213-214 | a new Hamt is empty and well-formed |
| HamtSet.Hamt.Insert | src/HAMT.cc:380-383 | insert hashes the string and adds it to the set |
| HamtSet.Hamt.Lookup | src/HAMT.cc:385-388 | lookup hashes the string and says whether it is in the set |
| HamtSet.Hamt.Remove | src/HAMT.cc:390-393 | remove hashes the string, removes it, and says whether it was there |

## Left out

- Memory management is not modelled: `malloc`, `calloc`, `realloc`, `memmove`, `new`/`delete`, `HamtNodeEntry::free` and the destructors. Entries are values, so there is no aliasing, no leak and no use after free. The model states what the children array holds after each `realloc`/`memmove`, not how it is moved.
- `std::hash<std::string>` is a `Hamt` constructor parameter (`hasher`), plus a ghost copy `H` in `TopLevelHamtNode`. The hash values it produces are not modelled.
- HamtTable.TopLevelHamtNode.Insert writes the slot once, at the end. The C++ code writes through its entry pointer during the walk: the push-down replaces the leaf before the walk goes on. The slots end up the same, but the order of the intermediate writes is not modelled.
- HamtTable.TopLevelHamtNode.Remove also writes the slot once, at the end. The C++ code erases from the leaf in place before calling `deleteFromNode`.
- HamtEntryTag: the tagged word is modelled on its own. The trie works on the `Entry` datatype that the word decodes to, and the link between the word and the allocated objects is not modelled.
- Allocation failure (a null result from `malloc`/`realloc`) is not modelled; the C++ code does not check for it either.
- The header's unique_ptr API is not part of this model, because src/HAMT.cc does not define it.
- The benchmark files (bench/, bench.py, test/bench.cpp) and the test driver are not modelled; they are clients, not part of the set.
- The C++ `assert`s become proved facts: HamtInsertSteps.OtherLeaf for src/HAMT.cc:82, and HamtPaths.CutDeletable for the assertions in deleteFromNode. They are not runtime checks.
