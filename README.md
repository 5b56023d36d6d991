# A verified model of the `btree.py` B+Tree core

This project models the B+Tree of `btree.py`, the index of a small
single-file database, in Dafny and proves what the code promises:

- **The leaf page layout.** A 4-byte big-endian type tag (0 means leaf).
  Then a 4-byte big-endian entry count. Then, from byte 8, each pair as a
  4-byte length followed by its pickled bytes.
- **The codec.** `set_leaf` writes that layout and `get_pairs` reads it
  back.
- **The tree handle `BPlusTree`.** It holds only the meta page's id. The
  meta page's first 8 bytes hold the root's page id.
- **The handle's operations.** `create`, `fetch_root_page`, `search`,
  `search_internal`, `insert` and `insert_internal`.
- **`DuplicateKeyError`.** It is raised when the key is already in the
  leaf.

The model follows the code's own form:

- **`Pages`: the page pool.** A `Buffer` is a class: a byte `array` page,
  a dirty flag and the branch contents. `BufferPoolManager` is a class
  whose `View()` is the pool as a value (`PoolState`).
- **`BTree`: the tree's methods.** The methods of `BPlusTree` work on
  those buffers with loops and in-place writes.
- **Specification modules.** Each method is proved against a function in
  `LeafFormat` (the leaf codec as bytes) or `TreeSpec` (create, search,
  insert and root growth on `PoolState`).
- **Properties.** The lemmas beside those functions state what the source
  promises: round trips, sort order, the duplicate check, lookup after
  insert, and the routing rule in branches.

Python behaviour is written out where it matters:

- **Slices.** A slice past the end of the page is cut short (`Min`). A
  slice assignment is `Overwrite`.
- **Integer fields.** `struct.pack('>I')` and `struct.unpack('>I')` are
  `PackU32` and `UnpackU32` on 4-byte big-endian fields.
- **Exceptions** become `Err` values of `Errors.Error`:
  - `DuplicateKey` for `DuplicateKeyError`;
  - `NotImplemented` for the branch case of `insert_internal`;
  - `Corrupt` for `struct.error` on a short length field, or a blob that
    does not unpickle;
  - `BadBranch` for an `IndexError` on a short child list;
  - `NoSuchPage` for a page the pool does not hold;
  - `TooDeep` for `RecursionError`, with the recursion limit of 1000 as
    depth fuel.

`btree.py` declares `LEAF_NODE_MAX_PAIRS` and `BRANCH_NODE_MAX_KEYS` and
keeps a root-growing branch in `insert` (lines 97-106), but
`insert_internal` raises for branches and never splits. The model follows
the code.

## Model

| member | source | states |
|---|---|---|
| Bytes.UnpackPackU32 | btree.py:127 | reading a count field written by `struct.pack('>I', n)` gives `n` back |
| Bytes.PackUnpackU32 | btree.py:131 | every 4-byte field is the packing of the number it reads as |
| Pages.IdRoundTrip | btree.py:62-70 | the 8 bytes `create` stores for a page id read back as that id in `fetch_root_page` |
| Pages.IdBytesOfRead | btree.py:70 | 8 bytes read as a page id are exactly the bytes that id is stored as |
| Pages.Overwrite | btree.py:144-145 | a slice assignment that fits keeps the page's length, puts the data at the offset, and leaves every byte before and after it unchanged |
| Pages.OverwriteTwice | btree.py:144-145 | writing a length field and then the blob right after it lays both out back to back and keeps the rest |
| Pages.WriteBytes | btree.py:61 | the in-place slice assignment on a page array leaves it as `Overwrite` of its old bytes |
| Pages.AllocPage | btree.py:59-60 | `create_page` fails exactly when ids run out; otherwise it adds one fresh zeroed page under an id not yet used |
| Pages.BufferPoolManager.CreatePage | btree.py:59-60 | a new buffer holding a fresh page, registered under the next id; the pool view changes as `AllocPage` says |
| Pages.BufferPoolManager.FetchPage | btree.py:69-71 | returns the buffer registered under the id, or `NoSuchPage`; nothing changes |
| Pages.WritePage | btree.py:61-62 | a slice assignment on a pool buffer changes that page's bytes and no other page |
| Pages.WriteAndMark | btree.py:100-101 | writes the tag of the new root and marks it dirty, and nothing else |
| Pages.MarkDirty | btree.py:63-64 | `is_dirty = True` sets that page's flag and changes nothing else |
| Pairs.KeyLessLexicographic | btree.py:89 | Python's `bytes` order: a key is below another exactly when it is a proper prefix of it, or holds the smaller byte at the first position where they differ |
| Pairs.KeyLessTotal | btree.py:89 | byte-wise key order: two different keys are ordered one way or the other |
| Pairs.KeyLessTransitive | btree.py:118 | byte-wise key order is transitive, so sorting by key is well defined |
| Pairs.KeyLessAsymmetric | btree.py:89 | no two keys are each below the other |
| Pairs.KeyLessIrreflexive | btree.py:89 | no key is below itself, so a key equal to a separator is not routed left of it |
| Pairs.InsertByKey | btree.py:118 | placing a pair into a key-ordered list keeps it ordered and adds exactly that pair |
| Pairs.SortByKey | btree.py:118 | `sort(key=...)` returns a key-ordered permutation of the list |
| Pairs.AppendAndSort | btree.py:117-118 | for a strictly ascending leaf without the key, `append` then `sort` is one ordered insert: strictly ascending, one longer, the old pairs plus the new one |
| Pairs.InsertByKeyStrict | btree.py:117-118 | inserting a key not present into a strictly ascending list keeps it strictly ascending |
| Pairs.SortSorted | btree.py:118 | sorting an already ordered list leaves it as it is |
| Pairs.StrictlySortedIsSorted | btree.py:118 | a strictly ascending leaf is in key order |
| LeafFormat.WriteLeaf | btree.py:138-146 | after `set_leaf`, the page keeps its length and its tag; the count field holds the number of pairs, the entries follow from byte 8, and every byte past them is unchanged |
| LeafFormat.WriteLeafKeeps | btree.py:138-146 | `set_leaf` leaves bytes 0..4 (the type tag) and every byte past the last entry untouched |
| LeafFormat.WriteLeafFrames | btree.py:127-146 | after `set_leaf`, the count field reads the number of entries and the entry loop of `get_pairs` cuts out the same blobs in order |
| LeafFormat.ParseFramesOfFrame | btree.py:130-134 | entries laid out back to back at an offset are read back exactly by the length-prefixed loop |
| LeafFormat.DecodeEncode | btree.py:39-45 | unpickling the pickled pairs gives the pairs back, when the pair codec round-trips |
| LeafFormat.LeafRoundTrip | btree.py:126-146 | leaf round trip: reading a page written by `set_leaf(pairs)` gives `pairs` back, whatever the page held before |
| LeafFormat.ZeroPageIsEmptyLeaf | btree.py:61 | a zeroed page reads as a leaf with no pairs |
| LeafFormat.FitsBounds | btree.py:139-144 | entries that fit in the page have lengths and a count that fit the 4-byte fields |
| LeafFormat.FrameAppend | btree.py:141-146 | laying out two runs of entries one after the other is laying out their concatenation |
| LeafFormat.ParseLeaf | btree.py:126-135 | what `get_pairs` returns: as many pairs as the count field says; every failure (a short length field, a blob that does not unpickle) is `Corrupt` |
| LeafFormat.ResumeBlobsAgrees | btree.py:130-135 | unpickling blob by blob, failing on the first bad one, agrees with unpickling the whole list |
| LeafFormat.ResumeFrames | btree.py:130-135 | reading entry by entry agrees with first cutting every entry out and then unpickling them |
| LeafFormat.ResumeStart | btree.py:126-135 | the loop of `get_pairs`, started at byte 8 with nothing read, computes the leaf's contents |
| TreeSpec.FindInLeaf | btree.py:82-85 | the pair found has the key and is in the leaf; nothing is found exactly when no pair has the key |
| TreeSpec.FindUnique | btree.py:82-85 | in a strictly ascending leaf the scan finds the one pair with that key |
| TreeSpec.ChildIndex | btree.py:88-91 | the child index is the first separator strictly above the key, or the count of separators when there is none |
| TreeSpec.SeparatorPartition | btree.py:88-91 | with ascending separators, every separator left of the chosen child is at most the key and every one from it on is above the key |
| TreeSpec.TiesGoRight | btree.py:89 | a key equal to separator `j` is routed to child `j + 1`, the one on its right |
| TreeSpec.ChildOf | btree.py:87-91 | a branch with one more child than separators routes to the child at `ChildIndex`; a shorter child list can be an `IndexError` |
| TreeSpec.SearchNode | btree.py:78-91 | `search_internal`: whatever it finds carries the searched key |
| TreeSpec.SearchTree | btree.py:74-76 | `search` from the root the meta page names: it succeeds only when the root is found, and whatever it finds carries the searched key |
| TreeSpec.RootOf | btree.py:68-71 | the root id found is the one stored in the meta page's first 8 bytes, and both pages exist |
| TreeSpec.InsertIntoNode | btree.py:109-123 | a branch gives `NotImplemented`; a successful insert reports no split, keeps the page's length, tag 0 and branch contents, and leaves it dirty |
| TreeSpec.InsertIntoNodeOutcome | btree.py:109-120 | a leaf insert succeeds exactly when the leaf reads, lacks the key and the rewritten leaf fits the page; `DuplicateKeyError` is raised exactly when the leaf reads and already holds the key |
| TreeSpec.InsertIntoLeaf | btree.py:113-120 | a fresh key whose rewritten leaf fits is accepted, and the page then reads as the old pairs plus the new one: strictly ascending, one longer |
| TreeSpec.InsertTree | btree.py:94-106 | `insert`: a successful insert found the root and rewrote the root page alone, to the image `insert_internal` gives it; the root never grows |
| TreeSpec.InsertTreeOutcome | btree.py:94-120 | on a tree whose root is a leaf, `insert` succeeds exactly for a fresh key whose leaf still fits, and raises `DuplicateKeyError` exactly when the root holds the key |
| TreeSpec.DuplicateRejected | btree.py:114-116 | a key already in the root leaf gives `DuplicateKeyError` and the pool is left exactly as it was |
| TreeSpec.InsertFailsCleanly | btree.py:94-123 | a failed insert changes nothing; a successful one keeps the same set of pages |
| TreeSpec.SearchAfterInsert | btree.py:74-121 | inserting a fresh key that fits into a leaf root succeeds; afterwards a search for the key finds the new pair, a search for any other key returns what it did before, and the root stays a strictly ascending leaf |
| TreeSpec.LookupAfterAdd | btree.py:82-85 | adding one pair to a strictly ascending leaf makes its key found and leaves every other lookup unchanged |
| TreeSpec.CreateTree | btree.py:56-65 | `create` fails, with the ids used up, exactly when fewer than two ids are left; otherwise it returns the first new id and uses two ids |
| TreeSpec.CreateLayout | btree.py:56-65 | the pool `create` leaves: the meta page holds the root's id, the root page holds tag 0, both dirty |
| TreeSpec.EmptyRootPage | btree.py:61 | the root page `create` writes is a leaf with no pairs |
| TreeSpec.CreateAddsTwoPages | btree.py:59-64 | `create` adds exactly two new dirty pages, returns the first as the meta page and changes no existing page |
| TreeSpec.CreateGivesEmptyTree | btree.py:61-65 | after `create` the meta page points at the second new page, which is an empty leaf |
| TreeSpec.CreateThenSearch | btree.py:56-91 | searching a freshly created tree finds nothing |
| TreeSpec.GrowTree | btree.py:97-106 | root growth fails only when ids are used up or the meta page is missing, each exactly in that case; otherwise it uses one new id for the new root |
| TreeSpec.GrowLayout | btree.py:99-106 | the pool after root growth: a new page with tag 1, dirty, holding the separator and two children; the meta page repointed and dirty |
| TreeSpec.GrowRootShape | btree.py:99-106 | after root growth the meta page names the new page: tag 1, branch `[sep]` over `[old_root, sibling]`, dirty; the old root and the sibling are untouched |
| TreeSpec.GrowRootRoutes | btree.py:88-106 | in the grown tree, keys below the separator go to the old root and all others go to the new sibling |
| TreeSpec.BranchRootRoutes | btree.py:88-91 | a root branch with one separator sends keys below it to its first child and all others to its second |
| BTree.ScanLeaf | btree.py:82-85 | the `for pair in pairs` loop returns the first pair with the key, as `FindInLeaf` specifies |
| BTree.ScanSeparators | btree.py:88-89 | the `enumerate(keys)` loop stops at the first separator above the key, as `ChildIndex` specifies |
| BTree.PickChild | btree.py:87-91 | the child `search_internal` descends into is `ChildOf` the branch |
| BTree.WriteEntryStep | btree.py:144-146 | one turn of the `set_leaf` loop extends the written entries by one |
| BTree.WriteEntry | btree.py:142-146 | the loop body of `set_leaf` writes the next length field and blob right after the entries written so far |
| BTree.BPlusTree.Create | btree.py:56-65 | `create` changes the pool as `CreateTree` says and returns the meta page's id |
| BTree.BPlusTree.InitPages | btree.py:61-64 | writes tag 0 into the root, the root's id into the meta page, and marks both dirty |
| BTree.BPlusTree.FetchRootPage | btree.py:68-71 | returns the buffer of the root named by the meta page, or the error `RootOf` gives |
| BTree.BPlusTree.Search | btree.py:74-76 | `search` returns what `SearchTree` specifies for the current pool |
| BTree.BPlusTree.SearchInternal | btree.py:78-91 | `search_internal` returns what `SearchNode` specifies for the node's image |
| BTree.BPlusTree.Insert | btree.py:94-106 | `insert` changes the pool and fails as `InsertTree` says |
| BTree.BPlusTree.GrowRoot | btree.py:99-106 | the root-growing lines change the pool and fail as `GrowTree` says |
| BTree.BPlusTree.RepointMeta | btree.py:102-104 | fails exactly when the meta page is missing; otherwise writes the new root's id into the meta page and marks it dirty |
| BTree.BPlusTree.InsertInternal | btree.py:109-123 | `insert_internal` gives what `InsertIntoNode` specifies; on error no page changes, on success only the node's page does |
| BTree.BPlusTree.PlanLeafInsert | btree.py:111-118 | the read-only part of `insert_internal`: the errors `InsertIntoNode` gives, or the sorted pairs whose layout is the node's next image |
| BTree.BPlusTree.StoreLeaf | btree.py:119-120 | `set_leaf` then `is_dirty = True` on a pool buffer changes only that page, to the written leaf marked dirty |
| BTree.BPlusTree.GetPairs | btree.py:126-135 | `get_pairs` returns `ParseLeaf` of the page's bytes |
| BTree.BPlusTree.SetLeaf | btree.py:138-146 | the page afterwards is `WriteLeaf` of its old bytes and the pickled pairs |
| BTree.BPlusTree.SetBranch | btree.py:106 | stores the branch contents into the page and changes no other page |

## Left out

- **Pickle.** `Pair.to_bytes` and `Pair.from_bytes` are not modelled
  byte by byte. A `Codec` pair of functions stands for them.
  `RoundTrips(codec)` states the round trip pickle guarantees; the leaf
  round trip assumes it.
- **Buffer pool and disk manager.** `buffer.py` and `disk.py` are not
  part of this model. The pool keeps every page in memory with its dirty
  flag. Pinning, eviction, write-back and disk I/O are not modelled.
- **Page ids.** `PageId.to_bytes` and `PageId.from_bytes` are modelled
  as 8-byte big-endian ids below 2^64. Running out of ids is the only
  way `create_page` fails (`PoolExhausted`).
- **Branch contents.** `get_branch` and `set_branch` are called but not
  defined in `btree.py`. A buffer carries its branch contents (separators
  and children) as an abstract field, not as bytes.
- **Splits.** There is no leaf split, no branch insert and no branch
  split: `insert_internal` raises on branches and never reports a split.
  So `insert`'s root-growing branch (lines 97-106) is unreachable. It is
  modelled separately as `GrowRoot` / `GrowTree`, with its own lemmas.
  `LEAF_NODE_MAX_PAIRS` and `BRANCH_NODE_MAX_KEYS` are unused constants.
- **Search modes.** `SearchMode.START` and the `SearchMode` class are
  left out; a search takes the key directly (`SearchMode.Key`).
- **The `__main__` demo** is left out.
- TreeSpec.InsertIntoNode: when the rewritten leaf would not fit the
  page, it gives `LeafOverflow` before writing. Python's `bytearray`
  slice assignment would instead grow the page past its fixed size.
- BTree.BPlusTree.InsertInternal: same deviation as `InsertIntoNode`
  (`LeafOverflow` instead of a page that grows).
- BTree.BPlusTree.SetLeaf: requires that the entries fit the page. Its
  only caller checks this first.
- TreeSpec.SearchNode: descent is limited to the recursion limit of 1000
  levels (`TooDeep`), standing for Python's `RecursionError`. The exact
  frame count at which Python stops is not modelled.
- TreeSpec.SearchNode: on a branch, the child page is fetched before the
  depth check. The exception a missing child raises inside the real
  buffer pool is modelled as `NoSuchPage`.
