# Verified model of the storage and arithmetic core

A Dafny model of the parts of the repository whose correctness is hardest to see: the Merkle AVL tree
with its arena, store and iterator, the RLP encoder, decoder and compressor, the fixed-width integers,
the in-place Merkle root, the buffered key-value database, and the walks between forks of the chain.

`dafny verify dfyconfig.toml` checks everything.

## What is modelled, and how

* **AVL tree** (`AvlTree`, `AvlTheorems`, `AvlNode`, `AvlStorage`, `AvlBacking`, `AvlMut`, `AvlLookup`,
  `AvlIter`, `AvlRemoval`, `AvlAccounts`, `HashDb`, `Order`). `AvlTree` is the algorithm on tree values, with the stored heights the
  program keeps, stale ones included. `AvlMut` is the program: a class over an arena of cells with a free
  list, nodes taken out, changed and put back, loaded from the store by hash when needed, given up on a
  death row, and committed inlined or by hash. A ghost shape says which cell or hash stands for which
  subtree; every method is proved equal to the algorithm on values, and that to a finite map.
* **RLP** (`Bytes`, `Rlp`, `RlpStream`, `RlpView`, `RlpInt`, `RlpRefusal`,
  `Compression`, `CompressionReach`). `Rlp.Encode` is Appendix B
  of the Ethereum Yellow Paper. `RlpStream` is the stream with its buffer, its stack of open lists and
  its back-patched headers. `RlpView` is the view with its offset and count caches.
* **Integers** (`Powers`, `BigWords`, `BigMul`, `BigShift`, `BigDiv`, `BigPow`, `BigDec`) are sequences
  of 64-bit words of any length, and every operation is proved against the numbers they stand for.
* **Merkle root** (`Merkle`), generic in the merge function.
* **Key-value database** (`KvDb`): a step machine whose steps are what the locks make atomic, for
  writers, readers and the one flushing thread, and the methods that run these steps.
* **Chain** (`ForkWalk`, `ForkSwitch`, `ForkRuns`): headers, bodies and the number index as maps, and in front of the
  index the window of recent blocks that numbers are looked up in first. `ForkWalk` has the walks over
  any window and index; `ForkSwitch` has insertion, the move of index and window to another branch, and
  what becomes of the walks then; `ForkRuns` has runs of insertions and the checks before them.

The hash is a parameter everywhere. A 256-bit hash cannot be injective on all strings, so what is
asked of it is only that it does not collide on the strings at hand.

## Where the code and what is said about it differ

The model follows the code.

* A comment on `seek` (`util/src/avl/avldb.rs:243`) promises the first key not below the given one; the
  code, like the comment on its trait (`util/src/avl/mod.rs:172`), goes to strictly greater keys.
* `remove` is documented to return the old value (`util/src/avl/mod.rs:165-167`); it never does.
* `at(usize::MAX)` on a fresh view takes the index for the mark of an unused cache
  (`RlpView.UnusedMarkIsWrong` says exactly when this shows).
* The height of a node is decoded twice, so only heights 1 to 127 survive a commit
  (`RlpInt.HeightDecodedTwice`, `AvlNode.DecodedAs`).
* Only nodes on the way to the key are given up; unchanged nodes that a rotation or a removal takes apart
  beside it keep their entries in the store (`AvlMut.AVLDBMut.Insert`, `AvlMut.AVLDBMut.Remove`).
* Rotations store heights from before the change; one removal is still well balanced
  (`AvlRemoval.RemoveKeepsClose`), a second one need not be (`AvlRemoval.SecondRemovalTips`).
* A string of up to 55 bytes behind a needless length field is read all the same
  (`RlpRefusal.AcceptsExactly`).
* A list is read on beyond its own end: bytes that follow it are taken for further items
  (`RlpRefusal.TrailingItems`).
* A commit drops unchanged loaded nodes without freeing the cells of their children
  (`AvlMut.AVLDBMut.Commit` counts them).
* Sizes are cast to 32 bits by the stream encoder, so headers are right exactly below 2^32
  (`RlpStream.StreamHeaderIsCanonical`).
* Data behind the compression marker is restored only if something inside it was swapped
  (`Compression.MarkedDataRestored`).
* The random choice between two heads of one height draws from a range of one number, so the newer
  block always wins.
* The window of recent blocks is refilled newest parent first and the new head last, so after any switch
  to a branch shorter than the window numbers are misread and walks mislead, although the stored index is
  right (`ForkSwitch.ReadsAfterMove` says exactly when, `ForkRuns.SwitchExample` gives four blocks).
* Read back on a restart, a window longer than the chain is made up at the wrong end
  (`ForkSwitch.RestartThenBlock`).
* Nothing checks that the height of a block is one above that of its parent. The index of a head of
  another height is not its ancestry (`ForkSwitch.IndexNeedsHeights`, `ForkRuns.HeightExample`).
* A value inserted compressed is read as it was given until it is flushed, and compressed afterwards
  (`KvDb.FlushChangesReads`).
* A flush that fails leaves its changes in the second buffer, and the next flush swaps them over newer
  ones (`KvDb.SwapKeepsView` says exactly when this shows, `KvDb.FailedFlushExample` gives a run).

## Model

| member | source | states |
|---|---|---|
| `AvlTree.RebalanceIsSound` | util/src/avl/avldbmut.rs:423-442 | a node one of whose children has grown by a level is rebalanced without reaching an `unreachable!` arm or a height below zero; the result has every stored height above those of its children and never exceeds max(own, 1 + taller child) |
| `AvlTree.LeftRotationIsSound` | util/src/avl/avldbmut.rs:369-405 | the left rotations apply exactly where they are called, keep the stale height as the new root height, and leave every stored height above those of the children |
| `AvlTree.RightRotationIsSound` | util/src/avl/avldbmut.rs:380-421 | the same for the right rotations |
| `AvlTree.Insert` | util/src/avl/avldbmut.rs:523-612 | insertion keeps the domination of stored heights, raises the root by at most one level, and an unchanged flag means an unchanged tree |
| `AvlTree.Remove` | util/src/avl/avldbmut.rs:615-682 | removal keeps the domination of stored heights and never raises the root |
| `AvlTheorems.LeftRotateKeepsAnswers` | util/src/avl/avldbmut.rs:391-405 | a left rotation with its routing keys changes no lookup, no order and not the sequence of leaves |
| `AvlTheorems.RightRotateKeepsAnswers` | util/src/avl/avldbmut.rs:407-421 | the same for the right rotation |
| `AvlTheorems.RebalanceKeepsAnswers` | util/src/avl/avldbmut.rs:423-442 | rebalancing, single or double, keeps the search order, every lookup and the sequence of leaves |
| `AvlTheorems.SplitMeetsMap` | util/src/avl/avldbmut.rs:585-609 | splitting a leaf routes both keys correctly |
| `AvlTheorems.InsertMeetsMap` | util/src/avl/avldbmut.rs:545-612 | after an insertion every key looks up as in the updated map, the order holds, and the former value is reported |
| `AvlTheorems.RemoveMeetsMap` | util/src/avl/avldbmut.rs:639-682 | after a removal the key is gone, every other key looks up as before, and the order holds |
| `AvlTheorems.RunRefinesMap` | util/src/avl/avldbmut.rs:773-811 | every run of insertions and removals (an empty value removes) refines a finite map, with left keys < branch key <= right keys throughout |
| `AvlTheorems.InsertReportsPrevious` | util/src/avl/avldbmut.rs:773-789 | after any run, insertion reports the value the map held |
| `AvlTheorems.InsertKeepsBalance` | util/src/avl/avldbmut.rs:369-442 | one insertion into a tree with exact heights and sibling difference at most 1 gives such a tree again, although rotations assign heights from before the insertion |
| `AvlTheorems.InsertOnlyRunIsBalanced` | util/src/avl/avldbmut.rs:523-612 | in every insert-only run all stored heights are exact and siblings differ by at most 1 |
| `AvlTheorems.BalancedHasManyLeaves` | util/src/avl/avldbmut.rs:369-442 | such a tree of height h has at least Fib(h + 1) leaves |
| `AvlTheorems.InsertOnlyRunIsShallow` | util/src/avl/avldbmut.rs:523-612 | so after every insert-only run the map has at least Fib(height + 1) keys |
| `AvlTheorems.RunHasLeafPerKey` | util/src/avl/avldbmut.rs:773-811 | after any run the tree has one leaf for each key of the map |
| `AvlRemoval.RemoveKeepsClose` | util/src/avl/avldbmut.rs:423-442 | one removal from a tree with exact heights and sibling difference at most 1 rebalances it: stored heights of siblings still differ by at most 1, and the root is lowered by at most one level |
| `AvlRemoval.SecondRemovalTips` | util/src/avl/avldbmut.rs:391-442 | a concrete run of five insertions and two removals after which a leaf stands beside a node of stored height 3, since rotations store heights from before |
| `AvlRemoval.InsertChangesIff` | util/src/avl/avldbmut.rs:523-541 | insertion reports a change exactly when the key had another value or none |
| `AvlRemoval.RemoveChangesIff` | util/src/avl/avldbmut.rs:615-636 | removal reports a change exactly when the key was there |
| `AvlRemoval.InsertRoutesByKeys` | util/src/avl/avldbmut.rs:585-609 | insertion makes no routing key but an old one or a key of the map |
| `AvlRemoval.RemoveRoutesByKeys` | util/src/avl/avldbmut.rs:639-682 | removal makes no new routing key |
| `HashDb.InsertHolds` | util/hashdb/src/lib.rs:40-43 | inserting a string makes it readable under its hash and hides nothing that was readable |
| `HashDb.RemoveAll` | util/src/avl/avldbmut.rs:692-694 | draining the death row takes one reference from each named entry and touches no other |
| `HashDb.RemovalSpares` | util/hashdb/src/lib.rs:48-50 | removing other hashes leaves a string readable |
| `AvlAccounts.InsertCounts` | util/hashdb/src/lib.rs:40-43 | an insertion adds exactly one reference, to the hash of what is inserted |
| `AvlAccounts.RemoveCounts` | util/hashdb/src/lib.rs:48-50 | a removal takes exactly one away, and the last one makes the string unreadable |
| `AvlNode.DecodedAs` | util/src/avl/node.rs:22-47 | what any node below 2^32 bytes, children inlined or by hash, is read back as: itself, but for the height of a branch, which is decoded once more and can come out as another or as none |
| `AvlNode.DecodedNodeIff` | util/src/avl/node.rs:22-47 | so decoding undoes encoding exactly when the node is no branch or one of height 1 to 127 |
| `AvlNode.NodeLayout` | util/src/avl/node.rs:53-76 | a leaf is the list of its key and value, a branch that of its two slots, its height and its key, in that order, and the empty node is 0x80 |
| `AvlNode.SlotForm` | util/src/avl/avldbmut.rs:719-738 | a node of fewer than 32 bytes is inlined as it is, any longer one is 0xa0 and its hash |
| `AvlNode.NodeRlpInjective` | util/src/avl/node.rs:53-76 | without collisions the bytes of a node determine the whole tree below it |
| `AvlNode.SlotIsWhole` | util/src/avl/avldbmut.rs:719-738 | a child slot is one whole item of at most 33 bytes and is told apart as hash, inlined node or empty by what the readers test |
| `RlpInt.HeightDecodedTwice` | util/src/avl/node.rs:35-42 | the payload of a height survives the second decoding exactly for heights 1 to 127 |
| `AvlStorage.NodeStorage.Alloc` | util/src/avl/avldbmut.rs:187-195 | an allocated cell was not in use, and no cell in use changes |
| `AvlStorage.NodeStorage.Destroy` | util/src/avl/avldbmut.rs:198-203 | destroying a cell hands out its node, frees it, and leaves every other cell in use untouched |
| `AvlStorage.PreservedOwns` | util/src/avl/avldbmut.rs:177-204 | a subtree keeps its cells, each referred to once and none free, whatever happens elsewhere in the arena |
| `AvlStorage.NothingIsLeaked` | util/src/avl/avldbmut.rs:177-204 | when as many cells are in use as the tree counts, the cells in use are exactly the cells of the tree |
| `AvlBacking.LiveApart` | util/src/avl/avldbmut.rs:309-334 | a stored node is never a part of itself, and the two children of a node share no stored node |
| `AvlBacking.LiveIsNotBuried` | util/src/avl/avldbmut.rs:686-694 | no node the tree still needs is on death row |
| `AvlBacking.ClearedStoreBacks` | util/src/avl/avldbmut.rs:686-694 | after the death row is removed from the store everything the tree refers to by hash can still be read |
| `AvlAccounts.PathIsComplete` | util/src/avl/avldbmut.rs:309-334 | every node on the way to a key that is long enough to be stored is among the hashes given up when the key changes |
| `AvlAccounts.PathIsOnTheWay` | util/src/avl/avldbmut.rs:309-334 | and every one of those hashes is that of such a node |
| `AvlAccounts.LoadedPath` | util/src/avl/avldbmut.rs:300-305 | loading nodes changes nothing of what is on the way to a key |
| `AvlAccounts.RootAddedAreNodes` | util/src/avl/avldbmut.rs:696-738 | what a commit stores are nodes of the tree, each at most as often as it occurs there |
| `AvlMut.AVLDBMut.constructor` | util/src/avl/avldbmut.rs:258-270 | a new tree is empty |
| `AvlMut.AVLDBMut.FromExisting` | util/src/avl/avldbmut.rs:274-288 | a tree opened on a root the store holds is the tree that root names; any other root is InvalidStateRoot |
| `AvlMut.AVLDBMut.FromRlp` | util/src/avl/avldbmut.rs:76-94 | reading a node loads its inlined children into cells of their own and leaves hashed ones in the store |
| `AvlMut.AVLDBMut.InlineOrHash` | util/src/avl/avldbmut.rs:65-73 | a child slot becomes a hash handle exactly when the child is not inlined |
| `AvlMut.AVLDBMut.Cache` | util/src/avl/avldbmut.rs:300-305 | loading a node by hash gives the tree that hash names, marked as unchanged, or IncompleteDatabase and an untouched arena if the store has not got it |
| `AvlMut.AVLDBMut.ChildHeight` | util/src/avl/avldbmut.rs:484-512 | the height of a child is found, loading it if need be, without changing the tree |
| `AvlMut.AVLDBMut.LeftRotate` | util/src/avl/avldbmut.rs:391-405 | the left rotation on handles is the one on trees; every cell of the result is owned once, no cell to be kept changes, and as many are in use besides as before |
| `AvlMut.AVLDBMut.RightRotate` | util/src/avl/avldbmut.rs:407-421 | the right rotation on handles is the one on trees |
| `AvlMut.AVLDBMut.LeftRotateSuccessor` | util/src/avl/avldbmut.rs:369-378 | the single or double left rotation on handles is the one on trees |
| `AvlMut.AVLDBMut.RightRotateSuccessor` | util/src/avl/avldbmut.rs:380-389 | the single or double right rotation on handles is the one on trees |
| `AvlMut.AVLDBMut.RotateIfNecessary` | util/src/avl/avldbmut.rs:423-442 | rebalancing on handles is rebalancing on trees |
| `AvlMut.AVLDBMut.Replace` | util/src/avl/avldbmut.rs:309-334 | a changed node that was cached is put on death row, that hash and no other, and the node is stored as new |
| `AvlMut.AVLDBMut.Restore` | util/src/avl/avldbmut.rs:309-334 | an unchanged node is put back under the hash it came from |
| `AvlMut.AVLDBMut.PutBack` | util/src/avl/avldbmut.rs:309-334 | a node that was inspected is put back rebalanced and as new if it was changed, what the store had being given up, and as it was otherwise |
| `AvlMut.AVLDBMut.InsertAt` | util/src/avl/avldbmut.rs:523-541 | inserting through handles gives the tree, the flag and the former value of insertion on trees; if something changed, the death row gains exactly the hashes on the way to the key, and none of them is needed any longer |
| `AvlMut.AVLDBMut.InsertInspector` | util/src/avl/avldbmut.rs:545-612 | the same for the node in hand before it is rebalanced |
| `AvlMut.AVLDBMut.RemoveAt` | util/src/avl/avldbmut.rs:615-636 | removing through handles gives the result of removal on trees, and the death row gains exactly the hashes on the way to a key that was there |
| `AvlMut.AVLDBMut.RemoveInspector` | util/src/avl/avldbmut.rs:639-682 | the same for the node in hand before it is rebalanced |
| `AvlMut.AVLDBMut.Insert` | util/src/avl/avldbmut.rs:773-789 | the tree holds exactly the updated map and reports the former value; the store is untouched until commit, no cell is leaked, and the death row gains exactly the stored nodes on the way to the key, the old root first of all, if the value changes |
| `AvlMut.AVLDBMut.Remove` | util/src/avl/avldbmut.rs:791-811 | the tree holds the map without the key; the former value is never reported, no cell is leaked, and the death row gains exactly the stored nodes on the way to a key that was there |
| `AvlMut.AVLDBMut.Get` | util/src/avl/avldbmut.rs:767-770 | a lookup in memory and below it in the store answers as the map does |
| `AvlMut.AVLDBMut.LookupFrom` | util/src/avl/avldbmut.rs:337-366 | the walk over loaded nodes hands over to the store lookup at the first hash and finds the same answer |
| `AvlMut.AVLDBMut.IsEmpty` | util/src/avl/avldbmut.rs:755-765 | the emptiness test is right for a tree in memory and for one in the store |
| `AvlMut.AVLDBMut.IntoRlp` | util/src/avl/avldbmut.rs:97-125 | encoding a node writes the children that are too long to inline and gives the canonical bytes of the tree, whatever its heights |
| `AvlMut.AVLDBMut.CommitNode` | util/src/avl/avldbmut.rs:719-738 | a child is appended inlined below 32 bytes and by hash otherwise, and is in the store in the second case; the store gains one reference for each new node it stores and no other; its cells are freed but for those below unchanged loaded nodes |
| `AvlMut.AVLDBMut.ClearDeathRow` | util/src/avl/avldbmut.rs:686-694 | removing the given-up nodes keeps the tree readable and takes exactly one reference from each |
| `AvlMut.AVLDBMut.Commit` | util/src/avl/avldbmut.rs:686-715 | after a commit the new root names the bytes of the tree as it was, whatever its heights, and the store holds all of them; every reference count has changed by exactly the new nodes stored, less one for each hash on death row; with heights 1 to 127 the tree can be read back and edited on; the cells leaked are exactly those below unchanged loaded nodes |
| `AvlMut.InsertRefines` | util/src/avl/avldbmut.rs:773-789 | insertion meets a map that the tree refined before |
| `AvlMut.RemoveRefines` | util/src/avl/avldbmut.rs:791-811 | removal meets a map that the tree refined before |
| `AvlMut.AVLDBMut.CommitAndLookUp` | util/src/avl/avldbmut.rs:686-738 | after a commit, following the new root through the store answers every key as the map did in memory, whenever the heights on its way decode to anything at all; with heights 1 to 127 the tree can be edited on |
| `AvlLookup.LookUp` | util/src/avl/lookup.rs:21-65 | from a root hash, over an honest store, the answer is that of the tree the hash names; a missing node is reported, never mistaken, and is one on the way to the key; a store that holds the tree reports none |
| `AvlIter.IncrementAccounts` | util/src/avl/avldb.rs:165-175 | moving a crumb on yields a leaf, enters a child or leaves a node, and accounts for every leaf ahead |
| `AvlIter.AVLDBIterator.New` | util/src/avl/avldb.rs:187-195 | a new iterator will yield all leaves of the tree; a root the store has not got is InvalidStateRoot |
| `AvlIter.AVLDBIterator.GetRawOrLookup` | util/src/avl/avldb.rs:109-119 | the bytes of a child are found, inlined or by hash, or IncompleteDatabase names the hash that is missing |
| `AvlIter.AVLDBIterator.Next` | util/src/avl/avldb.rs:254-284 | the iterator yields exactly the next leaf still ahead, or nothing when none is left, and terminates; an error means a missing node and passes over exactly its leaves, and a complete store gives none |
| `AvlIter.AVLDBIterator.Collect` | util/src/avl/avldb.rs:254-284 | iterating to the end accounts for everything ahead, in order: leaves yielded, and between them, at its place, every missing subtree with the error that reports it; without errors it is all the leaves |
| `AvlIter.AVLDBIterator.Seek` | util/src/avl/avldb.rs:244-248 | after seeking, exactly the leaves with a strictly greater key are ahead, but for those below a missing node that is reported |
| `AvlIter.AVLDBIterator.SeekDescend` | util/src/avl/avldb.rs:197-230 | the descent of a seek leaves crumbs for exactly those leaves |
| `AvlIter.SeekMeaning` | util/src/avl/avldb.rs:197-230 | what a seek leaves ahead is exactly the entries of the map with strictly greater keys, ascending |
| `AvlIter.AboveSplits` | util/src/avl/avldb.rs:197-230 | at each branch one side holds all or none of what lies above the key |
| `AvlIter.InOrderAscends` | util/src/avl/avldb.rs:254-284 | leaves come in strictly ascending key order, each once |
| `AvlIter.InOrderIsMap` | util/src/avl/avldb.rs:254-284 | the leaves are exactly the entries of the map |
| `Order.LtIsRank` | util/src/avl/avldbmut.rs:545-612 | comparing keys as byte vectors is comparing numbers in [0, 1) |
| `Order.LtIsLexicographic` | util/src/avl/avldbmut.rs:545-612 | the first byte in which two keys differ decides, and a proper prefix comes first |
| `Bytes.BERoundTrip` | util/rlp/src/stream.rs:336-344 | big-endian digits stand for their number |
| `Bytes.TrimmedFixedBE` | util/rlp/src/stream.rs:336-344 | dropping leading zero bytes of the fixed-width form gives the minimal digits |
| `RlpStream.StreamHeaderIsCanonical` | util/rlp/src/stream.rs:336-344 | the 32-bit cast gives the header of Appendix B of the Yellow Paper exactly below 2^32 |
| `RlpStream.StreamEncodeIsCanonical` | util/rlp/src/stream.rs:347-381 | the encoder writes the canonical encoding of every nested tree below 2^32 bytes |
| `RlpStream.RlpStream.InsertSize` | util/rlp/src/stream.rs:336-344 | length bytes are inserted mid-buffer, everything after them moving up |
| `RlpStream.RlpStream.InsertListPayload` | util/rlp/src/stream.rs:347-358 | the reserved byte becomes the header of the payload behind it |
| `RlpStream.RlpStream.EncodeValue` | util/rlp/src/stream.rs:361-381 | a string is appended in its encoding |
| `RlpStream.RlpStream.NoteAppended` | util/rlp/src/stream.rs:274-299 | counting items closes every list they complete, outer ones included |
| `RlpStream.RlpStream.BeginList` | util/rlp/src/stream.rs:113-134 | beginning a list opens a frame, or appends an empty list at once |
| `RlpStream.RlpStream.BeginUnboundedList` | util/rlp/src/stream.rs:138-147 | an unbounded list opens a frame without a count |
| `RlpStream.RlpStream.CompleteUnboundedList` | util/rlp/src/stream.rs:314-322 | closing it patches its header and counts it in the list around it |
| `RlpStream.RlpStream.AppendEmptyData` | util/rlp/src/stream.rs:162-171 | an empty string is appended and counted |
| `RlpStream.RlpStream.AppendRaw` | util/rlp/src/stream.rs:174-183 | ready items are appended and counted |
| `RlpStream.RlpStream.Append` | util/rlp/src/stream.rs:74-81 | any encodable tree is appended and counted once, although a list counts itself |
| `RlpStream.RlpStream.Out` | util/rlp/src/stream.rs:265-271 | a finished stream gives out its encoding |
| `RlpStream.RlpStream.IsFinished` | util/rlp/src/stream.rs:252-254 | a stream is finished exactly when no list is open |
| `RlpStream.ScriptIsNote` | util/rlp/src/stream.rs:74-183 | any nested use of the stream leaves it as if its items had been appended ready-made |
| `RlpStream.AnyCallsAreCanonical` | util/rlp/src/stream.rs:74-183 | any sequence of calls at all: the stream ends finished exactly when the items given are in no open list, and then holds their canonical encoding |
| `RlpStream.FinishedStreamIsCanonical` | util/rlp/src/stream.rs:113-134 | any nesting of lists, strings and raw items given to a fresh stream ends finished with the canonical encoding of what it describes |
| `Rlp.ItemInfo` | util/rlp/src/untrusted_rlp.rs:335-341 | an accepted extent is positive and within the bytes |
| `Rlp.ListReadsBack` | util/rlp/src/untrusted_rlp.rs:168-212 | a list of whole items reads back item by item, with the right count |
| `Rlp.DecodingUndoesEncoding` | util/rlp/src/untrusted_rlp.rs:343-384 | is_data, decode_value, item_count and at recover every nested tree from its canonical bytes |
| `Rlp.ReadsIsFunctional` | util/rlp/src/untrusted_rlp.rs:168-212 | a reader cannot see two different trees in the same bytes |
| `Rlp.EncodeInjective` | util/rlp/src/untrusted_rlp.rs:343-384 | different trees have different encodings |
| `RlpRefusal.AcceptsExactly` | util/rlp/src/untrusted_rlp.rs:343-384 | a value is read from exactly its canonical encoding, whatever follows, and from one other form: one to 55 bytes behind a needless length field |
| `RlpRefusal.ExtentExactly` | util/rlp/src/untrusted_rlp.rs:335-341 | the extent of a string or list is accepted exactly for canonical headers and for that needless length field, and only if all of it is there |
| `RlpRefusal.TrailingItems` | util/rlp/src/untrusted_rlp.rs:266-282 | whatever bytes follow a list are counted and indexed as further items, as far as they are readable |
| `RlpRefusal.KnownLists` | util/rlp/tests/tests.rs:18-33 | the bytes of a list of two strings, as the repository has them |
| `RlpView.ReadUsize` | util/rlp/src/impls.rs:16-31 | accumulating length bytes gives their number or the error |
| `RlpView.SkipItems` | util/rlp/src/untrusted_rlp.rs:275-282 | the loop over items is the walk item by item |
| `RlpView.ConsumeItemsShrinks` | util/rlp/src/untrusted_rlp.rs:275-282 | each item uses up at least one byte |
| `RlpView.UntrustedRlp.ItemAt` | util/rlp/src/untrusted_rlp.rs:190-212 | with the offset cache, after any history, the item or error is that of a walk from the start, for every index below usize::MAX |
| `RlpView.UntrustedRlp.CountCached` | util/rlp/src/untrusted_rlp.rs:168-180 | the cached count is the number of readable items |
| `RlpView.UntrustedRlpIterator.Next` | util/rlp/src/untrusted_rlp.rs:315-320 | the iterator yields the items in order, as many as counted |
| `RlpView.AtBelowCount` | util/rlp/src/untrusted_rlp.rs:168-212 | an index is readable exactly below the count |
| `RlpView.UnusedMarkIsWrong` | util/rlp/src/untrusted_rlp.rs:190-212 | index usize::MAX on a fresh cache is answered as by the walk exactly when the bytes are not a readable list |
| `RlpView.UnusedMarkExample` | util/rlp/src/untrusted_rlp.rs:190-212 | a concrete list for which that answer is wrong |
| `RlpInt.DecodesMinimalDigits` | util/rlp/src/impls.rs:139-157 | an integer decoder accepts n exactly from its minimal digits, and only if they fit |
| `RlpInt.UintRoundTrip` | util/rlp/src/impls.rs:226-261 | u8 to u64 and the wide integers survive the trimmed big-endian round trip |
| `Compression.New` | util/rlp/src/compression.rs:22-36 | the loop over both lists builds the two maps, later pairs replacing earlier ones |
| `Compression.TableIsSound` | util/rlp/src/common.rs:13-42 | for every table of at most 126 strings of two bytes or more, what a string is swapped for is swapped back to it |
| `Compression.ItemsByIndex` | util/rlp/src/untrusted_rlp.rs:300-321 | iterating yields at(0), at(1), ... until the first error, as many as counted |
| `Compression.StreamOfParts` | util/rlp/src/compression.rs:61-77 | a list of as many items as counted, given to a stream one by one, is appended as the list of those items |
| `Compression.MapList` | util/rlp/src/compression.rs:61-77 | mapping over a list of whole items gives the list of their images, or nothing if none has one |
| `Compression.CanonicalIsValid` | util/rlp/src/common.rs:42 | no canonical encoding is one of the invalid replacements or the marker |
| `Compression.TreeRestored` | util/rlp/src/compression.rs:80-112 | simple and deep decompression both restore every canonical tree from its compressed form; the deep one gives nothing exactly if nothing was swapped |
| `Compression.RoundTrip` | util/rlp/src/compression.rs:116-130 | decompress(compress(r)) == r for every canonical tree below 2^32 bytes, in both modes, and the compressed form is no longer |
| `CompressionReach.CompressedInPlace` | util/rlp/src/compression.rs:61-86 | at every place of a canonical tree, however deep, stands after compression what the swapper has for the data there, or that data itself; lists stay lists of as many items |
| `CompressionReach.NoTableStringLeft` | util/rlp/src/compression.rs:116-130 | no string of the table for the mode is left at any place of a compressed tree |
| `CompressionReach.SwappedForIndex` | util/rlp/src/compression.rs:22-36 | the string of index j in the table becomes 0x81 and j |
| `CompressionReach.OneStringSwapped` | util/rlp/src/compression.rs:80-86 | a list of one such string becomes three bytes |
| `Compression.RawComesBack` | util/rlp/src/compression.rs:80-112 | decompression leaves canonical data that was never compressed as it is, so a reader may decompress in any case |
| `Compression.MarkedDataRestored` | util/rlp/src/compression.rs:99-112 | compressed data behind the marker comes back as the data exactly if the compression changed anything |
| `BigWords.MulU32` | util/bigint/src/uint.rs:466-476 | a word times a 32-bit number plus carry, exactly, in two words |
| `BigWords.Split` | util/bigint/src/uint.rs:478-481 | the halves of a word |
| `BigWords.OverflowingAdd` | util/bigint/src/uint.rs:721-723 | the sum, or the sum less 2^(64n) with the flag set |
| `BigWords.OverflowingSub` | util/bigint/src/uint.rs:735-737 | the difference, with the flag exactly when it is negative |
| `BigWords.OverflowingMulU32` | util/bigint/src/uint.rs:788-801 | the product modulo 2^(64n), with the flag exactly when it does not fit |
| `BigWords.Cmp` | util/bigint/src/uint.rs:1049-1061 | comparing from the top word is comparing the values |
| `BigWords.IsZero` | util/bigint/src/uint.rs:558-562 | all words zero means zero |
| `BigMul.MulCell` | util/bigint/src/uint.rs:1266-1306 | one cell of the product table is exact and at most one carry leaves it |
| `BigMul.NoCarryLost` | util/bigint/src/uint.rs:1266-1306 | no carry is left at the end of a row |
| `BigMul.FullMul` | util/bigint/src/uint.rs:1266-1306 | the double-width product is exact for every word count |
| `BigMul.OverflowingMul` | util/bigint/src/uint.rs:389-440 | the product modulo 2^(64n), with the flag exactly when it is at least 2^(64n) |
| `BigShift.Shl` | util/bigint/src/uint.rs:1004-1021 | multiplication by a power of two modulo 2^(64n), for every shift |
| `BigShift.Shr` | util/bigint/src/uint.rs:1027-1046 | division by a power of two, for every shift |
| `BigShift.Bits` | util/bigint/src/uint.rs:566-572 | the least number of bits that holds the value |
| `BigDiv.SetBitInWords` | util/bigint/src/uint.rs:919-922 | setting a clear bit in its word adds that power of two to the value |
| `BigDiv.InitialShift` | util/bigint/src/uint.rs:916-918 | the first shift of the divisor loses no bits, and one more bit would exceed the dividend |
| `BigDiv.Div` | util/bigint/src/uint.rs:900-930 | bitwise long division gives the quotient, for every word count |
| `BigDiv.Rem` | util/bigint/src/uint.rs:936-939 | the remainder; neither the product nor the difference overflows |
| `BigPow.OverflowingPow` | util/bigint/src/uint.rs:694-717 | base^e modulo 2^(64n), with the flag exactly when base^e is at least 2^(64n) |
| `BigPow.StepTooBig` | util/bigint/src/uint.rs:694-717 | a product that overflows on the way divides a power that does not fit |
| `BigDec.FromDecStr` | util/bigint/src/uint.rs:492-510 | a digit string gives its value, InvalidLength exactly from 2^(64n) on, and any other string InvalidCharacter |
| `BigDec.Display` | util/bigint/src/uint.rs:1075-1092 | printing gives the decimal numeral |
| `BigDec.NumeralValue` | util/bigint/src/uint.rs:1075-1092 | the numeral of a number reads as that number |
| `BigDec.ValueNumeral` | util/bigint/src/uint.rs:492-510 | a digit string without superfluous zeros is the numeral of its value |
| `BigDec.PrintAndRead` | util/bigint/src/uint.rs:492-510 | from_dec_str(to_string(x)) == x |
| `Merkle.LowestChildrenLen` | util/src/merklehash.rs:38-48 | twice the number of leaves above the largest power of two |
| `Merkle.FoldLowest` | util/src/merklehash.rs:57-68 | the lowest pairs are merged and the other leaves follow |
| `Merkle.CompleteIsFolded` | util/src/merklehash.rs:50-69 | a complete tree is a perfect tree over its leaves with the lowest pairs merged |
| `Merkle.PassStep` | util/src/merklehash.rs:72-79 | merging two neighbours in place finishes their block and disturbs no other |
| `Merkle.FoldLevel` | util/src/merklehash.rs:72-79 | one pass in place stays in range and turns roots of blocks into roots of double blocks |
| `Merkle.FoldInPlace` | util/src/merklehash.rs:70-81 | the passes leave the root of the perfect tree in the first node |
| `Merkle.GenMerkleRoot` | util/src/merklehash.rs:50-83 | the root of the complete tree over the input, or the null hash for none |
| `Merkle.SmallRoots` | util/src/merklehash.rs:50-90 | the roots of no, one, two, three and four hashes, written out in the hash |
| `Merkle.CompleteMerkleRoot` | util/src/merklehash.rs:25-32 | the same over the hashes of values |
| `Merkle.RootCommits` | util/src/merklehash.rs:85-90 | for any merge function, two inputs of one length with one root are equal unless two merged pairs collide |
| `Merkle.RootCommitsToInput` | util/src/merklehash.rs:50-90 | two inputs of one length with one root are equal, unless the hash collides on two of the 64-byte strings hashed for them |
| `KvDb.BufferedIsApplied` | util/kvdb/src/lib.rs:611-630 | buffering a transaction changes what is seen as the transaction says, column by column |
| `KvDb.SwapKeepsView` | util/kvdb/src/lib.rs:633-677 | the swap of a flush, also of one after a failed flush, changes nothing seen exactly when no key waits for different changes in the two buffers |
| `KvDb.StepRefines` | util/kvdb/src/lib.rs:611-677 | every micro-step of writers, readers and the flush, failing ones included, keeps the invariant and answers right under its locks, and acts as on plain maps exactly when it is no such swap |
| `KvDb.RunRefines` | util/kvdb/src/lib.rs:611-692 | an interleaving refines the plain maps at every point exactly when none of its swaps brings older changes up |
| `KvDb.NoFailureIsHarmless` | util/kvdb/src/lib.rs:680-692 | without a failed write none does |
| `KvDb.FailedFlushExample` | util/kvdb/src/lib.rs:633-677 | a key written, a failed flush, the key written again, and a flush: the first value is read for good |
| `KvDb.ReadsSeeEveryWrite` | util/kvdb/src/lib.rs:721-744 | in every such interleaving, and so in every one without a failed write, a read of a key in a column answers what the last write to just that key of just that column left, or its compressed form for a compressed insert outside the default column |
| `KvDb.WriteIsSeen` | util/kvdb/src/lib.rs:611-630 | a transaction changes what is seen of exactly the keys it names, in exactly the columns it names |
| `KvDb.ReadCompletes` | util/kvdb/src/lib.rs:721-744 | a read can go on to its answer from every state |
| `KvDb.FlushChangesReads` | util/kvdb/src/lib.rs:633-677 | a flush changes what is read for a key exactly when it was a compressed insert outside the default column that compression changes |
| `KvDb.ReadsUnpack` | util/kvdb/src/lib.rs:721-744 | decompressing whichever form is read gives the value back, for all canonical data |
| `KvDb.NothingChangesWhileReading` | util/kvdb/src/lib.rs:721-744 | between the first and the last step of a read nothing it can see changes |
| `KvDb.BuildBatch` | util/kvdb/src/lib.rs:636-668 | the batch, built in any key order and with compressed inserts compressed outside the default column, leaves the store with exactly the flushing buffer laid over what it had |
| `KvDb.Database.WriteTransaction` | util/kvdb/src/lib.rs:611-630 | a transaction is one step of the machine, and for every column and key what is seen afterwards is what its last operation on just that pair left |
| `KvDb.Database.WriteFlushingWithLock` | util/kvdb/src/lib.rs:633-677 | a flush is swap, write and clear, or swap alone if the store refuses the batch; the store then has the overlay written over what it had, and a closed database does nothing |
| `KvDb.Database.Flush` | util/kvdb/src/lib.rs:680-692 | a flush after one left unfinished is refused, any other runs those steps and lowers the flag again |
| `KvDb.Database.Read` | util/kvdb/src/lib.rs:721-744 | a read through overlay, flushing buffer and store, at any stage of a flush: the value as given while it is buffered, as stored afterwards |
| `ForkWalk.WalksNeedNumbers` | chain/src/chain.rs:520-555 | the walk with its shortcut gives the plain ancestor for every number and block exactly when the numbers, read through the window first, are each other's ancestors |
| `ForkWalk.BranchMeaning` | chain/src/chain.rs:410-446 | the blocks off the numbered chain are the ancestors one by one, none of them read under its height, down to one that is, or to height zero |
| `ForkSwitch.IndexIsAncestor` | chain/src/chain.rs:764-770 | along an index whose neighbours are parent and child, going back is counting down |
| `ForkSwitch.NewIndex` | chain/src/chain.rs:764-770 | entering the branch of a block, newest first and the block last, makes the index that block's ancestry |
| `ForkSwitch.IndexFollowsHead` | chain/src/chain.rs:805-822 | moving the head to a linked block, whichever branch it is on, leaves the stored index exactly its ancestry |
| `ForkSwitch.TrackingWalks` | chain/src/chain.rs:520-555 | while the index is the ancestry of the head and the window is in step with it, every walk from every block is right |
| `ForkSwitch.AlignedAfterMove` | chain/src/chain.rs:825-835 | a move of the head keeps the window in step exactly when the parent of the new head is on the index already |
| `ForkSwitch.InsertionTracksIff` | chain/src/chain.rs:286-319 | an insertion leaves index and window in step with the head exactly when the block does not become the head or its parent is on the index; nothing is asked of the other headers |
| `ForkRuns.RunTracksIff` | chain/src/chain.rs:286-319 | they stay in step through a whole run of insertions exactly when every block that becomes the head has its parent on the index |
| `ForkSwitch.ReadsAfterMove` | chain/src/chain.rs:547-555 | after a move of the head numbers are read as the index has them exactly when the parent was on the index, or the branch is at least as long as the window |
| `ForkSwitch.SwitchMisleadsWalk` | chain/src/chain.rs:520-541 | after a switch to a branch shorter than the window the walk from the new head to the fork comes back with the new head itself |
| `ForkSwitch.MoveCarries` | chain/src/chain.rs:825-835 | however the head moves, every entry of the window carries the transactions of its own block |
| `ForkSwitch.VerifiedInsertionAgreesIff` | chain/src/chain.rs:410-446 | a branch that passes transactions_diff is shorter than the window, so for such blocks the parent on the index is the whole condition |
| `ForkRuns.AncestorCheckIff` | chain/src/chain.rs:335-347 | the ancestor check before an insertion passes exactly when the height claimed is not further above the parent than the ancestor looked for is above the first block, so always for a block one above its parent (where no stored block is the parent of the first one) |
| `ForkRuns.SwitchExample` | chain/src/chain.rs:286-319 | a concrete run of four insertions, each of which the checks pass as verified, after which the walk from the head to height 0 comes back with the head |
| `ForkSwitch.IndexNeedsHeights` | chain/src/chain.rs:286-319 | heights are not checked: a new head's index is its ancestry exactly when the head stands one above its parent (where no stored block is the parent of the first one) |
| `ForkRuns.HeightExample` | chain/src/chain.rs:286-319 | on every chain of at least two epochs and fewer blocks than buffer_size, a block two above its parent that the checks pass as verified, after which a walk gives a block of the other branch |
| `ForkSwitch.RestartIsSoundIff` | chain/src/chain.rs:207-236 | opening the chain again puts the window in step, whatever it was before, exactly when the chain fills the window or has only its first block |
| `ForkSwitch.RestartReads` | chain/src/chain.rs:207-236 | right after a restart all numbers are read as the index has them |
| `ForkSwitch.RestartThenBlock` | chain/src/chain.rs:825-835 | with the next block on the head they stay so exactly under that condition |
| `ForkSwitch.Chain.constructor` | chain/src/chain.rs:238-248 | a new chain is its first block, numbered 0, with a window full of it; window and index are in step |
| `ForkSwitch.Chain.Reopen` | chain/src/chain.rs:207-236 | a stored chain comes back with a window of the newest ancestors of its head, made up at the back where there are not enough |
| `ForkSwitch.Chain.BlockHashByNumberFork` | chain/src/chain.rs:520-541 | the loop is the walk with its shortcut, for every number, height and hash and every state of window and index |
| `ForkSwitch.Chain.TransactionsDiff` | chain/src/chain.rs:410-446 | exactly the transactions of the blocks off the numbered chain and the height below them, if they are fewer than buffer_size, not too far back and all verified, and LongFork otherwise |
| `ForkSwitch.Chain.GetForkChain` | chain/src/chain.rs:611-626 | those blocks newest first, each with its own height and its own transactions |
| `ForkSwitch.Chain.UpdateBlockNumber` | chain/src/chain.rs:764-770 | the blocks are entered under their heights |
| `ForkSwitch.Chain.Replace` | chain/src/chain.rs:128-144 | pushing a block and swapping it in puts it at its place in the window and changes no other |
| `ForkSwitch.Chain.UpdateTxsCache` | chain/src/chain.rs:628-637 | the window is refilled from the back, as far as it reaches |
| `ForkSwitch.Chain.AdjustBlockHashes` | chain/src/chain.rs:805-837 | index and window after the branch of the new head is entered in both |
| `ForkSwitch.Chain.InsertAt` | chain/src/chain.rs:286-319 | the whole state after a verified block: stored, and the head with index and window moved if it is high enough |

## Left out

- AvlTheorems.RunRefinesMap: over whole runs with removals only the domination of stored heights is stated (`AvlTree.Remove`); exact heights and balance are not kept by the code (`AvlRemoval.SecondRemovalTips`).
- AvlMut.AVLDBMut.Insert: the store is assumed to hold every node the tree refers to, so the error of `AvlMut.AVLDBMut.Cache` does not reach the operations of the mutable tree; lookups and the iterator are proved for stores that miss nodes.
- AvlMut.AVLDBMut.FromExisting: a store that holds the root holds everything below it.
- AvlMut.AVLDBMut.Cache: a store that holds the node holds everything below it.
- AvlMut.AVLDBMut.Commit: requires node sizes below 2^32, the range of the stream encoder; with heights above 127 it promises the bytes in the store and lookups as far as heights decode, and not that the tree can be edited on.
- AvlMut.AVLDBMut.InsertAt: which nodes stay unloaded is not stated.
- AvlMut.AVLDBMut.FromRlp: branches read from the store have two children, as every tree the program commits does; the arms for a missing child are not modelled.
- AvlNode.DecodedNodeIff: says nothing of invalid nodes, on which the program panics.
- RlpStream.RlpStream.Append: values are seen as the trees their rlp_append describes; the encoders of hashes, vectors, options and derived types are not modelled one by one.
- BigPow.OverflowingPow: `pow`, which clears the wrong bit of exponents from 2^(64n-1) on, is not modelled, nor are the saturating operations, `exp10`, `overflowing_neg`, byte and hex conversions and the inline-assembly variants.
- BigDiv.Div: the panic on a zero divisor is a precondition.
- The direct `write` of the key-value database, its prefix reads, iteration and the management of columns.
- KvDb.Database.Flush: a flushing thread that dies leaves the flag raised; how it came to die is not modelled.
- ForkSwitch.Chain.InsertAt: only verified blocks; `switch_long_fork`, the transaction hashes and timestamps kept beside the window and the transaction addresses are not modelled, and checks of signatures, proofs and times are taken as done.
- ForkSwitch.Chain.Reopen: a header or body missing within the window, on which the program panics, is excluded.
- ForkSwitch.Chain.TransactionsDiff: a header or body missing on the way, on which the program panics, is excluded.
- Merkle.LowestChildrenLen: lengths from 2^63 on, for which the loop would not end, are excluded; no vector is that long.
- Heights are unbounded numbers where the program has 32 bits; a tree that high does not fit any memory.
- Loops over the two children, and the pairs of helpers for left and right that differ in the side only, are written once with the side as a parameter.
- The stream size estimate, the checked raw append, display and debug formats, the trait wrappers of the trees (secure, fat), the recorder and the standard maps.
- The transaction pool, the cache manager, the network, cryptography, configuration, time and randomness.
