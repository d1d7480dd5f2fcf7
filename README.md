# Indexes and query evaluator of dbms-a3, in Dafny

This project models the in-memory indexing core of the dbms-a3 database
engine and proves properties of it:

- **B+ tree index** (`BPlusTree`, with the proof modules `BPlusTreeShape`,
  `BPlusTreeChain`, `BPlusTreeEntries`, `BPlusTreeParent`,
  `BPlusTreeLeafSteps`, `BPlusTreeLeafInsert`, `BPlusTreeInternalSteps`,
  `BPlusTreeQueries`, `BPlusTreeInsert`). Nodes live in an arena
  (`nodes: seq<Node>`), because the code shares nodes between the tree and
  the leaf `next` chain and finds parents by reference. Every distinct key
  of a leaf owns a bucket node listing the row ids inserted with it. A ghost
  `Shape` records each tree node's level, key interval `(lo, hi]` and
  parent, and lists the leaves in `next` order. `Valid()` is the tree
  invariant between operations. `Contents()` is the sequence of (key, row
  id) entries read along the leaf chain.
- **Extendible hash index** (`Hashing`). A directory of `2^globalDepth`
  slots points at buckets of `bucketSize` entries with overflow chains. A
  ghost log of every inserted pair ties the chains to what was inserted.
- **Bitmap index** (`Bitmap`). Each key maps to `(maxRowId + 31) / 32`
  words of type `bv32`. Row id `r` is bit `r % 32` of word `r / 32`.
- **Query evaluator** (`Evaluator`). It evaluates a predicate tree: AND
  keeps the left rows that occur on the right, OR is a duplicate-free
  union, and NOT is the complement in `0..maxRowId`.
- `Common` holds the shared `Option`, `Result`, `Error` and `Operator`
  types.

The B+ tree is modelled with its descent quirk as written. `findPosition`
returns the first separator that is not below the key, so a key equal to
a separator descends to the left child. A leaf split puts that separator
as the first key of the right leaf. Point search is therefore exact only
for keys that are not the lower end of a leaf's interval (`LowerEnd`).
Range queries scan forward along the chain and are exact for every range.
Re-inserting a separator key gives the left leaf a second copy of it.
So `getAllKeys` is proved non-decreasing, not strictly ascending.

## Model

| member | source | states |
|---|---|---|
| BPlusTree.FindPosition | src/main/java/in/ac/iitd/db362/index/bplustree/BPlusTreeIndex.java:374-387 | the result `i` lies between 0 and the number of keys, every key before `i` is below `key`, and `keys[i] >= key` unless `i` is past the last key |
| BPlusTreeQueries.PositionFinds | src/main/java/in/ac/iitd/db362/index/bplustree/BPlusTreeIndex.java:132-137 | in a strictly ascending leaf, the key is present iff the key at `findPosition` equals it |
| BPlusTree.BPlusTreeIndex.constructor | src/main/java/in/ac/iitd/db362/index/bplustree/BPlusTreeIndex.java:36-42 | a new tree (order at least 2) is valid, holds no entries and has height 0 |
| BPlusTree.BPlusTreeIndex.FindLeafNode | src/main/java/in/ac/iitd/db362/index/bplustree/BPlusTreeIndex.java:192-201 | the descent ends at a leaf of the `next` chain whose interval `(lo, hi]` contains the key |
| BPlusTree.BPlusTreeIndex.Insert | src/main/java/in/ac/iitd/db362/index/bplustree/BPlusTreeIndex.java:119-169 | the tree stays valid, so no node holds `order` keys; its entries grow by exactly `(key, rowId)`; a key already in the reached leaf gets `rowId` at the end of the bucket of its chain slot, and every tree node is unchanged; a new key gets a fresh bucket `[rowId]` read by the chain; the height grows by at most one |
| BPlusTreeInsert.AppendRowDone | src/main/java/in/ac/iitd/db362/index/bplustree/BPlusTreeIndex.java:137-148 | appending `rowId` to an existing key's bucket keeps the invariant, adds exactly that entry and changes no tree node |
| BPlusTreeInsert.InsertNewDone | src/main/java/in/ac/iitd/db362/index/bplustree/BPlusTreeIndex.java:152-168 | a new key enters the leaf in order with a new bucket `[rowId]`; it adds exactly that entry; the leaf must be split exactly when it reaches `order` keys |
| BPlusTreeLeafInsert.InsertNewLeafOk | src/main/java/in/ac/iitd/db362/index/bplustree/BPlusTreeIndex.java:152-161 | after a new key enters the leaf, its keys stay strictly ascending and its keys, values and children stay the same length |
| BPlusTree.BPlusTreeIndex.SplitLeaf | src/main/java/in/ac/iitd/db362/index/bplustree/BPlusTreeIndex.java:311-354 | splitting a full leaf and promoting its separator ends in a valid tree with the same entries, every old bucket kept, and the height up by at most one |
| BPlusTreeLeafSteps.SplitLeafHalves | src/main/java/in/ac/iitd/db362/index/bplustree/BPlusTreeIndex.java:321-331 | the old leaf's `keys[..mid]` followed by the new leaf's `keys[mid..]`, with their buckets, read as the leaf before the split |
| BPlusTreeLeafSteps.SplitChainSlots | src/main/java/in/ac/iitd/db362/index/bplustree/BPlusTreeIndex.java:333-338 | with the new leaf spliced into the chain right after the old one, the chain reads the same keys and buckets |
| BPlusTreeLeafSteps.SplitLeafStep | src/main/java/in/ac/iitd/db362/index/bplustree/BPlusTreeIndex.java:311-340 | a leaf split keeps the chain's slots and leaves the tree waiting only for the new leaf's first key in the parent |
| BPlusTreeInsert.SplitLeafDone | src/main/java/in/ac/iitd/db362/index/bplustree/BPlusTreeIndex.java:311-340 | the leaf split keeps the entries and every old tree node's level, and promotes the right leaf's first key |
| BPlusTree.BPlusTreeIndex.NewRoot | src/main/java/in/ac/iitd/db362/index/bplustree/BPlusTreeIndex.java:341-349 | splitting the root makes a new root with the one key `sep` and the children `[old root, right]`; the height grows by exactly one and the tree is valid with the same entries |
| BPlusTreeInsert.NewRootDone | src/main/java/in/ac/iitd/db362/index/bplustree/BPlusTreeIndex.java:410-418 | the new root sits one level above the old one, holds `[sep]` and `[old root, right]`, and keeps the entries |
| BPlusTree.BPlusTreeIndex.InsertIntoParent | src/main/java/in/ac/iitd/db362/index/bplustree/BPlusTreeIndex.java:357-371 | the separator and the new sibling enter the parent found by `findParent`; the tree is valid again with the same entries (splitting the parent when it fills) |
| BPlusTreeInsert.ParentOfLeft | src/main/java/in/ac/iitd/db362/index/bplustree/BPlusTreeIndex.java:357-365 | `findParent` from the root finds the split node's parent, one level up, and any `findPosition` of the separator in it is a valid insertion point |
| BPlusTreeInsert.IntoParentDone | src/main/java/in/ac/iitd/db362/index/bplustree/BPlusTreeIndex.java:364-369 | the parent gains the separator at `i` and the new child at `i + 1`, keeps the entries, and is full exactly at `order` keys |
| BPlusTreeInternalSteps.ParentPosition | src/main/java/in/ac/iitd/db362/index/bplustree/BPlusTreeIndex.java:364 | the separator belongs right after the split child's position in the parent's keys |
| BPlusTree.BPlusTreeIndex.SplitInternal | src/main/java/in/ac/iitd/db362/index/bplustree/BPlusTreeIndex.java:390-423 | splitting a full internal node and lifting `keys[mid]` ends in a valid tree with the same entries and the height up by at most one |
| BPlusTreeInsert.SplitInternalDone | src/main/java/in/ac/iitd/db362/index/bplustree/BPlusTreeIndex.java:390-406 | the node keeps `keys[..mid]` with `children[..mid + 1]`, the new node takes `keys[mid + 1..]` with `children[mid + 1..]`, both keep one more child than keys, and `keys[mid]` waits for the parent |
| BPlusTreeParent.FindParent | src/main/java/in/ac/iitd/db362/index/bplustree/BPlusTreeIndex.java:426-440 | a parent found by the recursive search lists the child among its children |
| BPlusTreeParent.FindParentComplete | src/main/java/in/ac/iitd/db362/index/bplustree/BPlusTreeIndex.java:426-440 | along a path of internal nodes, the search finds a parent of the node at the path's end |
| BPlusTreeParent.ParentFound | src/main/java/in/ac/iitd/db362/index/bplustree/BPlusTreeIndex.java:426-440 | while a split node other than the root waits for its separator, `findParent` from the root finds its recorded parent |
| BPlusTree.BPlusTreeIndex.Search | src/main/java/in/ac/iitd/db362/index/bplustree/BPlusTreeIndex.java:178-189 | every row returned was inserted with the key; for a key that is no leaf's lower end, the result is exactly the rows of its entries, in chain order (one bucket, to whose end `insert` appends each new row) |
| BPlusTreeQueries.SearchHit | src/main/java/in/ac/iitd/db362/index/bplustree/BPlusTreeIndex.java:183-186 | a key found in the reached leaf yields its bucket, whose rows are all entries with that key |
| BPlusTreeQueries.SearchMiss | src/main/java/in/ac/iitd/db362/index/bplustree/BPlusTreeIndex.java:187-188 | a key missing from the reached leaf, and no leaf's lower end, has no entries in the tree |
| BPlusTreeQueries.WhereKeyLives | src/main/java/in/ac/iitd/db362/index/bplustree/BPlusTreeIndex.java:192-201 | a key of the chain lies in the leaf the descent reaches, or is the lower end of a later leaf |
| BPlusTree.BPlusTreeIndex.LeftmostLeaf | src/main/java/in/ac/iitd/db362/index/bplustree/BPlusTreeIndex.java:220-223 | following child 0 down from the root reaches the first leaf of the chain |
| BPlusTree.BPlusTreeIndex.CollectLeaf | src/main/java/in/ac/iitd/db362/index/bplustree/BPlusTreeIndex.java:226-234 | one leaf contributes the buckets of exactly its keys in the range, in key order |
| BPlusTree.BPlusTreeIndex.CollectFrom | src/main/java/in/ac/iitd/db362/index/bplustree/BPlusTreeIndex.java:256-267 | scanning from a leaf to the end of the chain collects the rows of exactly the entries in the range, provided the leaves before it hold none |
| BPlusTreeQueries.NothingBefore | src/main/java/in/ac/iitd/db362/index/bplustree/BPlusTreeIndex.java:239-268 | the leaves before the one the lower bound descends to hold no key in the range |
| BPlusTree.BPlusTreeIndex.RangeQuery | src/main/java/in/ac/iitd/db362/index/bplustree/BPlusTreeIndex.java:212-269 | the result is, in chain order, the rows of exactly those entries whose key meets both bounds with their inclusiveness |
| BPlusTreeQueries.RowsWhere | src/main/java/in/ac/iitd/db362/index/bplustree/BPlusTreeIndex.java:226-234 | every row selected comes from an entry whose key is in the range, and no more rows than entries |
| BPlusTreeQueries.RowsWhereComplete | src/main/java/in/ac/iitd/db362/index/bplustree/BPlusTreeIndex.java:226-234 | every entry whose key is in the range has its row selected |
| BPlusTreeQueries.RowsWhereAppend | src/main/java/in/ac/iitd/db362/index/bplustree/BPlusTreeIndex.java:226-234 | selecting from two entry runs one after the other is selecting from each in turn |
| BPlusTreeQueries.Point | src/main/java/in/ac/iitd/db362/index/bplustree/BPlusTreeIndex.java:178-189 | the point range holds exactly the search key |
| BPlusTree.BPlusTreeIndex.Evaluate | src/main/java/in/ac/iitd/db362/index/bplustree/BPlusTreeIndex.java:94-110 | EQUALS is `search`; LT, GT and RANGE are range queries with the bounds and inclusiveness the source passes; every other operator fails as unsupported |
| BPlusTree.BPlusTreeIndex.GetAllKeys | src/main/java/in/ac/iitd/db362/index/bplustree/BPlusTreeIndex.java:275-292 | the result is the keys of the leaves along the chain from the leftmost leaf, and it is non-decreasing |
| BPlusTreeChain.ChainSorted | src/main/java/in/ac/iitd/db362/index/bplustree/BPlusTreeIndex.java:275-292 | the keys read along the leaf chain are non-decreasing |
| BPlusTreeChain.LeavesDisjoint | src/main/java/in/ac/iitd/db362/index/bplustree/BPlusTreeIndex.java:275-292 | a key lies in the interval `(lo, hi]` of at most one leaf of the chain |
| BPlusTreeChain.FirstLeaf | src/main/java/in/ac/iitd/db362/index/bplustree/BPlusTreeIndex.java:220-223 | the leaf covering minus infinity is the first leaf of the chain |
| BPlusTree.BPlusTreeIndex.GetHeight | src/main/java/in/ac/iitd/db362/index/bplustree/BPlusTreeIndex.java:298-307 | the number of steps down child 0 is the root's level |
| BPlusTree.BPlusTreeIndex.Delete | src/main/java/in/ac/iitd/db362/index/bplustree/BPlusTreeIndex.java:172-175 | `delete` reports failure and changes nothing |
| BPlusTreeShape.InsertAt | src/main/java/in/ac/iitd/db362/index/bplustree/BPlusTreeIndex.java:152-158 | `list.add(i, x)`: `x` at `i`, the elements before it unmoved, the ones after it shifted by one |
| Hashing.Pow2 | src/main/java/in/ac/iitd/db362/index/hashindex/ExtendibleHashing.java:44 | `1 << depth` is at least one |
| Hashing.ExtendibleHashing.constructor | src/main/java/in/ac/iitd/db362/index/hashindex/ExtendibleHashing.java:42-51 | the directory has `2^globalDepth` slots, each pointing at its own empty bucket of local depth `globalDepth`; the index is valid and the log is empty |
| Hashing.Walk | src/main/java/in/ac/iitd/db362/index/hashindex/ExtendibleHashing.java:128-131 | the walk along an overflow chain stops at a bucket with room or at the chain's last bucket |
| Hashing.WalkEndsChain | src/main/java/in/ac/iitd/db362/index/hashindex/ExtendibleHashing.java:128-131 | in a valid chain, a walk that stops at a full bucket stops at the end of the slot's own chain |
| Hashing.ExtendibleHashing.Insert | src/main/java/in/ac/iitd/db362/index/hashindex/ExtendibleHashing.java:110-156 | the pair is written after the walk, into the stopping bucket or a new overflow bucket; the log gains exactly the pair; validity is kept; the key's slot chain gains the pair at its end and every other slot's chain is unchanged |
| Hashing.OverflowPlaced | src/main/java/in/ac/iitd/db362/index/hashindex/ExtendibleHashing.java:150-155 | linking a new overflow bucket of the same local depth and writing the pair into it is the placement of the pair after the walk |
| Hashing.PlacedKeepsChains | src/main/java/in/ac/iitd/db362/index/hashindex/ExtendibleHashing.java:134-155 | placing the pair keeps every chain valid (each bucket holds at most `bucketSize` entries and only a chain's last bucket has room), extends the key's chain by the pair and leaves every other chain alone |
| Hashing.PlacedExtendsChain | src/main/java/in/ac/iitd/db362/index/hashindex/ExtendibleHashing.java:134-155 | the chain the pair is placed in reads its old entries followed by the pair |
| Hashing.PlacedKeepsLog | src/main/java/in/ac/iitd/db362/index/hashindex/ExtendibleHashing.java:110-156 | after the placement, every slot's chain still holds exactly the logged pairs that hash to it, in insertion order |
| Hashing.ExtendibleHashing.SplitBucket | src/main/java/in/ac/iitd/db362/index/hashindex/ExtendibleHashing.java:80-107 | the old bucket's local depth goes up by one, a new empty bucket of that depth is appended, the old entries return to the old bucket in their order, and slot `bucketIndex ^ (1 << localDepth)` (inside the directory) is repointed at the new bucket, whose chain is empty |
| Hashing.FlipBitInRange | src/main/java/in/ac/iitd/db362/index/hashindex/ExtendibleHashing.java:104-106 | flipping a bit below the global depth stays inside the directory |
| Hashing.FlipBitTwice | src/main/java/in/ac/iitd/db362/index/hashindex/ExtendibleHashing.java:104-106 | flipping the same bit twice gives back the slot |
| Hashing.FlipBitMoves | src/main/java/in/ac/iitd/db362/index/hashindex/ExtendibleHashing.java:104-106 | the repointed slot is never the split slot itself |
| Hashing.Select | src/main/java/in/ac/iitd/db362/index/hashindex/ExtendibleHashing.java:113-127 | the logged pairs hashing to a slot are drawn from the log, and every logged pair hashing there is among them |
| Hashing.RowsMembers | src/main/java/in/ac/iitd/db362/index/hashindex/ExtendibleHashing.java:186-190 | a row is in the rows of a key iff the pair (key, row) is in the entries |
| Hashing.RowsAppend | src/main/java/in/ac/iitd/db362/index/hashindex/ExtendibleHashing.java:183-194 | the rows of a key in two entry runs are the rows from each in turn |
| Hashing.RowsSelect | src/main/java/in/ac/iitd/db362/index/hashindex/ExtendibleHashing.java:167-196 | restricting the log to the key's slot loses none of the key's rows and keeps their order |
| Hashing.ChainRows | src/main/java/in/ac/iitd/db362/index/hashindex/ExtendibleHashing.java:183-194 | scanning a chain bucket by bucket collects the key's rows of the chain's entries |
| Hashing.ExtendibleHashing.BucketRows | src/main/java/in/ac/iitd/db362/index/hashindex/ExtendibleHashing.java:187-191 | the inner loop of `search` collects the rows of one bucket's pairs whose key matches, slot by slot |
| Hashing.ExtendibleHashing.Search | src/main/java/in/ac/iitd/db362/index/hashindex/ExtendibleHashing.java:167-196 | the result is the rows of the key's entries along its slot's chain; in a valid index, exactly the rows inserted with the key, in insertion order |
| Hashing.ExtendibleHashing.LogRows | src/main/java/in/ac/iitd/db362/index/hashindex/ExtendibleHashing.java:167-196 | in a valid index the key's slot chain holds every row inserted with the key, in insertion order |
| Hashing.ExtendibleHashing.Evaluate | src/main/java/in/ac/iitd/db362/index/hashindex/ExtendibleHashing.java:55-78 | any operator but EQUALS fails as unsupported; EQUALS returns exactly the rows inserted with the key |
| Hashing.ExtendibleHashing.Delete | src/main/java/in/ac/iitd/db362/index/hashindex/ExtendibleHashing.java:160-163 | `delete` reports failure and changes nothing |
| Hashing.ExtendibleHashing.GetLocalDepth | src/main/java/in/ac/iitd/db362/index/hashindex/ExtendibleHashing.java:211-213 | in a valid index every slot's bucket has local depth equal to the global depth, so the split branch of `insert` is never taken |
| Hashing.ExtendibleHashing.GetBucketCount | src/main/java/in/ac/iitd/db362/index/hashindex/ExtendibleHashing.java:219-221 | the number of directory slots, `2^globalDepth`, which no operation changes |
| Bitmap.SetBit | src/main/java/in/ac/iitd/db362/index/BitmapIndex.java:65 | OR-ing bit `r % 32` into word `r / 32` keeps the length and adds exactly row `r` to the set rows |
| Bitmap.Zeros | src/main/java/in/ac/iitd/db362/index/BitmapIndex.java:50-53 | a new bitmap has `n` words and no row set |
| Bitmap.WordIdsSpec | src/main/java/in/ac/iitd/db362/index/BitmapIndex.java:121-125 | the inner loop over one word yields, ascending, exactly the ids `base + j` whose bit `j` is set |
| Bitmap.IdsUpToSpec | src/main/java/in/ac/iitd/db362/index/BitmapIndex.java:119-126 | the outer loop over the first `i` words yields, ascending, exactly the set ids below `32 * i` |
| Bitmap.IdsSpec | src/main/java/in/ac/iitd/db362/index/BitmapIndex.java:118-126 | the ids read from a bitmap are strictly ascending and are exactly its set rows |
| Bitmap.Inserted | src/main/java/in/ac/iitd/db362/index/BitmapIndex.java:61-66 | inserting adds the key if absent, sets exactly `rowId` in its bitmap and leaves every other key's bitmap unchanged |
| Bitmap.InsertIdempotent | src/main/java/in/ac/iitd/db362/index/BitmapIndex.java:65 | inserting the same pair twice is inserting it once |
| Bitmap.SearchAfterInsert | src/main/java/in/ac/iitd/db362/index/BitmapIndex.java:61-66 | after inserting `(k, r)`, searching `k` finds exactly the old rows plus `r`, and every other key's search is unchanged |
| Bitmap.BitmapIndex.constructor | src/main/java/in/ac/iitd/db362/index/BitmapIndex.java:39-44 | a new index records `maxRowId` and has no bitmap |
| Bitmap.BitmapIndex.CreateBitmapForKey | src/main/java/in/ac/iitd/db362/index/BitmapIndex.java:50-53 | an absent key gets an all-zero bitmap of `(maxRowId + 31) / 32` words; an existing bitmap is kept, not replaced |
| Bitmap.BitmapIndex.Insert | src/main/java/in/ac/iitd/db362/index/BitmapIndex.java:61-66 | the bitmaps become `Inserted` of the old ones, and every existing bitmap array stays the same object |
| Bitmap.BitmapIndex.Search | src/main/java/in/ac/iitd/db362/index/BitmapIndex.java:108-130 | the result is the ascending list of the key's set rows, and empty for a key with no bitmap |
| Bitmap.BitmapIndex.Evaluate | src/main/java/in/ac/iitd/db362/index/BitmapIndex.java:80-105 | any operator but EQUALS fails as unsupported; EQUALS returns the key's set rows |
| Bitmap.BitmapIndex.Delete | src/main/java/in/ac/iitd/db362/index/BitmapIndex.java:74-76 | `delete` reports failure and changes nothing |
| Evaluator.RetainAll | src/main/java/in/ac/iitd/db362/processor/QueryEvaluator.java:64 | the left rows that occur on the right, in left order and with left multiplicity; as a set, the intersection |
| Evaluator.Union | src/main/java/in/ac/iitd/db362/processor/QueryEvaluator.java:68-70 | duplicate-free, and as a set the union of both sides |
| Evaluator.Dedup | src/main/java/in/ac/iitd/db362/processor/QueryEvaluator.java:68-70 | duplicate-free with the same elements |
| Evaluator.Complement | src/main/java/in/ac/iitd/db362/processor/QueryEvaluator.java:75-79 | strictly ascending, and exactly the ids in `0..maxRowId` not in the child's result |
| Evaluator.NullIsEmpty | src/main/java/in/ac/iitd/db362/processor/QueryEvaluator.java:55 | a null node evaluates to the empty list |
| Evaluator.AndIsIntersection | src/main/java/in/ac/iitd/db362/processor/QueryEvaluator.java:57-65 | AND is the left result filtered to rows of the right, in left order and multiplicity |
| Evaluator.OrIsUnion | src/main/java/in/ac/iitd/db362/processor/QueryEvaluator.java:66-70 | OR is duplicate-free and as a set the union of both results |
| Evaluator.ConnectiveFailure | src/main/java/in/ac/iitd/db362/processor/QueryEvaluator.java:57-71 | a failure of either operand of AND or OR is the failure of the whole, the left one first |
| Evaluator.NotIsComplement | src/main/java/in/ac/iitd/db362/processor/QueryEvaluator.java:72-80 | NOT evaluates only its left child and returns a duplicate-free list of exactly the ids in `0..maxRowId` outside the child's result |
| Evaluator.DoubleNegation | src/main/java/in/ac/iitd/db362/processor/QueryEvaluator.java:72-80 | NOT of NOT is, as a set, the original result restricted to `0..maxRowId` |
| Evaluator.LeafIsPredicate | src/main/java/in/ac/iitd/db362/processor/QueryEvaluator.java:81-84 | any other operator is a leaf whose result is exactly the leaf evaluation's |

## Left out

- Logging, the `prettyName` strings, `getAttribute`, `getRoot`, `getBuckets` and the empty `printTable` are not modelled: they are I/O or plain accessors. `BPlusTree.BPlusTreeIndex.GetOrder` and `Hashing.ExtendibleHashing.GetGlobalDepth` are modelled as plain accessors that return the field, with nothing further to prove about them.
- Parsing the query's text into a key (`Integer.valueOf`, `Double.valueOf`, `LocalDate.parse`) and the mixed-type `compare` of the B+ tree are not modelled. B+ tree keys are `int` with their usual order. The hash and bitmap indexes take any key type with equality.
- `evaluatePredicate` and the `Catalog` it consults are outside the model. `Evaluator.EvaluateQuery` takes the leaf evaluation as a function parameter.
- `HashingScheme.getDirectoryIndex` is not part of this model. `Hashing.ExtendibleHashing` takes it as a constructor parameter that maps every key into the directory.
- `Node`, `Bucket`, `QueryNode` and `Operator` are not part of this model. Their fields are read as plain record fields. A node's null key, value and child lists (`BPlusTreeIndex.java:125-129`) are modelled as empty lists.
- The static settings `ORDER`, `INITIAL_GLOBAL_DEPTH` (10) and `BUCKET_SIZE` (4) are constructor parameters. The requirements are `order >= 2`, `globalDepth < 31` (so that `1 << globalDepth` is a positive Java `int`) and `bucketSize >= 1`.
- Exceptions for unsupported operators and types are modelled as `Failure(UnsupportedPredicate)`. An AND or OR whose operand fails returns that failure.
- The OR and NOT results of the code come from `HashSet` iteration, whose order is unspecified. The model fixes one order, and the lemmas state these results as sets without duplicates.
- BPlusTree.BPlusTreeIndex.Search: the result is proved exact only for keys that are not a leaf's lower end. For a separator key, the descent reaches the leaf to the left of the key's leaf. The search then misses, or, once the key has been inserted again (see `Insert` below), it returns only the rows of the left leaf's second copy. This is the code's behaviour, and the contract states it as such.
- BPlusTree.BPlusTreeIndex.Evaluate: the EQUALS case inherits the weaker `Search` contract above.
- BPlusTree.BPlusTreeIndex.Insert: a key is "already present" only when the leaf the descent reaches holds it. A separator key reaches the left leaf and enters it a second time, so the contract states entries as a multiset.
- BPlusTree.BPlusTreeIndex.Insert: the branch that creates a missing bucket for an existing key (`BPlusTreeIndex.java:140-146`) is not modelled, because the invariant gives every leaf key a bucket.
- BPlusTree.BPlusTreeIndex.RangeQuery: a query with both bounds null is excluded by its precondition. The code does not reach that case from `evaluate`, and RANGE without a second value is undefined there.
- BPlusTree.BPlusTreeIndex.Delete, Hashing.ExtendibleHashing.Delete, Bitmap.BitmapIndex.Delete: deletion is a stub in the code, and the model only states that it returns false.
- Hashing.ExtendibleHashing.Insert: the split branch (`ExtendibleHashing.java:143-147`) is shown unreachable, not executed. The precondition `CanPlace` holds in every valid state, because every bucket is created with local depth `globalDepth`. The recursive retry after a split is therefore not modelled.
- Hashing.ExtendibleHashing.SplitBucket: it is modelled on its own, with the preconditions under which its re-insertion is well defined. The local depth must be below the global depth, and the bucket's entries must hash to slots that point at it. No state reachable through `insert` meets them.
- Bitmap.BitmapIndex.Insert: it requires `0 <= rowId < 32 * ((maxRowId + 31) / 32)`. For a larger row id the code throws an out-of-bounds exception. For a row id from -31 to -1, Java's truncating `/` gives word 0 and `1 << (rowId % 32)` sets bit `32 + rowId`, so a later search reports row `32 + rowId`. For a row id of -32 or less, the word index is negative and the code throws an out-of-bounds exception. When `maxRowId % 32 == 0`, `maxRowId` itself is outside the capacity.
- Evaluator.Complement: the code's NOT fills a hash set with a `for` loop. The model states that loop's result directly as a function, without modelling the loop.
- Concurrency is not modelled, and neither is Java `int` overflow of row ids or heights; integers are unbounded.
