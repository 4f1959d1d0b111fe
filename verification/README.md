# Verified models of the container and lifetime headers

This project models, in Dafny, the containers and the pointer protocols of the library whose behaviour is
hardest to see from one function at a time, and proves what they promise.

| module | what it models |
|---|---|
| `Bits`, `Split` | machine words bit by bit; addressing by (part, offset) |
| `VebSet`, `VebLevel`, `VebLeaf`, `VebTree`, `VebBounds`, `VebWrap` | the van Emde Boas trees of `_vebtree.h`: the bit-mask leaf, the recursive tree of a fixed universe 2^n, and the tree over a chosen number of clusters |
| `RbShape`, `RbTree` | the red-black tree of `_rbtree.h`: nodes with four mutable fields, a header cell, rotations, both fix-up loops |
| `TierList` | the multi-tier list of `_mtlist.h` |
| `SharedPtr` | the strong and weak counts of `_shwkptr.h` as steps of any number of threads |
| `CopyOnWrite` | the counted handles of `_garcoll.h` |
| `LogBlocks`, `LogArray` | the segmented array of `_logarray.h`, with the lifetime of elements, blocks and pointer tables |
| `BitWords`, `BitVec`, `FixedBits` | the bit vectors of `_simpbv.h` and `fixedbv.h` |

What changes in place in the library is a class here: its fields are the program's, a ghost field holds the
abstract value (a set, a sequence of nodes, a sequence of elements), and `Valid()` ties the two. Each operation
is proved against the abstract value; the lemmas say what follows for whole runs.

How the pieces are set up:

- A van Emde Boas tree of 2^n elements is one object per node, for 5 <= n < 64, with leaves of one or more
  words for n <= 9. `Fields` says of one node what the recursive invariant says: the minimum is at this level and
  in no cluster, the maximum is exact, the summary names exactly the clusters that are not empty. The stored
  `min + 1` wraps in the index type as the program's does. The count of visits is a ghost result.
- The red-black tree is proved through a ghost `Shape`: the links as places in the in-order sequence, so that key
  order is built in and every rotation is a change of places. `Carries()` says that the real nodes carry it.
- A program that throws is modelled by a result value; a failed allocation or a constructor that throws by a
  parameter that says so.
- Every step of the pointer protocol is one atomic access. The state knows which thread is between which two
  accesses; an inductive invariant relates both counts to the handles and to the threads under way.

## Findings

Each of these is a lemma, or part of a contract, with the exact condition.

1. `VebTreeFixed::FCheckDelete` of an absent element can throw instead of answering false: it deletes from an empty
   cluster, where `min + 1` stands at 0 and the stored minimum reads as the greatest value of the index type. For 2^16 elements it throws only for
   65535 on the empty tree (`VebBounds.ThrowsAt16`); for 2^32 elements also for the last element of any cluster
   that is empty (`VebBounds.ThrowsAt32`). The wrap over clusters inherits it (`VebWrap.ThrowsBelow32`,
   `VebWrap.ThrowsAt32`).
2. `FDeleteAllAfter` ends by cutting the summary; when the summary, or one below it, is the 256-element leaf and the cut falls on its
   last bit, `++_x` wraps and the whole leaf is cleared, so that clusters with members lose their names. The
   universes in which this can happen are exactly 2^8 (the leaf itself), 2^16, 2^17, 2^31 to 2^35 and 2^61 to
   2^63 (`VebBounds.WrapsWhere`), with or without a wrap over the clusters; at 2^16 and 2^17 the arguments are characterised (`VebBounds.WrapsAt16`), and
   `VebBounds.WrapExample` is one. Through finding 1 it can also throw, exactly where `DeleteAfterThrows` says; below
   2^32 elements it never does (`VebTree.DeleteAfterNeverThrows`).
3. `VebTreeWrap::Init` on a tree in use leaves the old summary in place, because `_Deinit` of the fixed tree does
   nothing. The new tree is sound exactly when the old one held at most one element (`VebWrap.Wrap.Init`,
   `VebWrap.Wrap.SummaryEmpty`).
4. The weak count can be below the strong count, which the container's `AssertValid` rules out: two threads that
   upgrade copies of the same weak handle take the strong count to 3 with a weak count of 2
   (`SharedPtr.StrongAboveWeak`). The difference is exact in every reachable state (`SharedPtr.WeakMinusStrong`).
   Nothing is freed early for it.
5. `LogArray::_PvAllocEnd` loses the new table of block pointers when it has been allocated and the allocation of
   the block then fails; that is the only loss (`LogArray.LogArray.AllocEnd`).

## Model

| member | source | states |
|---|---|---|
| VebLeaf.Leaf.NSuccessor | _vebtree.h:603-628 | the word scan of a leaf answers the least member above `x`, and 0 only when there is none |
| VebLeaf.Leaf.NPredecessor | _vebtree.h:663-689 | the greatest member below `x`, and the last element of the universe only when there is none |
| VebLeaf.Leaf.FDeleteAllAfter | _vebtree.h:569-595 | keeps the members up to `x`, where the `++_x` wraps in the index type, and answers whether nothing is left and the new maximum |
| VebTree.Tree.FHasElement | _vebtree.h:1738-1750 | membership, on every universe 2^n |
| VebTree.Tree.Insert | _vebtree.h:1539-1564 | keeps the recursive invariant and adds exactly the element |
| VebTree.Tree.FCheckInsert | _vebtree.h:1565-1601 | the same for an element that may be there; true exactly when it was not |
| VebTree.Tree.Delete | _vebtree.h:1602-1641 | keeps the invariant, removes exactly the element, visits at most `2 * Depth(n) + 1` nodes, and one when it empties the tree |
| VebTree.Tree.FCheckDelete | _vebtree.h:1642-1690 | removes the element if it is there and answers whether it was; throws exactly when `CheckDeleteThrows` holds, and then changes nothing |
| VebTree.Tree.NSuccessor | _vebtree.h:1751-1779 | the least member above `x`, 0 only when there is none, in at most `Depth(n) + 1` visits |
| VebTree.Tree.NPredecessor | _vebtree.h:1842-1876 | the greatest member below `x`, the last element only when there is none, in at most `Depth(n) + 1` visits |
| VebTree.Tree.NSuccessorDelete | _vebtree.h:1781-1840 | the successor query followed by the delete of its answer, with summary and maximum repaired |
| VebTree.Tree.NPredecessorDelete | _vebtree.h:1878-1924 | the predecessor query followed by the delete of its answer |
| VebTree.Tree.Clear | _vebtree.h:1488-1499 | empties the tree at every level |
| VebTree.Tree.InsertAll | _vebtree.h:1500-1537 | the tree holds exactly the interval |
| VebTree.Tree.BitwiseInvert | _vebtree.h:2120-2184 | complement up to the last element; the minimum, kept outside the clusters, goes through correctly |
| VebTree.Tree.OrEquals | _vebtree.h:1927-1953 | union, although each operand hides its minimum outside its clusters |
| VebTree.Tree.FDeleteAllAfter | _vebtree.h:1692-1737 | keeps exactly the members up to `x`, says whether nothing is left and the new maximum; throws exactly when `DeleteAfterThrows` holds, and leaves a sound tree exactly when `DeleteAfterWraps` does not |
| VebBounds.DepthIsLogLog | _vebtree.h:71-91 | the number of levels above the leaves is the logarithm of `n / 9` rounded up, so that the visits above are log-log in the universe |
| VebBounds.KMSBitSetIsMsb | _bitutil.h:63-102 | the nibble table and its chain of comparisons find the most significant bit of every 64-bit word |
| VebBounds.Sqrts | _vebtree.h:71-91 | `LowerSqrt` and `UpperSqrt` multiply to the universe, and are the number and the size of clusters |
| VebBounds.ThrowsAt16 | _vebtree.h:1642-1690 | on 2^16 elements a checked delete throws for one argument in one state |
| VebBounds.ThrowsAt32 | _vebtree.h:1642-1690 | on 2^32 elements it throws for exactly these sets and arguments |
| VebBounds.WrapsWhere | _vebtree.h:1692-1737 | in which universes FDeleteAllAfter can break the tree, in both directions |
| VebBounds.WrapsAt16 | _vebtree.h:1692-1737 | on 2^16 and 2^17 elements it breaks the tree for exactly these sets and arguments |
| VebBounds.WrapExample | _vebtree.h:569-595 | an input on which it does |
| VebTree.DeleteAfterNeverThrows | _vebtree.h:1692-1737 | below 2^32 elements FDeleteAllAfter throws for no set and argument |
| VebWrap.Wrap.Init | _vebtree.h:2248-2263 | the new size, an empty tree, the exception for a size that does not fit, and exactly when the tree is sound afterwards |
| VebWrap.Wrap.SummaryEmpty | _vebtree.h:2248-2263 | the summary that Init leaves in place was empty exactly when the tree held at most one element |
| VebWrap.Wrap.Grow | _vebtree.h:2462-2496 | growing keeps every member and adds empty clusters |
| VebWrap.Wrap.Insert | _vebtree.h:2594-2613 | adds exactly the element, or throws past the last element |
| VebWrap.Wrap.FCheckInsert | _vebtree.h:2614-2649 | the same, and says whether the element was new |
| VebWrap.Wrap.Delete | _vebtree.h:2650-2691 | removes exactly the element |
| VebWrap.Wrap.FCheckDelete | _vebtree.h:2692-2740 | removes the element if it is there; which exception, if any, is exact |
| VebWrap.ThrowsBelow32 | _vebtree.h:2692-2740 | with clusters of fewer than 2^16 elements a checked delete throws for one argument in one state |
| VebWrap.ThrowsAt32 | _vebtree.h:2692-2740 | with clusters of 2^16 elements it throws for exactly these sets and arguments |
| VebWrap.Wrap.FDeleteAllAfter | _vebtree.h:2741-2788 | keeps exactly the members up to `x`, for any `x`; the exception, and whether a sound tree is left, are exactly those of a fixed tree of the same universe |
| VebWrap.Wrap.FHasElement | _vebtree.h:2789-2801 | membership, or the exception past the last element |
| VebWrap.Wrap.NSuccessor | _vebtree.h:2804-2833 | the least member above `x`, or of all for the greatest `size_t`, which is also the answer when there is none and never a genuine one |
| VebWrap.Wrap.NPredecessor | _vebtree.h:2899-2934 | the greatest member below `x`, or of all |
| VebWrap.Wrap.NSuccessorDelete | _vebtree.h:2836-2896 | the successor query followed by the delete of its answer |
| VebWrap.Wrap.NPredecessorDelete | _vebtree.h:2938-2985 | the predecessor query followed by the delete of its answer |
| VebWrap.Wrap.Clear | _vebtree.h:2537-2552 | empties the tree, clearing only the clusters the summary names |
| VebWrap.Wrap.InsertAll | _vebtree.h:2553-2593 | all of `[0, last]` |
| VebWrap.Wrap.BitwiseInvert | _vebtree.h:3189-3252 | complement in `[0, last]` |
| VebWrap.Wrap.OrEquals | _vebtree.h:2988-3016 | union, or the exception when the sizes differ |
| VebWrap.Drain | _vebtree.h:2836-2896 | repeated `NSuccessorDelete()` terminates, empties the tree, and returns its members in ascending order |
| VebWrap.DrainSorts | _vebtree.h:2836-2896 | any sequence of answers that such a run can give is the sorted list of the set |
| RbShape.RotateLinked | _rbtree.h:230-268 | a rotation, in the program's order of writes, leaves one search tree of the same places |
| RbTree.Tree.RotateLeft | _rbtree.h:230-248 | the pointer writes are that rotation, header root included |
| RbTree.Tree.RotateRight | _rbtree.h:250-268 | its mirror image |
| RbShape.AddRecolors | _rbtree.h:279-283 | a red uncle: the recolouring moves the only violation two levels up |
| RbTree.Tree.Rebalance | _rbtree.h:270-314 | from a tree with one new red node the loop restores red, black and root rules without moving a node in the order |
| RbShape.SplicesBlack | _rbtree.h:317-375 | taking a black node out leaves a tree short of one black in one place, and nothing else wrong |
| RbShape.LackSiblingReddened | _rbtree.h:396-401 | a black sibling with black children moves the lack one level up |
| RbShape.LackFarTurned | _rbtree.h:402-412 | a red far nephew ends it |
| RbTree.Tree.RebalanceForErase | _rbtree.h:316-446 | removes exactly the given node from the in-order sequence; links, colours, black counts, root, leftmost and rightmost are right afterwards |
| RbTree.Tree.Erase | _rbtree.h:1126-1135 | the whole tree invariant, keys sorted and count included, with exactly that node gone |
| RbTree.Tree.InsertLink | _rbtree.h:849-876 | links the node at the place asked for, on the side the comparisons choose, and rebalances |
| RbTree.Tree.InsertUnique | _rbtree.h:918-937 | adds the key exactly when no node has it, in order, and returns the node that has it |
| RbTree.Tree.LowerBound | _rbtree.h:1276-1291 | the first node not less than the key |
| RbTree.Tree.UpperBound | _rbtree.h:1314-1329 | the first node greater than the key |
| RbTree.Tree.Find | _rbtree.h:1222-1239 | a node with the key, or the header exactly when there is none |
| RbTree.Tree.Increment | _rbtree.h:138-155 | the next node in order, and the header after the last, even when the climb passes the root |
| RbTree.Tree.Decrement | _rbtree.h:156-175 | the node before, and the last node from the header, which is told apart by its colour |
| RbShape.HeightBound | _rbtree.h:35-50 | a red-black tree of `n` nodes is at most `2 * log2(n + 1)` high |
| TierList.List.Insert | _mtlist.h:364-386 | inserts before the first element not greater, for any number of tiers; every tier still links exactly the nodes tall enough, in order |
| TierList.TiersNest | _mtlist.h:364-386 | each tier is a subsequence of the tier below |
| TierList.List.FindBefore | _mtlist.h:388-404 | the descent over the tiers ends where a scan of tier 0 would |
| TierList.List.Find | _mtlist.h:406-417 | the first element equal to the key, and nothing exactly when there is none |
| TierList.List.FindPointersBefore | _mtlist.h:425-443 | the same, with the last node before the place in every tier |
| TierList.List.RemoveWithPointers | _mtlist.h:467-494 | with those pointers exactly that node leaves every tier it is in |
| TierList.List.Remove | _mtlist.h:425-494 | both steps together take out exactly the first element not greater than the key |
| SharedPtr.StepKeeps | _shwkptr.h:730-800 | every step of every thread keeps the invariant of counts, handles, object and memory |
| SharedPtr.RunKeeps | _shwkptr.h:730-800 | so does every run |
| SharedPtr.NoUseAfterFree | _shwkptr.h:778-800 | in every reachable state no step that is possible touches freed memory |
| SharedPtr.FreedOnce | _shwkptr.h:792-800 | the memory is freed at most once, with no handle left and the destructor over |
| SharedPtr.DestroyedOnce | _shwkptr.h:778-791 | the object lives while there is a strong handle, and its destructor is entered exactly by the step that takes the strong count from 1 to 0 |
| SharedPtr.ZeroStays | _util.h:369-381 | once 0, the strong count stays 0 |
| SharedPtr.UpgradesTell | _shwkptr.h:180-189 | an upgrade fails only when the object is gone and succeeds only while it lives |
| SharedPtr.MovesTell | _shwkptr.h:166-177 | the same for an upgrade that consumes the weak handle |
| SharedPtr.NothingLeaks | _shwkptr.h:967-981 | when no thread is under way and no handle is left, object and memory are gone |
| SharedPtr.WeakMinusStrong | _shwkptr.h:704-710 | the exact difference of the counts in every reachable state, and exactly when the weak one is not below |
| SharedPtr.WeakCoversStrong | _shwkptr.h:704-710 | a caller's rule under which it is not |
| SharedPtr.StrongAboveWeak | _shwkptr.h:153-162 | a reachable state in which it is |
| CopyOnWrite.Handle.SetEqual | _garcoll.h:1221-1231 | the handle moves to the other object, counts right, the old object destroyed when nobody is left on it |
| CopyOnWrite.Handle.Assign | _garcoll.h:1221-1231 | afterwards this handle reads what the other one does, and all others read what they did |
| CopyOnWrite.Handle.Create | _garcoll.h:1019-1026 | only this handle reads the new value |
| CopyOnWrite.Handle.Release | _garcoll.h:1004-1008 | only this handle reads nothing any more |
| CopyOnWrite.Handle.CopyIfShared | _garcoll.h:1234-1248 | nothing that is read changes, and this handle then has its object to itself |
| CopyOnWrite.Handle.Write | _garcoll.h:1234-1258 | a write is seen by this handle and by no other, as if each had its own copy |
| CopyOnWrite.CopyHandle | _garcoll.h:981-988 | a new handle reads what the copied one does |
| CopyOnWrite.EndHandle | _garcoll.h:999-1002 | the other handles read what they did, and the object goes with its last handle |
| CopyOnWrite.World.NoOthers | _garcoll.h:1209-1215 | the objects that exist are exactly those some handle is on |
| LogBlocks.BlockHolds | _logarray.h:428-445 | `_NBlockFromEl` gives a block that exists and a place inside it, and they are the element's |
| LogBlocks.BlockUnique | _logarray.h:428-445 | no other block and place are |
| LogBlocks.BlockOrder | _logarray.h:428-445 | elements are ordered as their blocks and places |
| LogBlocks.SizesDouble | _logarray.h:320-326 | the doubling of the block size that the loops do step by step agrees with it |
| LogBlocks.SingleBlock | _logarray.h:162-162 | exactly the sizes up to the first power fit in one block |
| LogArray.LogArray.ElGet | _logarray.h:174-183 | the element, or the exception exactly past the end |
| LogArray.LogArray.AllocEnd | _logarray.h:470-546 | takes the next cell, once: a cell taken by a construction that failed is used again; an allocation that fails changes nothing, and loses a pointer table in exactly one case |
| LogArray.LogArray.Emplace | _logarray.h:155-162 | appends; when the construction throws the elements are as before and the cell stays taken and raw |
| LogArray.LogArray.Clear | _logarray.h:187-196 | every element is destroyed once, last first, every block freed once, no table lost |
| LogArray.LogArray.SetSizeSmaller | _logarray.h:549-648 | the same for the elements and blocks past the new size; the table is replaced exactly when its rounded length changes, and if that allocation fails nothing has changed |
| LogArray.LogArray.SetSize | _logarray.h:197-205 | grows with copies of the value or shrinks, and says how far it got |
| LogArray.LogArray.Remove | _logarray.h:214-230 | exactly the range is gone, as many elements are destroyed |
| LogArray.LogArray.RemoveBvElements | _logarray.h:252-275 | exactly the elements whose bit is clear are left, in order |
| LogArray.LogArray.ApplyContiguous | _logarray.h:304-330 | the ranges handed out lie in one block each, are not empty, and together are `[begin, end)` |
| LogArray.LogArray.NApplyContiguous | _logarray.h:362-392 | the same calls up to the first whose count is not that of its range, and the sum of the counts |
| BitWords.ValueBit | _simpbv.h:203-234 | the bits of the words, by quotient and remainder, are the bits of the number they spell |
| BitWords.FirstSet | _simpbv.h:26-53 | the two's-complement trick and the most significant bit give the lowest set bit |
| BitVec.BitVec.GetNextSet | _simpbv.h:256-278 | the next set bit, and the size exactly when there is none |
| BitVec.BitVec.GetNextNotSet | _simpbv.h:280-301 | the next clear bit, or the size, although the complement of the last word has bits past the end |
| BitVec.BitVec.GetClearFirstSet | _simpbv.h:237-241 | finds the first set bit and clears it alone |
| BitVec.BitVec.CountSetBits | _simpbv.h:303-320 | the number of set bits |
| BitVec.BitVec.NextIntersection | _simpbv.h:439-461 | the next bit set in both |
| BitVec.BitVec.Invert | _simpbv.h:463-479 | exact complement, with nothing past the end; the number becomes its distance from the greatest |
| BitVec.BitVec.Increment | _simpbv.h:482-499 | one more modulo 2^size, with the carry from word to word |
| FixedBits.FixedBV.Set | fixedbv.h:103-114 | exactly that bit, or the exception |
| FixedBits.FixedBV.Invert | fixedbv.h:242-249 | exact complement, trimmed |
| FixedBits.FixedBV.ShiftLeft | fixedbv.h:261-280 | every bit moves by the shift, and the number is multiplied by 2^shift modulo 2^N |
| FixedBits.FixedBV.GetNextBit | fixedbv.h:324-384 | the first set bit after the index, or nothing exactly when there is none |

## Left out

- VebTree.Tree.InsertAll: the first element is one the program passes itself (0, or 1 below a level); other first
  elements past the first cluster are not promised by the source either.
- VebTree.Tree.Insert: no bound on its visits is stated; the queries and Delete have one.
- VebTree.Tree.OrEquals: the two trees share no memory; `t |= t` is not modelled, here and for the wrap.
- VebTree.Tree.FDeleteAllAfter: what it answers is not stated for the 256-element leaf at its last element, where
  the wrap has happened.
- Intersection and symmetric difference of van Emde Boas trees (`&=`, `^=`): as written they mishandle the minimum that is
  held outside the clusters.
- `VebTreeWrap::Resize` to a smaller size.
- A wrap used as the summary of another wrap, leaves of 8 and 16 bits, copy and move of trees.
- The debug assertions of the trees that contradict the branch they stand in.
- SharedPtr.DestroyedOnce: destructors and allocators that throw, counts that overflow, self-assignment, and
  assigning a strong handle to a weak one by move are not modelled.
- RbTree.Tree.InsertUnique: keys are integers, and the comparison is theirs; hints, equal keys, range insertion,
  node handles and copies of trees are not modelled.
- TierList.List.Insert: the number of tiers of a node is an argument from 1 to the number of tiers; how the
  program draws it is not modelled, nor is the wrapper that omits the key.
- CopyOnWrite.Handle.Write: the write goes through the handle; a reference that the caller keeps after another
  handle has been copied is not modelled, nor are the handles that may not be null.
- LogArray.LogArray.Emplace: an element moved from keeps its value, `size_t` sums do not wrap, and destructors do
  not throw.
- Bit vectors: the pairwise operators, `>>=`, `decrement`, `all`, hashing and comparison.
- Memory is not exhausted except where a parameter says so.
