# Verified models of the lib32 data structures

The driver brings its own small runtime under `lib32/`: a register cache over a red-black tree of
growable blocks, the tree itself, a heap, bitmaps with their text formats, a reference-counted list,
a buffering file reader, a sort and a string copy.  This project models seven of these parts in Dafny,
in the imperative form of the source, and proves what each is for.

| part | files | the main results |
|---|---|---|
| red-black tree | `RedBlackTree`, `RbArena`, `RbRotations`, `RbErase`, `RbUnlink`, `RbRoot` | insertion and erasure restore every red-black property and parent link and keep the order |
| register cache | `Strides`, `CacheBlock`, `RegCache`, `RegRuns`, `RegSync` | every run refines a plain map; a sync makes hardware equal to the cache and touches nothing else |
| heap | `HeapBlocks`, `HeapCompact`, `HeapPairs`, `Heap`, `HeapRuns` | blocks tile the heap in every reachable state; over any run a client sees separate buffers; exactly when `free` leaves two touching free blocks, and how many there can be |
| bitmaps | `Bitmap`, `BitSearch`, `AreaSearch`, `ParseText`, `TextItems`, `BitmapList`, `BitmapListTexts`, `BitmapText`, `BitmapHex`, `BitmapHexTexts`, `BitmapHexText` | in-place shifts; when the zero-area search is right and when it ends; both print/parse round trips; what every text means to both parsers |
| klist | `KListSpec`, `KListRuns`, `KListShipped`, `KListHeld`, `KList` | counts over every interleaving; what an iteration returns, with a counting `kref_get` and with the shipped one; link stores that do these steps |
| seq_file | `SeqText`, `SeqFile` | any reads and seeks deliver slices of the concatenated records |
| sort, strscpy | `HeapSort`, `StrScpy` | ordered permutation; the word path equals the byte loop |

`Lists` and `Errno` hold what several parts use.

How the models are built:

- The tree is a store of cells (left, right, parent, colour) in a class, with a ghost tree beside it.
  `Focus` ties the cells to a path and a subtree, so each step of a fix-up loop is an equation between
  stores, and order and colours are argued on the tree.
- The cache keeps a ghost map `contents`.  Its methods state the new map; `CacheOk` says that the blocks
  are disjoint, ordered and hold exactly that map.
- The heap keeps block headers by address (`size`, `next`) and all of memory (`bytes`); a store into a header
  overwrites the bytes it occupies, so that live data survives is a consequence of the tiling.  `Sound`
  states the tiling over addresses, without reference to any order of the blocks.
- klist is a transition system on values (`KListSpec.Step`), each function one atomic step because the
  source holds the lock.  Unlinked nodes keep their counts and their stale next link, and a function that
  would go to the list of a node whose `n_klist` is NULL ends the run (`KListSpec.Faults`).  The class
  stores `next` and `prev` links as `list.h` does; `Ring` and `Loose` tie them to the state the steps are
  about.
- seq_file is a class over the real buffer; `At(pos)` says which piece of the file is in it.
- A bitmap word is the sequence of its 32 bits, so C's bit operators are pointwise; in `StrScpy`, where
  carries matter, words are 32-bit vectors.

Properties that turned out not to hold, each with a counterexample and the exact condition:

- `kref_get` (include/linux/kref.h:40-47) increments nothing.  The klist counts are right over a run
  exactly when no iterator ever reaches a node (`KListShipped.ShippedRun`, `KListShipped.ShippedExample`),
  and an iteration empties the list it goes over (`KListShipped.ShippedSweep`).  An iterator can be left on
  a node that is no longer linked: `KListShipped.StandsLinked` says exactly when,
  `KListShipped.NextLinkedIff` what klist_next then returns and when that is a released node
  (`KListShipped.ReleasedExample`), and `KListShipped.ReachesIff` when klist_del and klist_iter_exit follow
  a NULL list instead (`KListShipped.ExitExample`).  `KListHeld.HeldIteration` is what remains true of an
  iteration whose node is left to it.  `KListRuns` is about a `kref_get` that increments.
- `ffz` (include/asm/bitops.h:64-72) is a plain `bsf`.  `find_next_zero_bit` is then right exactly in the
  cases of `BitSearch.NextZeroShipped`, a pass of the zero-area search exactly in those of
  `AreaSearch.ShippedPassIff`, and the search does not end exactly when a pass comes back
  (`AreaSearch.ShippedEndsIff`, `AreaSearch.ShippedAreaNeverEnds`).
- `end = index + nr` (lib32/bitmap.c:347) and the rounding up before it wrap in 32 bits, so that an area
  larger than the map or below start can be reported (`AreaSearch.SumWrapExample`,
  `AreaSearch.AlignWrapExample`) and even a documented search may have no end
  (`AreaSearch.DocumentedEndsIff`); `AreaSearch.FindNextZeroArea` has the exact condition.
- `max = reg + max_dist` (lib32/regcache-rbtree.c:415) wraps in 32 bits; a write may then grow a block
  over another one, after which a register just written reads as absent (`RegRuns.WrapRun`).
  `RegCache.GrowthSafeIff` is the exact condition, and `RegCache.RbTreeCache.SafeToWrite` decides it.
- A drop from an address that is no register may lose the register below (`RegRuns.UnalignedDropRun`);
  `RegCache.RbTreeCache.Drop` says exactly when.
- The count of a raw flush (lib32/regcache.c:729) is 0 for a run over the whole register space, which is
  then refused: the two forms of replay agree exactly otherwise (`RegSync.SyncBlockRaw`,
  `RegSync.FullCircleExample`).
- The comment at lib32/malloc.c:356-366 promises a fully compacted free list.
  `HeapCompact.LeftoverPair` says exactly when `free` delivers it, `HeapRuns.MissedRun` that it does not
  always, and `HeapPairs.FreedPairs` that each call leaves at most one more pair of touching blocks.
- A second `HeapInit`, or one with a size below a header, leaves a heap that is sound exactly under the
  condition in `Heap.RingHeap.HeapInit`.
- The comment at lib32/bitmap.c:594-598 promises -ERANGE for a bit number too large;
  `BitmapList.OneNumber` and `BitmapListTexts.ListMeaning` say exactly when it comes, since numbers wrap at
  2^32; the same goes for -EINVAL when the second number is the smaller one, and a missing second number
  counts as 0.
- The empty bitmap prints as the empty list, which parses as bit 0
  (`BitmapList.EmptyListReadsAsZero`); the list round trip holds for every other bitmap.

## Model

| member | source | states |
|---|---|---|
| RedBlackTree.PlugRedBlack | lib32/rbtree.c:18-31 | a subtree of some black height put into a path gives a red-black tree if and only if the subtree keeps the colour rules and the path accepts its height and root colour; every rebalancing step is argued through this equivalence |
| RedBlackTree.HeightBounds | lib32/rbtree.c:28-31 | under properties 4 and 5 the height is at most twice the black height, plus one below a red root, and a tree of black height b holds at least 2^b - 1 nodes |
| RedBlackTree.LogarithmicHeight | lib32/rbtree.c:28-31 | every red-black tree of height 2k or 2k - 1 holds at least 2^k - 1 nodes, the O(log n) guarantee |
| RbArena.FocusIffRep | lib32/rbtree.c:77-85 | cells linked as a path plus a subtree are the same as cells linked as one tree, in both directions, so a loop may work anywhere in the tree and still speak about the whole |
| RbRotations.RotateRep | lib32/rbtree.c:77-85 | one rotation with the colour and parent hand-over of __rb_rotate_set_parents turns the links of one tree into the links of the rotated tree, and touches no other cell |
| RbRotations.InsertFlip | lib32/rbtree.c:120-139 | the stores of insert case 1 give exactly the recoloured tree |
| RbRotations.InsertRotateOuter | lib32/rbtree.c:169-185 | the stores of insert case 3, in the source's order, give exactly the rotated and recoloured tree, including the link from the great-grandparent |
| RbRotations.InsertRotateInner | lib32/rbtree.c:143-185 | cases 2 and 3 in sequence give exactly the doubly rotated tree, with every parent link consistent |
| RbRotations.InsertRotatedIsRedBlack | lib32/rbtree.c:169-185 | the tree after case 3 has all red-black properties and the same in-order sequence |
| RbRotations.InsertInnerIsRedBlack | lib32/rbtree.c:143-185 | the same for the tree after cases 2 and 3 |
| RbTree.RbRoot.LinkNode | include/linux/rbtree.h:70-77 | a new red leaf hangs at the empty place the search ended at; all other links are as before |
| RbTree.RbRoot.Flip | lib32/rbtree.c:120-139 | one round of case 1 climbs two levels and keeps the loop invariant: red node, one possible red-red edge, same order |
| RbTree.RbRoot.InsertColor | lib32/rbtree.c:87-223 | from any red-black tree with a new red leaf linked at any place the loop ends in a red-black tree with consistent child and parent links whose in-order sequence has the new node exactly there |
| RbErase.EraseRedSibling | lib32/rbtree.c:245-263 | the stores of erase case 1 give exactly the rotated tree with the deficient position one level lower |
| RbErase.RedSiblingKeeps | lib32/rbtree.c:245-263 | after case 1 the same position is still exactly one black node short, below a red parent, and the order is unchanged |
| RbErase.FlipKeeps | lib32/rbtree.c:267-294 | after case 2 either every path is level again or the whole subtree of the parent is one black node short |
| RbErase.EraseRotateOuter | lib32/rbtree.c:333-354 | the stores of case 4 give exactly the rotated tree with the far nephew black |
| RbErase.OuterKeeps | lib32/rbtree.c:333-354 | case 4 ends with all red-black properties and the same in-order sequence |
| RbErase.EraseRotateInner | lib32/rbtree.c:295-354 | cases 3 and 4 in sequence, with the stale parent link of case 3 in between, give exactly the doubly rotated tree |
| RbErase.InnerKeeps | lib32/rbtree.c:295-354 | cases 3 and 4 end with all red-black properties and the same in-order sequence |
| RbTree.RbRoot.FlipSibling | lib32/rbtree.c:267-294 | either the tree is a red-black tree again or the loop goes on with a larger deficient subtree |
| RbTree.RbRoot.EraseColor | lib32/rbtree.c:229-410 | from any tree in which the paths through one empty non-root place are exactly one black node short, the loop ends in a red-black tree with consistent links and the same in-order sequence |
| RbUnlink.SpliceRep | include/linux/rbtree_augmented.h:210-233 | unlinking a node with at most one child gives exactly the tree in which the child has taken its place |
| RbUnlink.SpliceColours | include/linux/rbtree_augmented.h:210-233 | that tree is a red-black tree or one black node short at exactly the place handed to the rebalancing |
| RbUnlink.UnlinkRep | include/linux/rbtree_augmented.h:234-298 | replacing a node with two children by its successor, both when the successor is the right child and when it is deeper, gives exactly the tree without the node |
| RbUnlink.UnlinkColours | include/linux/rbtree_augmented.h:234-298 | the tree after that is a red-black tree or one black node short at the place the successor left |
| RbUnlink.EraseOrder | include/linux/rbtree_augmented.h:201-301 | the in-order sequence loses the erased node and nothing else |
| RbTree.RbRoot.EraseAugmented | include/linux/rbtree_augmented.h:201-301 | a NULL result means a red-black tree without the node; any other result is the parent of a place that is exactly one black node short |
| RbTree.RbRoot.Erase | lib32/rbtree.c:443-449 | rb_erase leaves a red-black tree whose in-order sequence is the old one without the erased node |
| RbTree.RbRoot.First | lib32/rbtree.c:469-479 | the first node of the in-order sequence, NULL for an empty tree |
| RbUnlink.NextOrder | lib32/rbtree.c:495-524 | what follows a node in the in-order sequence is its right subtree and then what follows it on its path |
| RbTree.RbRoot.Next | lib32/rbtree.c:495-524 | the in-order successor of any node, NULL after the last, found by links alone |
| Bitmap.LeftWordBit | lib32/bitmap.c:157-182 | each bit of a word written by the left shift is the source bit at distance shift, or zero; bits of the last source word beyond the size never reach it |
| Bitmap.ShiftLeft | lib32/bitmap.c:157-182 | every valid bit moves up by exactly the shift, also when source and destination are the same array; zeros come in and the tail of the last word is zero |
| Bitmap.RightWordBit | lib32/bitmap.c:112-141 | each bit of a word written by the right shift is the source bit at distance shift if that is below the size, and zero otherwise |
| Bitmap.ShiftRight | lib32/bitmap.c:112-141 | every valid bit moves down by exactly the shift, also in place, and no don't-care bit of the last word reaches the result |
| BitSearch.ClearRange | lib32/bitmap.c:302-320 | exactly the bits [start, start + nr) become zero |
| BitSearch.Ffs | include/linux/bitops.h:38-73 | halving finds the lowest set bit of every non-zero word |
| BitSearch.FindNextBit | lib32/find_next_bit.c:23-60 | the least set bit at or after the offset, or the size |
| BitSearch.FindFirstBit | lib32/find_next_bit.c:114-134 | the least set bit, or the size |
| BitSearch.FindNextZeroBit | lib32/find_next_bit.c:69-106 | whatever the word primitive ffz answers, the result is its answer for the first word in range that is not all ones, or the size |
| BitSearch.NextZeroDocumented | lib32/find_next_bit.c:69-106 | with an ffz that meets its documentation this is the least zero bit at or after the offset, or the size |
| BitSearch.NextZeroShipped | include/asm/bitops.h:64-72 | with the shipped ffz, a plain bsf without complement, the answer is the least zero bit exactly when there is no zero bit in range, or the word that decides is zero and bsf leaves 0 |
| AreaSearch.AlignUpLeast | lib32/bitmap.c:335-357 | rounding up gives the least aligned index at or after the given one |
| AreaSearch.AlignMaskIs | include/linux/kernel.h:112-112 | the 32-bit (x + mask) & ~mask of the source, for any mask up to 0xFFFFFFFF, is that rounding up to 2^32 - align, and 0 above |
| AreaSearch.OnePass | lib32/bitmap.c:335-357 | one pass of the loop, with both sums in 32 bits, for any ffz: the value returned, or the start of the next pass |
| AreaSearch.LastIndexRight | lib32/bitmap.c:335-357 | the index at which the search ends in unbounded arithmetic is the least aligned run of nr zero bits if its area fits, and there is no such run otherwise |
| AreaSearch.FindNextZeroArea | lib32/bitmap.c:335-357 | with a documented ffz, whenever it ends: the least aligned index at or after start whose nr bits are zero and fit, or a value above size when there is none, if and only if neither rounding up nor the sum of the last index with nr wraps in 32 bits, or that index, or after a wrap of the rounding the result, lies beyond the map |
| AreaSearch.NoWrapRight | lib32/bitmap.c:335-357 | a caller who keeps size, alignment and nr together within 2^32 always gets a right answer |
| AreaSearch.SumWrapExample | lib32/bitmap.c:335-357 | in an empty map of 32 bits, asked for 2^32 - 1 bits from 1 on, the sum wraps to 0 and the answer is index 1 |
| AreaSearch.AlignWrapPass | lib32/bitmap.c:335-357 | above 2^32 - align the rounded index is 0 and the pass starts over at the bottom of the map |
| AreaSearch.AlignWrapExample | lib32/bitmap.c:335-357 | with the mask 0xFFFFFFFF, asked for one bit from 1 on, a map of 32 bits with bits 0 and 1 clear yields index 0, below start; with bit 0 set the search never ends |
| AreaSearch.DocumentedEndsIff | lib32/bitmap.c:335-357 | the documented search, for every map, size, start, nr and alignment, never ends if and only if rounding up wraps, the nr bits from 0 on fit but are not all zero, and from behind the first of them it wraps again; when it ends it returns the answer of FindNextZeroArea |
| AreaSearch.ShippedPassIff | lib32/bitmap.c:335-357 | a pass with the shipped ffz equals the documented pass if and only if both reach the same aligned index, or both areas fit and meet the same first set bit |
| AreaSearch.SharedExample | lib32/bitmap.c:335-357 | maps on which the two passes agree although the shipped find_next_zero_bit is wrong |
| AreaSearch.ShippedAgrees | lib32/bitmap.c:335-357 | the shipped search goes the way of the documented one, pass by pass, as long as every pass finds the least zero bit |
| AreaSearch.ShippedRight | lib32/bitmap.c:335-357 | and what it then returns is the documented answer: the least zero area, or a value above size when there is none, under the condition of FindNextZeroArea |
| AreaSearch.BackIff | lib32/bitmap.c:335-357 | a pass with the shipped ffz comes back to a start no larger than its own if and only if start is not a multiple of 32, its word holds the least zero bit from start on, the area at the rounded bottom of that word fits, and a bit of it below start is set |
| AreaSearch.BackForever | lib32/bitmap.c:335-357 | from such a start the search never ends, for every map, size, nr and alignment |
| AreaSearch.ShippedEndsIff | lib32/bitmap.c:335-357 | the shipped search never ends if and only if one of its passes has such a start |
| AreaSearch.ShippedAreaNeverEnds | lib32/bitmap.c:335-357 | the map {0}, asked for one bit from 1 on, is such a case |
| BitmapList.ListRoundTrip | lib32/bitmap.c:556-670 | reading the printed form of any non-empty list of ranges succeeds with exactly the bits of those ranges |
| BitmapList.EmptyListReadsAsZero | lib32/bitmap.c:600-670 | the text of the empty map reads back as bit 0, so the list round trip stops at non-empty maps |
| BitmapList.OneNumber | lib32/bitmap.c:600-670 | a number of any length is reported as -ERANGE if and only if its remainder modulo 2^32 is too large for the map; otherwise the bit set is that remainder, so 4294967296 reads as bit 0 |
| BitmapText.PrintList | lib32/bitmap.c:528-577 | the text is the list of the maximal runs of set bits, in ascending order and separated by commas, each written as its bit number or as its first and last bit number with a dash, in decimal without leading zeros |
| BitmapText.ParseList | lib32/bitmap.c:600-670 | the error, or the bitmap written, is that of reading the text character by character, which BitmapListTexts.ListMeaning tells for every text |
| BitmapListTexts.ListMeaning | lib32/bitmap.c:600-670 | a text is accepted if and only if each item between commas is a number or a range in ascending order below the size of the map, with 32-bit numbers and blanks only where allowed, and then exactly the bits of the items are set; otherwise the first other item decides: -ERANGE for a number that is too large, -EINVAL for anything else |
| BitmapListTexts.TwoNumbers | lib32/bitmap.c:594-664 | for all m and n below 2^32 the text m-n is refused with -EINVAL if m is larger, with -ERANGE if n is not below the size of the map, and otherwise sets exactly the bits m to n |
| BitmapListTexts.BadCharacter | lib32/bitmap.c:641-652 | a character that is no digit, dash, comma, blank or NUL gives -EINVAL, as does a dash at the beginning of an item or behind another dash |
| BitmapListTexts.ReadItem | lib32/bitmap.c:610-668 | an accepted item sets its bits and the next item follows; any other ends the reading with its error |
| BitmapListTexts.RunIs | lib32/bitmap.c:617-659 | the inner loop gets to the end of an item exactly when the item is digits, or digits with a dash and digits or nothing, with blanks around; it stops with -EINVAL at any other |
| TextItems.EveryTextLists | lib32/bitmap.c:610-669 | every text, with any commas and NULs, is a list of items |
| BitmapListTexts.RenderPrints | lib32/bitmap.c:528-537 | the printed ranges are decimal numbers and pairs of them with a dash, separated by commas |
| BitmapText.ListThere | lib32/bitmap.c:556-683 | printing and parsing gives back the same bits for every non-empty map, and {0} for the empty one |
| BitmapHex.AppendDigit | lib32/bitmap.c:467-476 | shifting a printed digit into the chunk continues the word it was printed from, and never trips the overflow test while fewer than eight digits are in |
| BitmapHex.ScanHexText | lib32/bitmap.c:438-477 | reading the digits of a word leaves exactly those bits in the chunk |
| BitmapHex.ChunkStep | lib32/bitmap.c:478-490 | taking in one more word extends the bits read so far to the next word, keeps the bit count within the map and skips leading zero words |
| BitmapHex.HexRoundTrip | lib32/bitmap.c:379-492 | reading the printed form of any bitmap of at least one bit succeeds with exactly its bits, with leading zero chunks and a partial top chunk |
| BitmapHexText.PrintHex | lib32/bitmap.c:379-404 | each character of the text: counted from the last one every ninth is a comma and the others are the lower-case digits of four bits each, bits behind the end of the map counting as 0; the top chunk has just enough digits |
| BitmapHexText.ParseHex | lib32/bitmap.c:423-492 | the error, or the bitmap built by shifting in chunks, is that of reading the text character by character, which BitmapHexTexts.HexMeaning tells for every text |
| BitmapHexTexts.RenderAt | lib32/bitmap.c:379-404 | which character stands at each place of the text, and how long it is |
| BitmapHexTexts.HexMeaning | lib32/bitmap.c:406-492 | a text is accepted if and only if each item between commas is a chunk of hexadecimal digits, of at most 32 bits and with blanks only where allowed, and the number they make up has no bit behind the map; then the map is that number; otherwise the first other item decides: -EOVERFLOW for a chunk or a number that is too long, -EINVAL for anything else |
| BitmapHexTexts.RunIs | lib32/bitmap.c:438-477 | the inner loop stops with -EOVERFLOW exactly when some beginning of the item is a chunk of more than eight significant digits, and otherwise gets to the end of a chunk and to no other end |
| BitmapHexTexts.EndNumber | lib32/bitmap.c:478-490 | with one more chunk the number is shifted up by 32 bits; it is refused if and only if it then has a bit behind the map, however many leading chunks were zero |
| BitmapHexText.HexThere | lib32/bitmap.c:379-492 | printing and parsing gives back the same bits for every bitmap of at least one bit |
| CacheBlock.ShiftPresent | include/linux/bitmap.h:292-299 | the presence bits move up by the offset within the grown block |
| CacheBlock.InsertToBlock | lib32/regcache-rbtree.c:277-330 | the grown block covers the old range and the new register, holds the old registers with their old values and the new one with its value, and nothing else |
| RegCache.RbTreeCache.Lookup | lib32/regcache-rbtree.c:66-98 | the block that covers the register if there is one, whatever the one-entry shortcut holds, else NULL |
| RegCache.RbTreeCache.Descend | lib32/regcache-rbtree.c:82-97 | the comparisons with base and top lead down to the block that covers the register, or to an empty link when none does |
| RegCache.RbTreeCache.Read | lib32/regcache-rbtree.c:257-274 | the value the map holds for the register, or -ENOENT when it holds none |
| RegCache.PickSides | lib32/regcache-rbtree.c:417-453 | along the search path the candidate is the block just above the register or one below it, and one below only as the block just below unless that one fails the window test |
| RegCache.NeighboursOnPath | lib32/regcache-rbtree.c:417-453 | the blocks just below and just above a missing register both lie on its search path |
| RegCache.PickIsNeighbour | lib32/regcache-rbtree.c:417-453 | when the window does not wrap, the candidate is the block just below or just above the missing register in the whole tree |
| RegCache.PickNearest | lib32/regcache-rbtree.c:409-453 | when reg + max_dist does not wrap, the candidate is a nearest one of all blocks of the tree within max_dist of the register, of two as near the one met first, and there is none if and only if no block lies that near |
| RegCache.PickOnPath | lib32/regcache-rbtree.c:417-453 | the same of the blocks on the search path |
| RegCache.SafeNeighbour | lib32/regcache-rbtree.c:417-453 | wrap or no wrap, a candidate that is safe to grow is the block just below or just above the missing register |
| RegCache.NoWrapSafe | lib32/regcache-rbtree.c:409-453 | a window that does not wrap makes every write safe |
| RegCache.GrowNeighbour | lib32/regcache-rbtree.c:455-463 | growing that neighbour up to the register meets no other block, and the map gains exactly one entry |
| RegCache.GrowthSafeIff | lib32/regcache-rbtree.c:409-463 | growing the candidate keeps the blocks disjoint if and only if it is not a block below the register while the block just below it starts beyond max |
| RegCache.UnsafeOverlaps | lib32/regcache-rbtree.c:409-463 | a write that is not safe grows a block over the one just below the register |
| RegCache.RbTreeCache.SafeToWrite | lib32/regcache-rbtree.c:384-478 | whether a write is safe can be decided beforehand, by comparing the candidate and the block just below with max |
| RegCache.RbTreeCache.FindBelow | lib32/regcache-rbtree.c:417-453 | the last node at which the search for a missing register turns right is the block just below it |
| RegCache.RbTreeCache.FindAdjacent | lib32/regcache-rbtree.c:409-453 | the walk returns the candidate of the specification together with the bounds of the grown block |
| RegCache.RbTreeCache.FindLink | lib32/regcache-rbtree.c:100-133 | the search for a missing register ends at the one empty link where a block for it keeps the order |
| RegCache.RbTreeCache.GrowBlock | lib32/regcache-rbtree.c:277-327 | the block covers the register afterwards and keeps its other values and presence bits, safe or not |
| RegCache.RbTreeCache.WriteGrown | lib32/regcache-rbtree.c:455-463 | the neighbour is grown in place and the map gains exactly one entry |
| RegCache.RbTreeCache.WriteNew | lib32/regcache-rbtree.c:465-475 | a block of one register is linked and rebalanced in, and the map gains exactly one entry |
| RegCache.RbTreeCache.Write | lib32/regcache-rbtree.c:384-478 | when the block the walk would grow is safe to grow, in particular when the window does not wrap, the map gains or replaces exactly one entry, blocks stay disjoint and in order and the tree stays a red-black tree; otherwise that block is grown over another one |
| RegCache.DropTests | lib32/regcache-rbtree.c:534-549 | the register comparisons and the start and end indices in terms of register indices, for any min and max |
| RegCache.FirstDroppedFits | lib32/regcache-rbtree.c:534-549 | for every block the range dropped begins at the same register index: that of min, or the one above when min is not a register and the register below it ends its block |
| RegCache.RbTreeCache.WouldDropBelow | lib32/regcache-rbtree.c:521-555 | whether a drop would lose a register below its range can be decided beforehand |
| RegCache.RbTreeCache.Drop | lib32/regcache-rbtree.c:521-555 | exactly the entries from min to max disappear from the map, and with an unaligned min also the register below it if its block goes on behind it |
| RegRuns.AnswersStep | lib32/regcache-rbtree.c:257-555 | one more operation changes the answer owed to a register only if it writes or drops that register |
| RegRuns.OneAnswer | lib32/regcache-rbtree.c:257-274 | a run owes each register one answer and no other |
| RegRuns.RunAll | lib32/regcache-rbtree.c:257-555 | over every run of writes, reads and drops from an empty cache each read returns the last value written to its register and not dropped since, or -ENOENT, up to the first write that makes blocks overlap or the first drop that loses a register below its range; a run whose windows do not wrap and whose drops begin at registers goes through |
| RegRuns.WrapRun | lib32/regcache-rbtree.c:384-478 | with stride 2^27 and two-byte words, writes of registers 12, 30, 17 and 31 to an empty cache grow one block over another, and a read of register 30 then gives -ENOENT |
| RegRuns.UnalignedDropRun | lib32/regcache-rbtree.c:521-555 | a drop of an address just behind a register loses that register |
| RegSync.Search | lib32/regcache.c:651-674 | a hit of the binary search has the register asked for; over sorted registers below 2^31 a miss means there is none, and beyond that the 32-bit difference may lose entries but never invents one |
| RegSync.NeedsSync | lib32/regcache.c:285-299 | only a register whose value is its listed default is left out; over sorted defaults and registers below 2^31, every such register |
| RegSync.SyncBlockSingle | lib32/regcache.c:684-718 | hardware after the ordered updates of the present, writeable registers that need them |
| RegSync.LogRises | lib32/regcache.c:684-718 | the updates of a block go from low to high registers, each once |
| RegSync.RunLength | lib32/regcache.c:729-729 | the 32-bit count of a flush is the length of the run, or 0 exactly when the run is the whole register space |
| RegSync.Flush | lib32/regcache.c:720-746 | a flush adds exactly the pending run of registers, and fails with nothing written if and only if that run is the whole register space |
| RegSync.SyncBlockRaw | lib32/regcache.c:748-788 | the coalesced raw writes, read as consecutive single writes, are the same ordered updates as those of the single form if and only if it is not the case that all registers of the 2^32 space are in the block and wanted; then nothing is written |
| RegSync.FullCircleExample | lib32/regcache.c:720-788 | a block of 32 registers at stride 2^27 in which the single form writes 32 registers and the count of the raw form is 0 |
| RegSync.BlockEffect | lib32/regcache.c:684-788 | after these updates each wanted register holds its value and every other register is unchanged |
| RegSync.LastUpdateWins | lib32/regcache.c:366-375 | after updates in order, those of the patch or of a block, a register holds the value of its last one, and what it held before if there is none |
| RegSync.SyncStep | lib32/regcache-rbtree.c:493-516 | replaying one more block extends the set of registers that agree with the cache by exactly that block's part of the range |
| RegSync.RegMap.SyncTree | lib32/regcache-rbtree.c:480-519 | it fails if and only if a raw write would cover the whole register space, with hardware unchanged; otherwise hardware equals the cache on every present writeable register from min to max, and with an unaligned min also on the register below it if its block goes on behind it, and is unchanged elsewhere |
| RegSync.OnlyBlock | lib32/regcache-rbtree.c:480-519 | a block whose raw write is refused is the only block, so nothing was written before the failure |
| RegSync.RegMap.Sync | lib32/regcache.c:346-402 | if hardware, after the patch, holds the defaults, a sync of a dirty map makes hardware equal to the cache on every present writeable register up to max_register, changes no other register and leaves the cache alone, unless a raw write covers the whole register space, when the map stays dirty; cache_bypass is restored and a clean map does nothing |
| RegSync.RegMap.SyncRegion | lib32/regcache.c:417-460 | the same for any range of a dirty map, which stays dirty; flags are restored and a clean map does nothing |
| HeapBlocks.TakeFront | lib32/malloc.c:239-281 | splitting a free block keeps the tiling of the heap, the lists disjoint, the alignment and the byte total |
| HeapBlocks.JoinSound | lib32/malloc.c:416-428 | joining two adjacent free blocks keeps all of that and the number of free bytes |
| Heap.SizesAligned | lib32/malloc.c:298-343 | every block that does not end the heap has a size that is a multiple of 4 and is followed by another block |
| Heap.FitsRounded | lib32/malloc.c:298-343 | in a heap of a multiple of 4 bytes, a free block that has the bytes asked for also holds the rounded request |
| Heap.RingHeap.HeapInit | lib32/malloc.c:559-581 | the heap has 256 KB for a size of 0 or above 256 KB, and else the size asked for, in one free block 12 bytes shorter; it is sound afterwards if and only if no block was in use, which a second call may violate, and the size holds a header, below which the 32-bit subtraction wraps |
| Heap.RingHeap.AllocateBlock | lib32/malloc.c:239-281 | the block moves to the head of the used list, whole or cut to the request, its remainder takes its place in the free list, the heap stays sound, and every header stored to is that of a block before or after |
| Heap.RingHeap.FindFit | lib32/malloc.c:320-325 | the walk along the free list ends at the first block that is large enough, with the block before it, or there is none |
| Heap.RingHeap.Malloc | lib32/malloc.c:298-343 | for a legal size NULL exactly when no free block holds it rounded up to a multiple of 4, which in a heap of a multiple of 4 bytes is when every free block has fewer bytes than asked for; else the first block that does, whole if less than 16 bytes would be left and otherwise cut behind the rounded size, with its rest at its place in the free list; fewer than 19 bytes are wasted; no byte of a live block changes, and no two more free blocks touch |
| Heap.HeaderOutside | lib32/malloc.c:239-281 | no header of any block of a sound heap overlaps the payload of a used block |
| Heap.HeadersKeep | lib32/malloc.c:239-480 | memory in which only headers of the old or new blocks were overwritten still holds every byte of the blocks used before and after |
| Heap.RingHeap.HRemove | lib32/malloc.c:389-407 | the entry leaves the free list and the used list is untouched |
| HeapCompact.CompactKeeps | lib32/malloc.c:410-431 | from any sound heap compaction keeps it sound, with the same used blocks and the same number of free bytes |
| HeapCompact.LeftoverPair | lib32/malloc.c:356-431 | if no two free blocks touched before, compaction leaves none touching if and only if it is not the case that both neighbours of the freed block were free, the preceding one came earlier in the list than the following one, and was not first; and in that case exactly one pair is left |
| HeapCompact.FreedIs | lib32/malloc.c:356-431 | the free list and the sizes afterwards, case by case: no neighbour, the block heads the list; only the following one free, the block heads the list grown by it; only the preceding one, or both in the order that compaction misses, the preceding one grows in place; both otherwise, the preceding one grows by both and the following one leaves |
| HeapCompact.MissedExample | lib32/malloc.c:356-431 | a heap of five blocks in which free leaves two adjacent free blocks |
| HeapRuns.MissedRun | lib32/malloc.c:298-480 | five mallocs and four frees that reach such a state from an initialised heap |
| HeapPairs.JoinPairs | lib32/malloc.c:416-428 | a join of two touching free blocks makes exactly one touching pair fewer |
| HeapPairs.CompactStretches | lib32/malloc.c:410-431 | from any sound heap compaction keeps the number of stretches of free memory, and joins at least once when the list head touches another entry |
| HeapPairs.FreedPairs | lib32/malloc.c:437-480 | in any sound heap, fully compacted or not, free starts a new stretch, extends one or joins two, as none, one or both neighbours are free, and the touching pairs grow by at most one, and only in the last case |
| HeapPairs.TakenPairs | lib32/malloc.c:239-281 | malloc makes no new touching pair |
| Heap.RingHeap.CompactList | lib32/malloc.c:410-431 | the pointer loop, which goes on from a block it has just unlinked, computes that compaction |
| Heap.RingHeap.Free | lib32/malloc.c:437-480 | the block leaves the used list, the free list is the compaction of the old one behind it, uMemFree counts the free bytes modulo 2^32, no byte of a live block changes, and at most one more pair of free blocks touches, and that only when both neighbours were free |
| Heap.RingHeap.Move | lib32/malloc.c:536-543 | the bytes that fit are copied before the old block is given back, and no third block changes |
| Heap.RingHeap.Realloc | lib32/malloc.c:507-544 | it fails exactly when malloc does, and then nothing changes; the new block is a former free block with fewer than 19 bytes to spare and starts with the old contents up to the shorter length, the old block is gone, every other live block keeps its size and bytes |
| KListRuns.StepKeeps | lib32/klist.c:109-365 | every step, with a counting kref_get, keeps each count equal to one for a node not deleted plus the iterators on it, a node linked exactly while its count is positive, and one put for each get whose node is gone |
| KListRuns.RunCounted | lib32/klist.c:109-365 | the same in every state of every interleaving |
| KListRuns.StepOrder | lib32/klist.c:109-365 | no step changes the order of the nodes that stay, with a counting kref_get or the shipped one |
| KListRuns.NextOrder | lib32/klist.c:334-364 | between the node an iterator leaves and the one it reaches, every linked node is dead |
| KListRuns.FullIteration | lib32/klist.c:334-364 | a full iteration, interleaved with any other steps, returns each node alive throughout exactly once, two such nodes in list order, and never a dead node |
| KListRuns.ExitReaches | lib32/klist.c:312-318 | with a counting kref_get klist_iter_exit always finds the list of the node it leaves |
| KListRuns.RemoveAtOnce | lib32/klist.c:239-259 | the release klist_remove waits for has run by the end of klist_del if and only if no iterator stands on the node |
| KListShipped.ShippedStep | include/linux/kref.h:40-47 | with the shipped kref_get, which increments nothing, a step keeps the counts right if and only if no iterator reaches a node in it |
| KListShipped.ShippedRun | include/linux/kref.h:40-47 | and a run has right counts throughout if and only if no iterator ever reaches a node |
| KListShipped.ShippedExample | include/linux/kref.h:40-47 | iterating once over a list of one node, from the empty list on, unlinks it although nobody deleted it, and a klist_del of it then follows a NULL list |
| KListShipped.ExitExample | lib32/klist.c:205-318 | deleting the node an iterator stands on unlinks it at once, and klist_iter_exit then follows a NULL list |
| KListShipped.ReleasedExample | lib32/klist.c:334-364 | two iterators on three nodes: klist_next returns a node that was unlinked and put before, and the count of the node it leaves falls to -1 |
| KListShipped.AlwaysSingle | include/linux/kref.h:40-47 | in every state of every run with it, whatever iterators stand on, each linked node has one reference, an unlinked node has none or fewer, no node is dead, n_klist is set exactly in the linked nodes, and put has run once for each get whose node is gone |
| KListShipped.LinkedStep | lib32/klist.c:109-365 | a step with it, also one that starts from an unlinked node, leaves a node linked if and only if it adds the node, or the node was linked and the step neither deletes it nor takes an iterator off it |
| KListShipped.StandsLinked | lib32/klist.c:205-365 | over any interleaving with it, a node that was linked when an iterator reached it is still linked if and only if since then every reference given up to it, by klist_del or by any iterator leaving it, was followed by adding it anew |
| KListShipped.ReachesIff | lib32/klist.c:210-318 | under the same condition, and only then, klist_del and klist_iter_exit find the list of the node instead of NULL |
| KListShipped.StaleSince | lib32/klist.c:184-203 | the next link of a node that is not linked leads where it led when the node was unlinked, through everything that happens in between |
| KListShipped.CountSince | include/linux/kref.h:67-99 | the count of an unlinked node is minus the number of times klist_next has left it since |
| KListShipped.NextLinkedIff | lib32/klist.c:334-364 | over any interleaving from the empty list, klist_next returns the next linked node from a linked one, and from an unlinked node what was behind it when it was unlinked; it returns a node that is not linked if and only if a reference to that one has been given up since and it was not added anew |
| KListShipped.RemoveShipped | lib32/klist.c:239-259 | with it klist_del unlinks the node and runs put at once, whoever stands on it, so klist_remove never waits |
| KListShipped.ShippedSweep | lib32/klist.c:334-364 | an undisturbed iteration with it, over any list, returns every node once and in order, and leaves the list empty with one put for each node |
| KListHeld.HeldIteration | lib32/klist.c:334-364 | an iteration with it, interleaved with any other steps, during which nobody else gives up a reference to the node it stands on, returns only linked nodes, and each node that was linked at first and that nobody else deletes, leaves or adds anew exactly once and in list order |
| KList.Klist.Next | lib32/klist.c:334-364 | klist_next, following links from a linked or an unlinked node while the node it leaves may be unlinked, does the step, returns the node the specification names and leaves the iterator on it |
| KList.Klist.Leave | lib32/klist.c:334-347 | the next link of a node, linked or not, is read before the node is put, which the step does in the other order |
| KList.Klist.Depart | lib32/klist.c:340-347 | after that put the loop still finds the node it would have found before, also when the put has unlinked the last node |
| KList.Klist.SkipDead | lib32/klist.c:348-357 | following next links from any link, also one to an unlinked node, ends at the first node that is not dead, or at the head |
| SeqText.PieceAt | lib32/seq_file.c:104-161 | each record that prints is the piece of the file between the texts before and after it |
| SeqFile.SeqFile.TraverseRecord | lib32/seq_file.c:120-158 | one round of traverse: onward with the next record, or the file stands at the offset, or the error of the record, or a doubled buffer |
| SeqFile.SeqFile.Traverse | lib32/seq_file.c:104-161 | success leaves buffer and index at exactly the offset; -EAGAIN comes with a doubled buffer that was too small for some record; an error only if a failing record lies before the offset |
| SeqFile.SeqFile.Position | lib32/seq_file.c:197-210 | the retry loop ends, at the offset or reset to position 0 |
| SeqFile.SeqFile.FirstRecord | lib32/seq_file.c:236-267 | the loop ends with at least one byte of the file in a buffer that is not full, or at the end of the file or a failing record, however often the buffer grows |
| SeqFile.SeqFile.Fill | lib32/seq_file.c:268-286 | records added behind stay a contiguous piece of the file; an overflow or error gives the partial record up |
| SeqFile.SeqFile.Read | lib32/seq_file.c:172-314 | exactly the slice of the file at the position, at least one byte unless the file ends or a record fails there, and the error only when nothing was read |
| SeqFile.SeqFile.Lseek | lib32/seq_file.c:324-359 | SEEK_CUR from a position goes to position plus offset and SEEK_SET to offset, and returns that; with a failing record before it, back to 0 with the error of that record; for a negative goal or any other whence -EINVAL and no change |
| SeqFile.RunAll | lib32/seq_file.c:172-359 | over any sequence of reads and seeks each read is the slice of the file at the position it starts from, with its length or the error of a failing record, and each seek does what seq_lseek is for |
| SeqFile.ReadToEnd | lib32/seq_file.c:172-314 | reading to the end with a different size for each read gives the concatenation of the records, nothing lost, repeated or reordered |
| HeapSort.SiftStep | lib32/misc.c:684-692 | moving the larger child up moves the one place where the heap may be broken down to that child |
| HeapSort.RootLargest | lib32/misc.c:695-697 | the root of a heap is a largest entry |
| HeapSort.SiftDown | lib32/misc.c:684-692 | the loop over byte offsets restores the heap and only rearranges the prefix it works on |
| HeapSort.Sort | lib32/misc.c:672-708 | an ordered permutation of the input for every total preorder and every array whose size in bytes is below 2^31, as the int offsets of the source need |
| StrScpy.ZeroMask | lib32/strscpy.c:36-52 | the bit tricks find a zero byte exactly when there is one and mask the bytes before the first, also with several zero bytes or a 0x01 above a zero |
| StrScpy.WordZero | lib32/strscpy.c:36-60 | has_zero and create_zero_mask give the mask up to the first zero byte of the word in memory |
| StrScpy.CopyWord | lib32/strscpy.c:98-112 | one round of the word loop copies the bytes before the first zero byte and a zero, or all four |
| StrScpy.CopyBytes | lib32/strscpy.c:114-129 | the byte loop ends with the string, or what fits of it, ended by a zero |
| StrScpy.Copy | lib32/strscpy.c:85-130 | for every source, count and alignment the result is the index of the first zero byte if that is below count, and dest holds the bytes up to it; otherwise -E2BIG, and dest holds count - 1 bytes and a zero; nothing beyond count changes |
| StrScpy.PathsAgree | lib32/strscpy.c:85-130 | hence the word path and the byte loop alone give the same result and the same string |
| RbTree.RbRoot.RotateAt | lib32/rbtree.c:142-185 | cases 2 and 3, on either side, end the insertion with a red-black tree over consistent links and the same in-order sequence |
| RbTree.RbRoot.RedSibling | lib32/rbtree.c:245-263 | case 1 of the erase loop leaves the same place one black node short, now below a red parent |
| RbTree.RbRoot.RedNephew | lib32/rbtree.c:295-354 | cases 3 and 4, on either side, end the erase loop with a red-black tree over consistent links and the same in-order sequence |
| RbTree.RbRoot.FindSuccessor | include/linux/rbtree_augmented.h:235-276 | the walk ends at the in-order successor and its parent |
| RbTree.RbRoot.ReplaceBySuccessor | include/linux/rbtree_augmented.h:234-298 | the tree without the node, and the place that is one black node short if there is one |
| RbTree.RbRoot.TakePlace | include/linux/rbtree_augmented.h:285-295 | the stores from __rb_change_child on, in the order of the source, equal those in which the parent link comes last; the place to rebalance is below the parent exactly when the successor was black and had no child |
| RbTree.RbRoot.SpliceOut | include/linux/rbtree_augmented.h:210-233 | the same for a node with at most one child |
| RbTree.RbRoot.Outermost | lib32/rbtree.c:469-492 | the first or last node of a subtree in in-order sequence |
| CacheBlock.GrowBuffer | lib32/regcache-rbtree.c:293-320 | the values move up by the offset, however far the two ranges overlap |
| RegCache.RbTreeCache.WritePresent | lib32/regcache-rbtree.c:398-401 | a write to a covered register replaces or adds exactly its entry |
| RegCache.RbTreeCache.InsertNode | lib32/regcache-rbtree.c:100-133 | linking and rebalancing a block that no other covers adds exactly its entry to the map |
| RegCache.RbTreeCache.DropBlock | lib32/regcache-rbtree.c:534-551 | exactly the block's entries in the range disappear, and no block changes its range |
| RegSync.RegMap.SyncBlock | lib32/regcache.c:790-801 | both forms of replay have the same effect on hardware, unless the raw form refuses |
| HeapRuns.StillKnown | lib32/malloc.c:298-544 | a block that keeps its size and payload keeps every byte its owner knows |
| HeapRuns.OwnByte | lib32/malloc.c:298-544 | a byte stored in one live block is in no other and in no header |
| HeapRuns.Continue | lib32/malloc.c:298-544 | over every run of malloc, free, realloc, stores and loads from any sound heap the client sees separate buffers, each load returns the byte last stored at its place, also across realloc, and at most one more pair of free blocks touches for each free or realloc |
| HeapRuns.RunAll | lib32/malloc.c:298-581 | the same from the initialisation of the heap on |
| KListRuns.EmptyCounted | lib32/klist.c:85-92 | a new list meets the invariant, so it holds in every state reachable from it |
| KListSpec.AttachKeeps | lib32/klist.c:109-171 | linking a node anywhere, with one reference and one get, keeps the count invariant |
| KListSpec.DelKeeps | lib32/klist.c:205-232 | klist_del, which marks the node dead and unlinks it with its last reference, keeps it |
| KListSpec.LandKeeps | lib32/klist.c:281-301 | putting an iterator on a linked node keeps it |
| KListSpec.LeaveKeeps | lib32/klist.c:312-318 | an iterator stands on a linked node, dead or not, and leaving it keeps the invariant |
| KList.RingInsert | include/linux/list.h:39-47 | the four stores of __list_add between two neighbouring places give the ring with the node there and nothing else changed |
| KList.RingRemove | include/linux/list.h:72-82 | the two stores of __list_del give the ring without the node |
| KList.Klist.ListAdd | include/linux/list.h:52-55 | the node stands right after the given list_head in the order of the links, wherever that is in the ring |
| KList.Klist.ListAddTail | include/linux/list.h:60-63 | the node stands right before the given list_head |
| KList.Klist.ListDel | include/linux/list.h:79-82 | the order of the links loses the node alone, and the next link of the node still leads to what was behind it |
| KList.Klist.AddHead | lib32/klist.c:123-127 | the list is the node followed by the old list; the node has one reference and one get more and is not dead; every other count, every cursor and every dead mark stays |
| KList.Klist.AddTail | lib32/klist.c:135-139 | the list is the old list followed by the node, found through the head's prev link; otherwise the same |
| KList.Klist.AddAfter | lib32/klist.c:147-155 | the node stands directly behind the other one, dead or not, with the nodes before and behind unchanged; otherwise the same; NULL is followed exactly when the other node is not linked |
| KList.Klist.AddBefore | lib32/klist.c:163-171 | the node stands directly before the other one, found through its prev link; otherwise the same; NULL is followed exactly when the other node is not linked |
| KList.Klist.Del | lib32/klist.c:205-232 | klist_del reaches a list, and then unlinks or marks the node as the step says, exactly when the node is linked |
| KList.Klist.IterInitNode | lib32/klist.c:281-301 | the iterator stands on the start node, which gains one reference if kref_get counts; the list, the other cursors and counts and all marks stay |
| KList.Klist.IterExit | lib32/klist.c:312-318 | klist_iter_exit reaches a list exactly when the node it leaves, if any, is linked; then the iterator stands nowhere and no other cursor moves |
| KList.Klist.NodeAttached | lib32/klist.c:266-269 | klist_node_attached is true exactly for the nodes in the list |
| SeqFile.SeqFile.Flush | lib32/seq_file.c:218-235 | what was buffered comes first and is the next piece of the file; the rest stays at the new position |
| SeqFile.SeqFile.Take | lib32/seq_file.c:286-297 | the bytes handed over and those kept are consecutive pieces of the file |
| SeqFile.SeqFile.Transfer | lib32/seq_file.c:212-297 | buffered bytes and new records together are one slice of the file |
| StrScpy.FindZeroIs | lib32/strscpy.c:24-31 | count_masked_bytes turns the mask into the index of the first zero byte |

## Left out

- The mirrored branches of the red-black loops are one model with a side parameter; `rb_last` and `rb_prev`, the mirror images of `rb_first` and `rb_next`, and the postorder walks are not separate members.
- `rb_replace_node`, augmented callbacks and the RCU variants.
- The cache with a read table (`rd_table`), debugfs output, the flat and LZO caches, and `regcache_hw_init`.
- The packing of values into 1, 2, 4 or 8 bytes (`regcache_set_val`, `regcache_get_val`): a block holds the values themselves.
- Failing allocations everywhere, and failing bus writes in a sync; `krealloc` is content-preserving growth, `_regmap_write` and `_regmap_raw_write` update a hardware map.
- RegRuns.RunAll: ends at a write that makes blocks overlap and at a drop that loses a register below its range, because what later reads then return depends on which block the shortcut holds.
- RegCache.RbTreeCache.Drop: needs min <= max, because otherwise the source passes a negative length to bitmap_clear.
- RegCache.RbTreeCache.DropBlock: likewise.
- RegCache.DropTests: likewise.
- RegSync.RegMap.SyncRegion: needs min <= max too.
- RegSync.RegMap.Sync: every write to the bus succeeds, but for a raw write of no registers.
- `_regmap_raw_write` refuses a write of no registers and no other.
- RegSync.RegMap.SyncBlock: the cache_bypass toggle around each single write is not modelled, since nothing reads it in between and both callers put it back.
- What the bytes of a heap header are: its two fields are kept beside the memory they occupy, and a store into a header sets those bytes to something.
- Heap.RingHeap.Free: is for NULL or a live block; any other pointer makes the source count memory it reads as a header into uMemFree.
- HeapRuns.RunAll: is for a heap that holds a header; RingHeap.HeapInit says what a smaller size leads to.
- `HeapCheck`, `SignatureCheck`, the signatures and the diagnostic counters.
- AreaSearch.FindNextZeroArea: is for an ffz that meets its documentation, because with the shipped one the search need not end (AreaSearch.ShippedEndsIff), and for searches that end (AreaSearch.DocumentedEndsIff).
- AreaSearch.ShippedPassIff: is, like BackIff, BackForever and ShippedEndsIff, for maps so far below 2^32 bits that no index or rounded index leaves 32 bits, whatever bsf makes of 0.
- `bitmap_set`, the `__reg_op` family and the pointwise bitmap operations, which would add only easy members, and the little-endian searches.
- BitmapText.PrintList: has a buffer that is large enough; truncation by a short one is left to snprintf.
- BitmapHexText.PrintHex: likewise.
- Bitmap texts in user space, and the newline at which `bitmap_parselist` cuts a text before it is parsed.
- `fls` is taken at its documented meaning instead of by halving.
- KListRuns.StepKeeps: is for a `kref_get` that counts; for the shipped one KListShipped.LinkedStep takes its place.
- KListRuns.RunCounted: likewise, with KListShipped.AlwaysSingle in its place.
- KListRuns.FullIteration: likewise, with KListShipped.ShippedSweep and KListHeld.HeldIteration in its place.
- KListRuns.RemoveAtOnce: likewise, with KListShipped.RemoveShipped in its place; beyond that nothing is said of `klist_remove`, since `schedule` does nothing here.
- KListSpec.LandKeeps: is for a `kref_get` that counts, as is KListSpec.LeaveKeeps.
- klist nodes stay in memory after their put; what a function that follows a NULL list does then, and counts that pass -2^31, are not modelled.
- The 2^32 limit on a doubled seq_file buffer, `f_version`, and the locks, each of which makes one call atomic.
- SeqFile.SeqFile.Show: what `show` appends follows the overflow convention of seq_file.h:28-42, since the printing functions are empty there.
- The `generic_swap` and `u32_swap` loops of sort: an element is one value.
- The drv32 code, IOCTL, MIDI, PCI, timer and lock plumbing, and devres.
