# The ntdll runtime routines

This project models the data-structure and arithmetic routines of `libs/ntdll` — the AVL table, the
bottom-up splay tree, the generic table, bitmaps, 64-bit division, calendar conversion, LZNT1
decompression, access control lists and event objects — and proves what they are for. `dafny verify
dfyconfig.toml` checks it.

## How it is laid out

**Trees of linked nodes.** `LinkTrees` has the node object, `Links`, with the pointers of
RTL_SPLAY_LINKS and RTL_BALANCED_LINKS, and the value `Tree` that says which tree the pointers form
(`Rooted`). A `Context` is a tree with one subtree cut out, so that what happens at some depth is a
change of the subtree in the hole. Each routine that rewrites pointers is a method on the objects; its
contract names the tree that they form afterwards, and lemmas say what that tree is.

- `Splay`, `SplayCost`: RtlSplay's six cases, and their amortised cost.
- `SwapLinks`, `SplayDelete`, `DeleteCost`, `Walks`: exchange of two nodes, deletion and its amortised
  cost, neighbours in the order.
- `AvlShape`, `AvlRebalance`, `AvlInsert`, `AvlDelete`, `AvlTable`: the AVL algorithms and the table.
- `TableCursor`, `AvlPass`: enumerations, and what insertions and deletions in between do to them.
- `Searching`: what a search with a compare routine means along a sequence.
- `TopDownSplay`, `TopDownCost`, `InsertOrder`, `GenericTable`, `GenericRun`: the generic table, its
  splay with the amortised cost, its list, and runs of its routines.

**Words and bytes.** `Limits`, `Words`, `Bitmap`, `BitmapHistory`; `Powers`, `Division`; `Calendar`,
`TimeFields`; `Bytes`, `Lznt1`, `Acl`.

**Events.** `Events` is a state machine whose steps are what one thread does under an event's mutex;
`EventRuns` says what holds over all its runs.

## Where the code stops short

What a caller would expect of these routines does not hold of the code in every case. The lemmas and
contracts named here say exactly when it does.

- A thread that waits with a Timeout may use up a signal and time out all the same, as POSIX allows
  pthread_cond_timedwait to, and NtWaitForSingleObject then leaves without another look. A
  SynchronizationEvent can so stay signaled while another thread stays blocked
  (`EventRuns.LosingRunLoses`). That never happens to a NotificationEvent, nor where no wait on the event
  has a Timeout, and otherwise it can wherever there are two threads (`EventRuns.EventsAreSafe`).
- RtlFindClearBits never grants the whole bitmap, even an all-clear one; for every other request it is
  complete, up to the very end (`Bitmap.ClearBitsFirstFit`).
- RtlFindClearBits and RtlFindSetBits read outside the bitmap exactly when the sum of a hint and a
  length that the bitmap has room for reaches 2^32 (`Bitmap.BitMap.RtlFindClearBits`). RtlAreBitsClear
  and RtlAreBitsSet can do so for starts behind the size only: exactly when the start is behind the
  last word too, or the rest of that word does not stop the scan (`Bitmap.BitMap.RtlAreBitsClear`).
- RtlDeleteElementGenericTable goes through a null pointer exactly when the element is the greatest
  (`GenericTable.Table.RtlDeleteElementGenericTable`), and so with every table of one element
  (`GenericTable.DeleteOnly`).
- In splay.c, parent links are written but never read. Splays and deletions keep them right; an
  insertion does so exactly when the new element is the least or the greatest
  (`GenericTable.Table.RtlInsertElementGenericTable`), as the one child that comes to the new root from
  the old one is not told. Three elements are enough for wrong ones (`GenericTable.InsertBetween`). The
  table's invariant is on child links only.
- RtlCreateAcl with a size above 0xfffc succeeds, but records a size of 0; the result is a usable list
  exactly when the size is at most 0xfffc and its rounded-up value fits the buffer (`Acl.RtlCreateAcl`).
- RtlTimeToTimeFields divides as unsigned, because its constant is. The year fits its field exactly for
  the first 11383512 days from 1601 on, up to the end of 32767; every tick count that is not negative
  lies well within them (`TimeFields.RtlTimeToTimeFields`).

## Model

| member | source | states |
|---|---|---|
| `Splay.RtlSplay` | libs/ntdll/splaytree.c:415-754 | the node becomes the root of a well-linked tree with the same in-order sequence, after exactly half its depth in rounds, rounded up |
| `SplayCost.AccessLemma` | libs/ntdll/splaytree.c:415-754 | a splay's rounds and its change of potential together are at most three times the logarithm of the size, plus one |
| `SplayCost.AmortisedBound` | libs/ntdll/splaytree.c:415-754 | m splays of a tree of n nodes take at most m(3 log n + 1) + n log n rounds, whatever the tree and the nodes |
| `SwapLinks.SwapSplayLinks` | libs/ntdll/splaytree.c:48-173 | two arbitrary nodes exchange places, also when one is the other's parent or the root; all other links stay as they are |
| `SwapLinks.FixupChildLinks` | libs/ntdll/splaytree.c:20-45 | a node's children and its parent point back at it, and nothing else changes |
| `SwapLinks.TradedOrder` | libs/ntdll/splaytree.c:48-173 | an exchange replaces the two nodes by each other in the in-order sequence, and no other |
| `SwapLinks.TradeIsSymmetric` | libs/ntdll/splaytree.c:48-173 | it makes no difference in which order the two nodes are named |
| `SplayDelete.RtlDelete` | libs/ntdll/splaytree.c:175-258 | the node leaves the order of a well-linked tree, which is null exactly when it was the last one; returned is its old parent, which comes to the root, or its only child where it was the root; of a node with two children, the old parent of its predecessor, which is the predecessor itself where that was its left child |
| `SplayDelete.OneChildCells` | libs/ntdll/splaytree.c:191-257 | the three pointers of every other node after the deletion of a node with at most one child, from those before: the child hangs where the node hung |
| `SplayDelete.TwoChildrenCells` | libs/ntdll/splaytree.c:182-257 | the same for a node with two children: its predecessor takes its place, and the left child of the predecessor that of the predecessor |
| `SplayDelete.DeletedRoot` | libs/ntdll/splaytree.c:190-257 | of a node with at most one child, the parent comes to the root; of the root itself, the child |
| `SplayDelete.DeletedPromotes` | libs/ntdll/splaytree.c:182-257 | of a node with two children, the parent of its predecessor comes to the root, or the predecessor where that is its child |
| `DeleteCost.DeletionPays` | libs/ntdll/splaytree.c:175-258 | the rounds of the splay in a deletion and its change of potential together are at most three times the logarithm of the size, plus one |
| `DeleteCost.DeletionBound` | libs/ntdll/splaytree.c:175-754 | m deletions and splays, in any order, of a tree of n nodes take at most m(3 log n + 1) + n log n rounds |
| `DeleteCost.ServeAll` | libs/ntdll/splaytree.c:175-754 | RtlSplay and RtlDelete over any such run: the tree they form, and the bound on their rounds |
| `SplayDelete.RtlDeleteNoSplay` | libs/ntdll/splaytree.c:260-352 | the same without the splay; the root pointer stays or, where the root is deleted, becomes its only child or its predecessor |
| `SplayDelete.RtlSubtreePredecessor` | libs/ntdll/splaytree.c:756-774 | the last node of the left subtree |
| `Walks.RtlRealPredecessor` | libs/ntdll/splaytree.c:354-381 | the node before in the order; null for the first |
| `Walks.RtlRealSuccessor` | libs/ntdll/splaytree.c:383-410 | the node after in the order; null for the last |
| `AvlRebalance.RtlpPromoteAvlTreeNode` | libs/ntdll/c/avlsupp.c:97-123 | a rotation of node and parent keeps the order and all links right |
| `AvlRebalance.RtlpRebalanceAvlTreeNode` | libs/ntdll/c/avlsupp.c:125-204 | a subtree that leans by two is rotated to one with the same order; the stored balances, and whether the height stays, are those of the result |
| `AvlRebalance.NewTiltIsTilt` | libs/ntdll/c/avlsupp.c:125-204 | every balance factor stored by a rebalancing is right height minus left height in the new tree |
| `AvlShape.RebalancedIsAvl` | libs/ntdll/c/avlsupp.c:125-204 | the rotated subtree is in balance, and one lower except when the high child was level |
| `AvlShape.AvlSize` | libs/ntdll/c/avlsupp.c:206-291 | a balanced tree of height h has at least Fib(h + 2) - 1 nodes |
| `AvlInsert.ClimbGrown` | libs/ntdll/c/avlsupp.c:247-290 | one round of the climb after insertion: balances true below, the subtree grown, or all done and the depth known through the balance set on the table's own node |
| `AvlDelete.ClimbShrunk` | libs/ntdll/c/avlsupp.c:344-374 | one round of the climb after deletion: balances true below, the subtree shrunk, or all done and the depth known |
| `AvlDelete.CutShrinks` | libs/ntdll/c/avlsupp.c:321-342 | cutting out a node with at most one child leaves all balances true but on the way up |
| `AvlDelete.ChooseStead` | libs/ntdll/c/avlsupp.c:301-318 | the node cut out in a node's stead is its neighbour in the order, and lacks a child |
| `AvlDelete.TakeOver` | libs/ntdll/c/avlsupp.c:379-392 | the node cut out takes the deleted node's place: links, balance, and the pointers at it |
| `AvlTable.Table.constructor` | libs/ntdll/avltable.c:24-39 | an empty table whose own node is its own parent |
| `AvlTable.Table.Find` | libs/ntdll/c/avlsupp.c:30-95 | a matching element, or the empty place between those the buffer is greater and those it is less than; at most DepthOfTree comparisons |
| `AvlTable.Table.RtlpInsertAvlTreeNode` | libs/ntdll/c/avlsupp.c:206-291 | one element more, in its place in the order; links and balances right; DepthOfTree grows exactly as the height does |
| `AvlTable.Table.RtlpDeleteAvlTreeNode` | libs/ntdll/c/avlsupp.c:293-393 | exactly that node leaves the order; links and balances right; DepthOfTree is the height |
| `AvlTable.Table.RtlInsertElementGenericTableFullAvl` | libs/ntdll/avltable.c:44-96 | returns the found node, null when allocation fails, or a new node hung where the search ended |
| `AvlTable.Table.RtlInsertElementGenericTableAvl` | libs/ntdll/avltable.c:101-121 | an element is added exactly when none matches and memory is there; the table stays in ascending order, and an enumeration under way will hand the element out exactly when it lands after the cursor |
| `AvlTable.Table.RtlLookupElementGenericTableAvl` | libs/ntdll/avltable.c:148-181 | finds what linear search finds, for every total preorder, in at most DepthOfTree comparisons |
| `AvlTable.Table.DepthBound` | libs/ntdll/c/avlsupp.c:206-291 | a table has at least Fib(DepthOfTree + 2) - 1 elements, so that DepthOfTree is at most 45 |
| `AvlTable.Table.RtlDeleteElementGenericTableAvl` | libs/ntdll/avltable.c:295-324 | a matching element leaves the table, and an enumeration under way goes on as if it had never been there |
| `AvlTable.Table.RtlDeleteElementGenericTableAvlEx` | libs/ntdll/avltable.c:331-348 | the same for a node; element count, delete count and ordered pointer |
| `AvlTable.Table.RtlEnumerateGenericTableWithoutSplayingAvl` | libs/ntdll/avltable.c:245-278 | hands out the first element after the caller's cursor, and moves the cursor there; at the end it stays |
| `AvlTable.Table.RtlEnumerateGenericTableAvl` | libs/ntdll/avltable.c:186-197 | the same with the table's cursor, from the start if asked to |
| `AvlTable.Table.RtlLookupFirstMatchingElementGenericTableAvl` | libs/ntdll/avltable.c:202-240 | the leftmost match, for any key whose matches are contiguous in the order |
| `TableCursor.CursorSteppedBack` | libs/ntdll/avltable.c:308 | stepping the cursor back from a node about to be deleted leaves what is still to come unchanged |
| `TableCursor.CursorKept` | libs/ntdll/avltable.c:295-324 | deleting another node deletes it from what is still to come, and moves nothing else |
| `TableCursor.FullPass` | libs/ntdll/avltable.c:245-278 | over any run of enumeration steps, deletions and insertions that ends the pass, every element that was there or lands ahead of the cursor is handed out exactly once unless it is deleted, no other is, and those that were there come in order |
| `AvlPass.RunSteps` | libs/ntdll/avltable.c:101-348 | for every run of enumerations, insertions and deletions, each request leads to the one step that the elements and what is still to come allow: an insertion takes place exactly if nothing matches and memory is there, in the one place of the order and of the enumeration, a deletion exactly if something matches; the table holds, has handed out, and has still to hand out what those steps say |
| `AvlPass.RunPass` | libs/ntdll/avltable.c:101-348 | a pass that these steps finish hands out, once, every element that was there or was added ahead of the cursor and is not removed, and no other; those that were there come in order |
| `Searching.AscendingSorts` | libs/ntdll/c/avlsupp.c:46-94 | in ascending order, every key compares first greater, then equal, then less |
| `Searching.OnlyMatch` | libs/ntdll/avltable.c:148-181 | in a linear order at most one element matches, and linear search finds it |
| `TopDownSplay.Splay` | libs/ntdll/splay.c:99-186 | the tree keeps its in-order sequence and, where they were right, its parent links; the result is whether an equal item is at the root, and if not, the root divides the lesser from the greater items; tree and rounds are those of the splay on values |
| `TopDownSplay.SplitRoot` | libs/ntdll/splay.c:213-238 | the new element becomes the root; right parent links stay right exactly where it has nothing on one side |
| `TopDownCost.TopDownAccess` | libs/ntdll/splay.c:99-186 | a top-down splay's rounds and twice its change of potential together are at most six times the logarithm of the size, plus two, whatever is compared |
| `TopDownCost.TopDownBound` | libs/ntdll/splay.c:99-186 | m searches of a tree of n elements take at most m(6 log n + 2) + 2 n log n rounds |
| `GenericRun.RunRequests` | libs/ntdll/splay.c:99-314 | for every run of insertions, searches and deletions, each request leads to the step that the list allows, up to the first fault, which comes exactly where the greatest element is to be deleted; the table lists what the steps leave, and all rounds of all splays together are paid for by a logarithmic fee for each request and the potential released |
| `GenericRun.RunFromEmpty` | libs/ntdll/splay.c:70-314 | m requests to a new table take at most m(12 log m + 4) rounds |
| `GenericRun.EnumerateAll` | libs/ntdll/splay.c:316-330 | an enumeration from the start to the end hands out the elements in the order of insertion, each once |
| `GenericTable.Table.SplayTable` | libs/ntdll/splay.c:99-186 | 1 exactly when an equal item is in the table, which is then at the root; the order is kept |
| `GenericTable.Table.InsertAtRoot` | libs/ntdll/splay.c:216-238 | splitting the tree at the root around the new item keeps search-tree order |
| `InsertOrder.Append` | libs/ntdll/splay.c:241-257 | the circular doubly linked list gets the entry at its end, in both cases of the source |
| `InsertOrder.Unlink` | libs/ntdll/splay.c:298-304 | the circular doubly linked list without the entry |
| `GenericTable.Table.constructor` | libs/ntdll/splay.c:70-82 | an empty tree and an empty ring |
| `GenericTable.Table.SameMatch` | libs/ntdll/splay.c:99-186 | searching the tree and searching the insertion-ordered list find the same element |
| `GenericTable.Table.RtlInsertElementGenericTable` | libs/ntdll/splay.c:188-266 | an element is appended to the list, and put in order into the tree, exactly when none matches and memory is there; without memory, *NewElement keeps its value; parent links stay right exactly when the new element is the least or the greatest; the rounds are paid for |
| `GenericTable.Table.RtlLookupElementGenericTable` | libs/ntdll/splay.c:268-274 | finds what linear search along the list finds, and changes neither sequence |
| `GenericTable.Table.RtlDeleteElementGenericTable` | libs/ntdll/splay.c:276-314 | the matching element leaves both sequences, and parent links stay right; it faults exactly when that element is the greatest |
| `GenericTable.DeleteOnly` | libs/ntdll/splay.c:276-314 | a new table, one insertion, and the deletion of that element faults |
| `GenericTable.InsertBetween` | libs/ntdll/splay.c:188-266 | a new table, three insertions, the last between the others, and the parent links are wrong |
| `GenericTable.Table.RtlEnumerateGenericTableWithoutSplaying` | libs/ntdll/splay.c:316-330 | the elements in the order of insertion, each once |
| `Bitmap.BitMap.RtlpGetLengthOfRunClear` | libs/ntdll/bitmap.c:69-116 | the length of the run of clear bits, or the given maximum where the run is at least that long; for a start behind the size, exactly when the scan goes outside the bitmap, and what it takes for a run when not |
| `Bitmap.BitMap.RtlpGetLengthOfRunSet` | libs/ntdll/bitmap.c:118-165 | the same for set bits |
| `Bitmap.BitMap.RtlClearBits` | libs/ntdll/bitmap.c:267-322 | clears exactly the bits of the range, for every alignment and length |
| `Bitmap.BitMap.RtlSetBits` | libs/ntdll/bitmap.c:324-379 | sets exactly the bits of the range, for every alignment and length |
| `Bitmap.BitMap.RtlFillMemoryUlong` | libs/ntdll/rtl.c:644-655 | fills the whole words that the byte count covers, and no other |
| `Bitmap.BitMap.RtlAreBitsClear` | libs/ntdll/bitmap.c:391-399 | whether all bits of the range are clear and inside the bitmap; for a start behind the size, exactly when it reads outside, and what it answers when not |
| `Bitmap.BitMap.RtlAreBitsSet` | libs/ntdll/bitmap.c:401-409 | the same for set bits |
| `Bitmap.BitMap.BehindTheSize` | libs/ntdll/bitmap.c:69-165 | for which starts behind the size, lengths and bits a test of bits reads outside the bitmap, in numbers; and that within the last word it is right about the bits |
| `Bitmap.BitMap.RtlFindClearBits` | libs/ntdll/bitmap.c:440-502 | the first window from the hint on, or else the first of all; never the whole bitmap; it reads outside exactly when hint plus length wraps around |
| `Bitmap.BitMap.RtlFindSetBits` | libs/ntdll/bitmap.c:504-554 | the first window of set bits from the hint on; it reads outside exactly when hint plus length wraps around |
| `Bitmap.BitMap.RtlFindClearBitsAndSet` | libs/ntdll/bitmap.c:556-577 | that window, set; no other bit changes |
| `Bitmap.BitMap.RtlFindSetBitsAndClear` | libs/ntdll/bitmap.c:579-600 | that window, cleared; no other bit changes |
| `Bitmap.BitMap.RtlFindNextForwardRunClear` | libs/ntdll/bitmap.c:602-617 | the first clear bit from an index on, and the length of its run |
| `Bitmap.BitMap.RtlFindLongestRunClear` | libs/ntdll/bitmap.c:738-769 | the first of the longest maximal runs of clear bits, although the search re-reads tails |
| `Bitmap.ClearBitsFirstFit` | libs/ntdll/bitmap.c:440-502 | the search for clear bits fails exactly when there is no window, or the whole bitmap is asked for; what it grants is clear, and the first such window from the hint on, or else of all; no bits are found at the hint, more than there are nowhere |
| `Bitmap.SetBitsFirstFit` | libs/ntdll/bitmap.c:504-554 | the search for set bits grants the first window from the hint on, and fails exactly when there is none; no bits are found at the hint, more than there are nowhere |
| `Bitmap.NextRun` | libs/ntdll/bitmap.c:738-769 | a run longer than all that start before is maximal, and no other starts before the place where the search goes on |
| `BitmapHistory.FromAllClear` | libs/ntdll/bitmap.c:556-577 | over any run of grants and releases, live ranges never overlap, and the set bits are exactly theirs |
| `BitmapHistory.RunRequests` | libs/ntdll/bitmap.c:267-577 | for every run of requests, RtlFindClearBitsAndSet and RtlClearBits leave the bits, and the ranges they have granted, that the pure account says |
| `BitmapHistory.RunFromAllClear` | libs/ntdll/bitmap.c:207-577 | the same from a new bitmap on: its set bits are exactly the live ranges, which never overlap |
| `Division.Aulldvrm` | libs/ntdll/_aulldvrm.asm:91-181 | the exact quotient and remainder of every 64-bit dividend and non-zero divisor; no 32-bit division overflows |
| `Division.Estimate` | libs/ntdll/_aulldvrm.asm:115-128 | the quotient of the shifted operands is the true one, or one more |
| `Division.GoodEstimate` | libs/ntdll/_aulldvrm.asm:115-136 | besides, the high half of estimate times high divisor word is zero |
| `Division.DivideShort` | libs/ntdll/_aulldvrm.asm:91-112 | for divisors of one word, two divisions give a quotient whose product with the divisor is within the divisor of the dividend |
| `Division.Normalize` | libs/ntdll/_aulldvrm.asm:115-125 | the shift loop stops with a one-word divisor of full length, above the high word of the dividend |
| `Division.Remainder` | libs/ntdll/_aulldvrm.asm:158-168 | the subtractions and negations yield the difference of the dividend and the product |
| `Division.Correct` | libs/ntdll/_aulldvrm.asm:138-154 | carry and comparisons take one off exactly when the product exceeds the dividend |
| `TimeFields.RtlTimeToTimeFields` | libs/ntdll/timefields.c:51-104 | the fields are the date whose day number is the ticks' days, the time of day and the weekday, and they recombine to the ticks in milliseconds; the year is right exactly for the first 11383512 days |
| `TimeFields.DateOfDay` | libs/ntdll/timefields.c:79-102 | for every day, the arithmetic gives a valid Gregorian date with that day number |
| `TimeFields.MarchDate` | libs/ntdll/timefields.c:79-83 | year, day and month counted from March, without 32-bit overflow |
| `TimeFields.Millennium` | libs/ntdll/timefields.c:76 | the weekday rule puts the first of January 2000 on a Saturday |
| `TimeFields.Epoch` | libs/ntdll/ntdll.h:247-248 | how long a tick is: the ticks from 1601 to 1970 are those of the days of the calendar up to the first of January 1970 |
| `TimeFields.RtlSecondsSince1970ToTime` | libs/ntdll/rtl.c:657-662 | the ticks of a Unix time are as many days and seconds after the first of January 1970 |
| `Calendar.DatesDiffer` | libs/ntdll/timefields.c:51-104 | no two valid dates have the same day number |
| `Lznt1.RtlDecompressBufferLZNT1` | libs/ntdll/lznt1.c:30-144 | status, output and size are the decoder's, for every input and an output buffer apart from it; what the decoder makes of whole, cut off and ill-formed streams is told by `Lznt1.RoundTrip`, `Lznt1.Truncated`, `Lznt1.CopyFirst`, `Lznt1.CopyCutShort` and `Lznt1.CopyTooFar` |
| `Lznt1.RoundTrip` | libs/ntdll/lznt1.c:30-144 | decoding the encoding of any well-formed chunks, also those whose 16-bit block position wraps around, gives what their tokens stand for, or says that the buffer is too small for it |
| `Lznt1.Truncated` | libs/ntdll/lznt1.c:40-143 | an encoded stream cut off anywhere, with room for its output: decoded exactly where it ends with a chunk, to what the chunks before stand for; one byte on, an invalid parameter; everywhere else a bad buffer |
| `Lznt1.DecodeCut` | libs/ntdll/lznt1.c:40-143 | the same for every size of the output buffer |
| `Lznt1.CopyFirst` | libs/ntdll/lznt1.c:77-100 | a chunk that begins with a copy is a bad buffer |
| `Lznt1.MaskAlone` | libs/ntdll/lznt1.c:72-86 | a chunk of a mask alone puts nothing out |
| `Lznt1.CopyCutShort` | libs/ntdll/lznt1.c:88-92 | a chunk whose size ends within a copy is a bad buffer, even where the input goes on |
| `Lznt1.CopyTooFar` | libs/ntdll/lznt1.c:108-121 | a copy from before the start of the output is not refused, unless there is no room for its length |
| `Lznt1.FewestOffsetBits` | libs/ntdll/lznt1.c:102-109 | offset and length share 16 bits, the offset with the fewest bits, at least 4, that reach every earlier byte of the chunk |
| `Lznt1.SplitCopy` | libs/ntdll/lznt1.c:90-109 | the loop's mask and shift take offset and length out of the 16 bits |
| `Lznt1.CopyRun` | libs/ntdll/lznt1.c:117-121 | the byte-by-byte copy, which can run into what it has written |
| `Lznt1.CopyIsPeriodic` | libs/ntdll/lznt1.c:117-121 | such a copy repeats the last bytes periodically |
| `Acl.RtlFirstFreeAce` | libs/ntdll/sd.c:185-219 | where the walk over the entries ends, or that it runs into the end of the list |
| `Acl.WalkIsPath` | libs/ntdll/sd.c:185-219 | the walk comes to an end exactly where there are as many entries, each right behind the one before, that begin inside the list and are not too new for it |
| `Acl.RtlAddAccessAllowedAce` | libs/ntdll/sd.c:230-339 | on any list, well formed or not: the entry is put where the walk ends and the header is brought up to date, or nothing changes and the status says why; `Acl.AddAnswers` and `Acl.AddHeader` say when, and what the header becomes |
| `Acl.AddAnswers` | libs/ntdll/sd.c:230-339 | on a held list, each status under its own condition: an entry is added exactly if its SID is valid, its revision known, and it fits, to the last byte |
| `Acl.AnyListAnswers` | libs/ntdll/sd.c:230-339 | the same for any list, by the places of its entries |
| `Acl.AddHeader` | libs/ntdll/sd.c:298-331 | after an entry is added: the greater revision, one entry more, the size and the bytes behind the entry as before |
| `Acl.SidParts` | libs/ntdll/sd.c:139-148 | a SID put together from its parts is valid exactly with revision 1 in its lower four bits and at most 15 sub-authorities; its length is that of its bytes |
| `Acl.AddKeeps` | libs/ntdll/sd.c:230-339 | one call adds exactly its entry to the list that the bytes hold, or none |
| `Acl.RunIsListed` | libs/ntdll/sd.c:185-339 | after any run of calls, walking over the bytes gives back exactly the masks and SIDs of the calls that succeeded, in order; the list is valid and its sizes add up |
| `Acl.RunCalls` | libs/ntdll/sd.c:230-339 | for every run of calls on an array that holds a list, its bytes come out as the account of the calls says |
| `Acl.RunFromCreated` | libs/ntdll/sd.c:230-415 | a new list and any run of calls: read back, its bytes are the entries of the calls that succeeded, in order |
| `Acl.HeldList` | libs/ntdll/sd.c:185-219 | a held list reads back as its masks and SIDs, in order, with type and flags zero and the mask in four bytes, and the walk ends right behind them |
| `Acl.RtlValidAcl` | libs/ntdll/sd.c:382-396 | valid exactly when revision, size and walk are in order |
| `Acl.RtlCreateAcl` | libs/ntdll/sd.c:398-415 | an empty list, exactly when the size is at most 0xfffc and fits the buffer |
| `Acl.RtlQuerySizeInformation` | libs/ntdll/sd.c:417-468 | the entry count, the bytes up to the end of the walk, at most the size, and bytes free that make up the rest |
| `EventRuns.EventsAreSafe` | libs/ntdll/sync.c:89-284 | over all interleavings no wakeup of an event is lost, exactly if it is a notification event, or no wait on it may have a Timeout, or there is no second thread |
| `EventRuns.LosingRunLoses` | libs/ntdll/sync.c:101-124 | two threads wait on a synchronization event, the first with a Timeout; it is set, which wakes the first; the first times out; the event then stays signaled and the second thread blocked |
| `EventRuns.SuccessesAreSignaled` | libs/ntdll/sync.c:89-284 | over all interleavings, timeouts or not, a synchronization event lets no more waits succeed than it was signaled |
| `Events.StepKeeps` | libs/ntdll/sync.c:89-284 | of all steps of all threads, exactly one loses a wakeup: the only woken waiter gives up while the event is signaled and another thread is blocked; what the steps do to an event is told by `Events.SignalChanges` and `EventRuns.NotificationStays` |
| `EventRuns.NotificationStays` | libs/ntdll/sync.c:89-284 | over all interleavings, a notification event is signaled exactly if the last NtSetEvent or NtResetEvent on it was NtSetEvent, or there was neither and it was signaled at the start |
| `Events.SignalChanges` | libs/ntdll/sync.c:89-284 | an event becomes signaled by NtSetEvent only, and unsignaled only by NtResetEvent or, if it is a synchronization event, by a look that finds it signaled |
| `Events.LookEnds` | libs/ntdll/sync.c:101-185 | a wait ends in success exactly where a thread looks at a signaled event; a look in vain blocks the thread, or takes it to its next object |
| `Events.ThreadMoves` | libs/ntdll/sync.c:89-284 | a step moves its own thread only, a signal those that it wakes, which then wait for the same event with the same Timeout |
| `Events.SomeoneWillLook` | libs/ntdll/sync.c:101-124 | where a signal stands, a thread is blocked and no wakeup is lost, some woken thread can take the signal |
| `EventRuns.AnyTakesTheFirst` | libs/ntdll/sync.c:168-188 | an undisturbed pass of a wait for any, from any of its objects on, takes the first signaled object, and only that |
| `EventRuns.WaitTakesTheFirst` | libs/ntdll/sync.c:159-213 | from the call on, and from every later pass on, undisturbed: the first signaled of all the objects is taken, which ends the wait; where none is, the pass comes to its end after as many looks as there are objects |
| `EventRuns.WaitLooksInTurn` | libs/ntdll/sync.c:159-213 | it looks at all the objects up to that one, or at all there are, in order from the first on |
| `EventRuns.PassIsWhole` | libs/ntdll/sync.c:173-213 | the wait is given up, or begins its next pass, only once all its objects have been looked at |

## Left out

- The loader, system calls, file and registry stubs, logging, and other plumbing.
- Allocation and free callbacks: an allocation is a fresh node or a failure, which is a parameter. Freed nodes are not tracked.
- Compare callbacks are total functions on the user data; they do not look at the table.
- `GenericTable.Table.RtlInsertElementGenericTable`: the wrap-around of the element count at 2^32 elements.
- `Bitmap.BitMap.RtlFindClearBits`: a null bitmap header. What is read outside the bitmap, and what the routines then go on to do.
- `Bitmap.BitMap.RtlFindClearBitsAndSet`: a length of 0 with a hint behind the size, for which the source touches a word there; likewise RtlFindSetBitsAndClear, and RtlFindNextForwardRunClear from an index behind the size.
- `Bitmap.BitMap.RtlpGetLengthOfRunClear`: when a run is longer than the maximum, whether the result is the maximum or the whole run; no caller depends on it.
- Bitmaps of 2^31 bits or more, where 32-bit sums can wrap.
- RtlNumberOfSetBits and RtlNumberOfClearBits, which count one byte too many; RtlFindClearRuns; bit tests and whole-bitmap fills, which would only add easy members.
- The machine words of bitmaps are modelled by their 32 binary digits, and BitScanForward by its meaning.
- `Lznt1.RtlDecompressBufferLZNT1`: input and output buffers that overlap, where the source reads bytes that it has itself overwritten, so that what comes out is not what the input encodes; a null pointer for the final size; a copy from before the output buffer ends the model's run with a status of its own, where the source reads foreign memory.
- The AclRevisionInformation class of RtlQueryInformationAcl, which only copies a field.
- Object, audit and label entries of RtlpAddKnownAce, RtlAddAce, and security descriptors.
- `Acl.RtlFirstFreeAce`: lists whose walk would read behind the buffer.
- Events: thread and file handles, waiting for all, real clocks (a timeout is a step that a thread in a timed wait may take at any time; a blocked thread may also leave with an error, and a wait for any without success after any pass), and the previous state that NtSetEvent and NtResetEvent report.
- `Division.Aulldvrm`: division by zero, which faults.
