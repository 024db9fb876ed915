# Cosmopolitan core: a model and its proofs

A Dafny model of the parts of the repository that carry the most state and
arithmetic, with proofs of what they promise.  `dafny verify dfyconfig.toml`
checks everything.

| files | component |
|---|---|
| `RbTree`, `RbHeap`, `RbInsert`, `RbErase`, `CtlSet`, `CtlSetRuns` | the red-black tree of `ctl::set`, with parent pointers and the colour bit packed into the left link |
| `AbaWord`, `AbaStack`, `AbaCount`, `AbaProgress`, `AbaWrap` | the lock-free stack with a version tag hidden in the pointer |
| `ApePrintf`, `ApeScript`, `ApeMem`, `ApePages`, `ApePhdrs`, `ApeAdjacent`, `ApeMerge`, `ApeValidate`, `ApeAccept`, `ApeSpawn`, `ApeLoad` | the APE loader: header decoder, header clean-up, validation and mapping |
| `SharedPtr`, `SharedRefs` | the reference-count protocol of `shared_ptr` and `weak_ptr` |
| `Blas`, `BlasGemm` | the tiled, thread-split matrix product |
| `CtlStringRep`, `CtlString`, `CtlStringRuns` | the small-string-optimised `ctl::string` |
| `CtlSort` | quicksort |
| `DrawLine`, `PpuClock` | Bresenham's loop and the PPU scanline clock |
| `Bytes`, `Orders` | bytes and words, comparisons |

## How the models are built

**Set.**  The heap is a map from addresses to records whose `left_` field is the
left address plus the colour bit.  A ghost tree says what the records mean, and a
cursor (a subtree and its context) follows each loop.  Elements are pairs of
address and key, so "the same elements" includes node identity.  Only
irreflexivity and transitivity of the comparison are used, except for whole runs,
which need a strict weak order.

**Stack.**  Loads, the read of `next`, the write of `next` and the exchange are
separate steps of any number of threads; an exchange may fail for no reason.  A
ghost counter of successful exchanges stands beside the twelve-bit tag.  The
hypothesis that fewer than 4096 exchanges fall between a load and a pop that
matches is `Timely`; an exchange that fails may be as late as it likes, and
reloads.  From every point of every run there is a way on to the end (`RunEnds`).
The hypothesis cannot be dropped: for any number of threads from four and of
iterations from 2047, `AbaAfter4096` gives a run of the program from its start in
which one pop stalls, exactly 4096 exchanges go by and the pop corrupts the list.

**Loader.**  Addresses are 64-bit and wrap.  The kernel is a small abstract
memory that maps whole pages below a limit, may refuse any call, and kills the
process on a store to a byte that is unmapped, read-only or past the end of the
file.  The image theorem is over whole header tables, and `LoadElf` joins the two
clean-up passes with it.  `Served` says what a program can rely on, in terms of
its flags and its file alone, and `AcceptedExact` says in terms of page numbers
which tables are loaded.  Some facts about the code came out of the proofs.
Merging neighbouring headers is lossless exactly under the condition `Lossless`;
the test in the code is weaker than its comment, and `LossyMerge` is a pair it
merges although zero fill in front of file content is lost.  `virtmin` starts at
0 and never moves.  Clearing the tail of a segment can touch a page wholly past
the end of the file (`BadTail`, and `FatalTail` for an accepted header); that is
the only way loading dies.  A size within a page of 2^64 is rounded up to nothing
and so counts as sharing no page (`Huge`); no kernel maps it.  The search for `printf` statements compares eight
bytes at a time and so reads up to seven bytes past the text, which for a file
that fills the 8192 bytes is past the buffer.  The array of `ScanHeaders` is the
buffer with those seven bytes behind it, whatever they hold; the headers found do
not depend on them.  `ScriptHeaders` says what is found, in terms of a writer of
scripts.  It asks for a byte between a closing quote and the next statement, which
the loop steps over, and for three after the last quote, before which it stops.

**Shared pointers.**  Every atomic access is one step; threads that saw a count
end have pending tasks.  `lock` and the constructor from `weak_ptr` are two
steps, a test and an increment, with any steps between.  `StepExact` says which
steps keep the counts right: all but a late increment and the throw of a
constructor that has kept a reference to itself, and these exactly when they are
late.  `RunMeans` ties every run to a program on plain references without counts.

**Matrix product.**  Over the reals, for every k: the code reads k rounded up to
a multiple of eight columns.  A ghost multiset records every store, as the pair of
the element and the value stored.

**String.**  The 24 bytes are bytes: pointer, size and capacity are read from and
written to them in little-endian order.  Between operations the size is below the
capacity and a zero byte follows a text that is not empty.  `malloc` and
`realloc` may fail and return arbitrary bytes.  Traps are outcomes; `Corrupt`
stands for the traps that guard the representation and never occurs.

**Quicksort, line, clock.**  The loops as they are, against closed forms.  The
comment on the clock says that line -1 alternates in length while the background
is shown; the code shortens it exactly when the background is on at x = 337 and
the toggle is set.

**Checker.**  `check()` is modelled on any binary tree, with parent links that may
point anywhere.  It compares keys only between parent and child.
`CheckMissesOrder` is a tree it accepts although it is out of order; the model
carries the global order.

## Model

| member | source | states |
|---|---|---|
| `RbTree.PlugElems` | ctl/set.h:83-121 | the in-order sequence of a tree is that of the subtree at a cursor between the elements before and after the cursor; the basis of every claim about what an operation leaves alone |
| `RbTree.RotateElems` | ctl/set.h:705-739 | rotating keeps the in-order sequence of nodes |
| `RbTree.SearchStep` | ctl/set.h:586-600 | each comparison of a search narrows the key to the side it descends to, by the global order and not only by the parent |
| `RbTree.SearchOutcome` | ctl/set.h:586-600 | a search that ends on a node has found an equivalent key, and one that ends on null has ruled out every element |
| `RbTree.FloorStep` | ctl/set.h:602-616 | one step of the lower-bound search keeps everything passed over below the key and the candidate not below it |
| `RbTree.CeilingStep` | ctl/set.h:618-632 | one step of the upper-bound search keeps everything passed over not above the key and the candidate above it |
| `RbTree.BlackHeightBounds` | ctl/set.h:754-788 | in a legal tree of n keys with black height b, 2^b <= n + 1 and no path has more than 2b nodes (2b + 1 below a red root) |
| `RbTree.LegalIsShallow` | ctl/set.h:754-788 | height at most twice the black height, and 2^height at most (n + 1)^2 |
| `RbTree.FewSteps` | ctl/set.h:586-600 | 2^steps is at most (n + 1)^2 for any descent of a legal tree, that is, at most 2 log2(n + 1) steps; `GetElement` states it of its own iterations |
| `RbInsert.RecolouredPending` | ctl/set.h:795-800 | a red uncle: recolouring moves the only possible red-red edge two levels up |
| `RbInsert.InnerClash` | ctl/set.h:802-805 | an inner grandchild: the first rotation turns it into an outer one, same edge |
| `RbInsert.OuterPending` | ctl/set.h:806-808 | an outer grandchild: recolouring and rotating removes the red-red edge |
| `RbInsert.ClashHasGrandparent` | ctl/set.h:793-795 | whenever the loop runs, the parent has a parent, so no null is followed |
| `RbInsert.Settled` | ctl/set.h:828 | blackening the root at the end leaves a legal tree |
| `RbErase.StuckHasSibling` | ctl/set.h:834-836 | whenever the fix-up loop runs, the sibling exists, so no null sibling is dereferenced |
| `RbErase.SplicedOne` | ctl/set.h:672-679 | removing a node with at most one child leaves a legal tree or one exactly one black short at the cursor |
| `RbErase.SplicedTwo` | ctl/set.h:680-698 | the same when the successor takes the place and the colour of a node with two children |
| `RbErase.SplicedTwoElems` | ctl/set.h:680-698 | that replacement removes exactly the node from the in-order sequence |
| `RbErase.RedSiblingStuck` | ctl/set.h:836-841 | a red sibling: after the rotation the sibling is black and the deficit is where it was |
| `RbErase.PushUpShort` | ctl/set.h:842-847 | a sibling without red children: recolouring moves the deficit one level up |
| `RbErase.NearRedStuck` | ctl/set.h:849-855 | a red near child: after the rotation the far child is red |
| `RbErase.FarRedLegal` | ctl/set.h:856-861 | a red far child: the last rotation repairs the whole tree |
| `RbErase.Repaired` | ctl/set.h:894-895 | blackening the cursor at the end removes the deficit |
| `CtlSet.Set.constructor` | ctl/set.h:254-260 | an empty set is valid |
| `CtlSet.Set.LeftRotate` | ctl/set.h:705-721 | the pointer updates, with the colour bit in the left link, are exactly a left rotation of the tree at the cursor, wherever the cursor is |
| `CtlSet.Set.RightRotate` | ctl/set.h:723-739 | the same for a right rotation |
| `CtlSet.Set.Transplant` | ctl/set.h:741-752 | exactly the parent link and one child link change |
| `CtlSet.Set.InsertStepLeft` | ctl/set.h:794-809 | one round of the loop keeps the elements and the invariant and moves strictly towards the root |
| `CtlSet.Set.InsertStepRight` | ctl/set.h:810-826 | the mirror image |
| `CtlSet.Set.RebalanceAfterInsert` | ctl/set.h:790-829 | the loop ends with a legal tree that holds the same elements in the same order |
| `CtlSet.Set.FindSlot` | ctl/set.h:642-659 | the descent finds the equivalent element or the one place where the key fits the global order |
| `CtlSet.Set.InsertNode` | ctl/set.h:634-664 | a new key is put at its place in the order and nothing else changes; for a key already held nothing changes, the node is freed and the existing element returned |
| `CtlSet.Set.Insert` | ctl/set.h:401-409 | size grows by one exactly when the key was absent; all invariants are kept |
| `CtlSet.Set.EraseStepLeft` | ctl/set.h:834-862 | one round of the fix-up loop keeps the elements and either finishes with a legal tree or moves the deficit up |
| `CtlSet.Set.EraseStepRight` | ctl/set.h:863-892 | the mirror image |
| `CtlSet.Set.RebalanceAfterErase` | ctl/set.h:831-896 | the loop ends with a legal tree that holds the same elements in the same order |
| `CtlSet.Set.ReplaceBySuccessor` | ctl/set.h:680-698 | the successor is cut out and put in place of the node, with its colour |
| `CtlSet.Set.Unlink` | ctl/set.h:666-698 | exactly the node goes, and what is left is legal or one black short |
| `CtlSet.Set.EraseNode` | ctl/set.h:666-703 | exactly the node is removed and freed; every other node keeps its address and key, and all invariants hold again |
| `CtlSet.Set.EraseAt` | ctl/set.h:441-447 | the iterator returned is the element after the erased one |
| `CtlSet.Set.EraseKey` | ctl/set.h:449-456 | removes the equivalent element and returns 1, or changes nothing and returns 0 |
| `CtlSet.Set.EraseRange` | ctl/set.h:458-463 | removes exactly the elements from first up to last |
| `CtlSet.Set.GetElement` | ctl/set.h:586-600 | null exactly when no equivalent key is held; never more iterations than the height, and never more than 2 log2(n + 1) |
| `CtlSet.Set.GetFloor` | ctl/set.h:602-616 | the least element not less than the key, or null |
| `CtlSet.Set.GetCeiling` | ctl/set.h:618-632 | the least element greater than the key, or null |
| `CtlSet.Set.LowerBound` | ctl/set.h:483-491 | the least node whose key is not less than the argument, among all nodes; null exactly when there is none |
| `CtlSet.Set.UpperBound` | ctl/set.h:493-501 | the least node whose key is greater than the argument, among all nodes; null exactly when there is none |
| `CtlSet.Set.Leftmost` | ctl/set.h:541-546 | the first element of a subtree |
| `CtlSet.Set.Rightmost` | ctl/set.h:548-553 | the last element of a subtree |
| `CtlSet.Set.Begin` | ctl/set.h:330-335 | the first element, or null |
| `CtlSet.Set.Next` | ctl/set.h:83-98 | the next element in order, or null after the last |
| `CtlSet.Set.Prev` | ctl/set.h:100-121 | the element before, or null from the first |
| `CtlSet.Set.Tally` | ctl/set.h:579-584 | the number of elements of a subtree, whatever the parent links |
| `CtlSet.Set.Checker` | ctl/set.h:754-788 | passes exactly when every parent link holds, colours and black heights are legal and every child is on the right side of its parent; nothing of this is presupposed |
| `CtlSet.Set.Check` | ctl/set.h:524-538 | never traps on a valid set; on any binary tree it accepts exactly those with right parent links, legal colours and heights, keys in order between parent and child and the right size |
| `CtlSet.SortedIsLinked` | ctl/set.h:772-779 | global order implies the parent-child order that is checked |
| `CtlSet.CheckMissesOrder` | ctl/set.h:772-779 | the converse fails: a tree that passes every test of the checker but is not in order |
| `CtlSet.Copier` | ctl/set.h:565-577 | a copy has the same shape and keys, right parent links and only fresh nodes, all of them red |
| `CtlSet.Set.Copy` | ctl/set.h:270-276 | a copied set has the same keys in order; it takes no comparison from the original but a default one of its own; it is balanced (and passes the colour rules) exactly when it is empty |
| `CtlSet.Equals` | ctl/set.h:903-916 | true exactly when both sets hold the same key sequence |
| `CtlSetRuns.PutHolds` | ctl/set.h:634-664 | after an insertion exactly the equivalents of the key are added to what is held |
| `CtlSetRuns.DelHolds` | ctl/set.h:449-456 | after an erasure exactly the equivalents of the key are gone |
| `CtlSetRuns.Run` | ctl/set.h:401-456 | after any sequence of insertions and erasures from empty, a key is held exactly when the last operation on its class was an insertion, and every invariant holds |
| `CtlSetRuns.Walk` | ctl/set.h:83-98 | from begin to end every key is visited once, strictly ascending, in size() steps |
| `CtlSetRuns.ThereAndBack` | ctl/set.h:83-121 | `--` undoes `++` and `++` undoes `--` between elements |
| `AbaWord.PackUnpack` | examples/aba.c:50-56 | packing a 16-byte aligned pointer below 2^56 with a tag loses nothing but the bits of the tag above the twelfth |
| `AbaWord.UnpackPack` | examples/aba.c:50-56 | every word is the packing of its two parts, and a plain pointer has tag 0 |
| `AbaWord.NextWord` | examples/aba.c:54 | packing with TAG + 1 keeps the pointer and counts modulo 4096 |
| `AbaWord.SameWord` | examples/aba.c:70-72 | two words are equal exactly when pointer and tag are |
| `AbaWord.UnpackFaithful` | examples/aba.c:50-56 | pairs of address and number stand faithfully for the packed words in comparison and in the exchange |
| `AbaStack.TagWraps` | examples/aba.c:71 | after n successful exchanges the tag is n modulo 4096 |
| `AbaStack.ExchangeGoesThrough` | examples/aba.c:83-85 | a compare-exchange matches exactly when the pointer is the same and a multiple of 4096 exchanges happened since the load; below 4096, when none did |
| `AbaStack.PopExact` | examples/aba.c:78-90 | a timely successful pop removes the current top and installs its true successor |
| `AbaStack.PushExact` | examples/aba.c:65-76 | a successful push puts the element on top of the current stack |
| `AbaStack.StepInv` | examples/aba.c:65-104 | every step of every thread keeps the invariant |
| `AbaStack.RunInv` | examples/aba.c:65-104 | so it holds in every interleaving of any number of threads in which fewer than 4096 exchanges fall between the load and the matching exchange of a pop |
| `AbaStack.OnePlace` | examples/aba.c:92-104 | every node is at all times either in the list once or held by exactly one thread |
| `AbaProgress.FailedReloads` | examples/aba.c:70-85 | a failed exchange leaves the thread with the current word and version, at the test of pop or the link of push, and changes nothing else |
| `AbaProgress.PopEnds` | examples/aba.c:78-101 | a thread left alone in pop ends it within four steps, however stale its word: with the current top, or a new node if the list was empty when it looked |
| `AbaProgress.PushEnds` | examples/aba.c:65-76 | a thread left alone in push ends it within four steps, with its node on top |
| `AbaProgress.ThreadEnds` | examples/aba.c:92-104 | a thread left alone finishes all its iterations |
| `AbaProgress.RunEnds` | examples/aba.c:92-122 | every run can be continued until all threads are done, and then the sum in the list is ITERATIONS times THREADS |
| `AbaWrap.AbaAfter4096` | examples/aba.c:65-104 | the bound is sharp: from four threads and 2047 iterations up there is a run of the program from its start in which a pop completes after exactly 4096 exchanges, while the word is the one it loaded, and leaves as head of the list a node that another thread holds |
| `AbaWrap.Stalled` | examples/aba.c:65-104 | the schedule itself: one thread loads the head A and its successor B and stalls; others take both, push a third node and A, then pop and push until 4096 exchanges have passed |
| `AbaCount.RunBalanced` | examples/aba.c:92-104 | in every such run the counts of all nodes add up to the increments performed |
| `AbaCount.FinalSum` | examples/aba.c:106-122 | when all threads are done the counts in the list add up to ITERATIONS times THREADS |
| `AbaCount.Drain` | examples/aba.c:114-120 | the final loop pops every node and adds up all counts |
| `AbaCount.Tester` | examples/aba.c:106-122 | so the assertion at the end of main holds and no node is leaked, for any number of threads and iterations |
| `ApePrintf.Decode` | ape/loader.c:1102-1120 | the output of a statement is never longer than the text read |
| `ApePrintf.DecodeStatement` | ape/loader.c:1102-1120 | decoding in place gives the bytes of decoding from an untouched copy, because the write index stays at least eight behind the read index |
| `ApePrintf.ScanHeaders` | ape/loader.c:1098-1124 | every statement in the buffer yields the header it would yield in an untouched copy, although earlier ones have overwritten the front; the array is the buffer with the seven bytes behind it that the comparison may read; `ApeScript.ScriptHeaders` says what those headers are |
| `ApePrintf.HeadersIgnoreBeyond` | ape/loader.c:1098-1101 | two buffers that agree on the bytes of the file yield the same headers, whatever follows |
| `ApeScript.UnitReads` | ape/loader.c:1103-1114 | a plain byte, a backslash before no digit, and a backslash with one, two or three octal digits are each read as their value, modulo 256 |
| `ApeScript.DecodeText` | ape/loader.c:1102-1120 | a text spelled in such pieces, none of them cut short by a digit that follows, is read to its closing quote as the values of its pieces |
| `ApeScript.EveryText` | ape/loader.c:1102-1120 | every text without a quote can be spelled in that way, so nothing is left out |
| `ApeScript.ScriptHeaders` | ape/loader.c:1098-1124 | in a file of such statements with any other bytes before and between them the headers found are exactly the statements of 64 bytes or more, in order |
| `ApeScript.FindHeaders` | ape/loader.c:1083-1124 | a file below 64 bytes is refused; only one that starts with one of the three markers is searched; then the headers are those of the script |
| `ApePrintf.UnitText` | ape/macros.internal.h:102-105 | the word made for a byte is laid out as a backslash and three octal digits |
| `ApePrintf.DecodeEncode` | ape/macros.internal.h:102-121 | decoding the text that the linker macros make of any number gives back its bytes |
| `ApeMem.MemMove` | ape/loader.c:291-319 | for every overlap the destination ends up equal to the original source and no other byte changes |
| `ApeMem.MoveUp` | ape/loader.c:298-306 | the descending word loop with its byte tail |
| `ApeMem.MoveDown` | ape/loader.c:307-317 | the ascending word loop with its byte tail |
| `ApeMem.Bzero` | ape/loader.c:267-280 | the words and then the bytes of the range become zero, and no other byte changes |
| `ApePhdrs.RemoveEmpty` | ape/loader.c:870-881 | exactly the stable filter of the headers that are not empty loads |
| `ApePhdrs.NonEmptyExact` | ape/loader.c:870-881 | that filter drops exactly the load headers without memory and keeps every other as often as it occurs |
| `ApePhdrs.NonEmptyJoins` | ape/loader.c:870-881 | and keeps their order |
| `ApePhdrs.MergeLoads` | ape/loader.c:889-909 | the in-place loop computes the left-to-right merge of the header list, and ends |
| `ApeAdjacent.AdjacentExact` | ape/loader.c:889-898 | headers that do not run over are merged exactly when both are loads of equal access and the second starts, in the file and in memory, on the page where the first ends or the next |
| `ApeMerge.JoinedKeeps` | ape/loader.c:899-900 | if the joined file part covers the first, runs into the zero fill of neither and lines up with the second (`Lossless`; for instance one displacement and no zero fill in the first), the join keeps value, zero fill and protection of every byte of both segments |
| `ApeMerge.JoinedLoses` | ape/loader.c:899-900 | any other join of ascending segments loses a byte of one of them in some file; `ApeLoad.LossyMerge` is a pair that the loader does join |
| `ApeMerge.JoinExact` | ape/loader.c:889-900 | so the join of ascending segments is lossless for all files exactly on that condition |
| `ApeMerge.BssInFrontIsLost` | ape/loader.c:889-900 | in particular the join of any pair with zero fill in front of file content loses it |
| `ApeLoad.LossyMerge` | ape/loader.c:889-909 | such a pair passes the test of the loader, is merged and then accepted by validation, and there is a file in which a byte is lost |
| `ApeMerge.MergeKeeps` | ape/loader.c:889-909 | over a table whose adjacent pairs are contiguous, every byte of every original segment keeps its value and protection in the merged table |
| `ApeMerge.MergeSettles` | ape/loader.c:889-909 | after the pass no two neighbours could still be merged |
| `ApeValidate.ValidateLoad` | ape/loader.c:660-688 | one header passes exactly when its own checks hold and it overlaps no later load, in the wrapping arithmetic of the source |
| `ApeValidate.Validate` | ape/loader.c:650-708 | the first pass accepts exactly the tables that meet every rule; the upper bound is the end of the highest segment; the lower bound never leaves 0 |
| `ApeAccept.OverlapMeans` | ape/loader.c:676-688 | the test for overlap holds exactly when the two ranges share a number |
| `ApeAccept.TwoPowerExact` | ape/loader.c:653-655 | the page size passes exactly when it is a power of two |
| `ApeAccept.SumGuard` | ape/loader.c:666-673 | the overflow tests pass exactly when neither the end nor its rounding leaves 64 bits, or the size itself is within a page of 2^64 |
| `ApeAccept.AcceptedExact` | ape/loader.c:650-708 | for every table: it is accepted exactly when the page size is a power of two, each load fits and is congruent, no two of them have a page in common, none has one with the loader, and an executable load holds the entry |
| `ApeSpawn.LoadBss` | ape/loader.c:786-794 | a segment without file content becomes zeroed pages with its protection |
| `ApeSpawn.WipeTail` | ape/loader.c:772-773 | clearing the rest of the last file page touches only mapped, writable bytes of that page; the process survives it exactly when the page is not wholly past the end of the file |
| `ApeSpawn.LoadFilePages` | ape/loader.c:745-778 | the file pages hold file content, then zeroes up to the end of the segment, with the protection of the segment even where clearing needed another |
| `ApeSpawn.AddBss` | ape/loader.c:779-785 | pages of zeroes behind the file pages complete the image up to the end of the segment |
| `ApeSpawn.LoadSegment` | ape/loader.c:735-794 | one segment is loaded: every byte has its file content or zero, every page the protection, and nothing outside its pages changes |
| `ApeSpawn.ImageServes` | ape/loader.c:735-794 | an image is readable, writable and executable, on every page of the segment, exactly as the three flags say; its bytes are those of the file, then zeroes |
| `ApeSpawn.TruePages` | ape/loader.c:674-675 | the wrapping page bounds of the first pass are the true ones of every segment the kernel accepts |
| `ApeSpawn.ImageKept` | ape/loader.c:680-688 | a later segment does not disturb an earlier one |
| `ApeSpawn.LoaderSpared` | ape/loader.c:676-679 | no page of a fixed-address program lies in the loader |
| `ApeSpawn.LoadAll` | ape/loader.c:728-795 | all segments stand at the end, and bytes in no segment are as before |
| `ApeSpawn.Spawn` | ape/loader.c:650-795 | a rejected table changes nothing; if all goes well every segment has its image at once, accessible exactly as its flags say, and the loader (for a fixed program) or everything mapped before (for a movable one) is intact; it stops otherwise only if the kernel refuses, and dies only on a bad tail page |
| `ApeSpawn.SpawnFixed` | ape/loader.c:728-795 | an accepted fixed-address table: all images stand, the loader is intact; it dies only on a bad tail page and never loads one |
| `ApeSpawn.SpawnMovable` | ape/loader.c:712-795 | an accepted movable table at the address the kernel gave: all images stand and everything mapped before is intact |
| `ApeLoad.FatalTail` | ape/loader.c:772-773 | a bad tail happens: a header that validation accepts, with a file that ends a page before its content begins |
| `ApeLoad.JoinedImage` | ape/loader.c:899-900 | memory that holds the image of two joined contiguous segments holds the image of each |
| `ApeLoad.MergedImages` | ape/loader.c:889-909 | memory that holds the images of a merged tidy table holds the images of the table before the merge |
| `ApeLoad.OriginalImages` | ape/loader.c:870-909 | the same back to the table before the empty headers were removed |
| `ApeLoad.LoadElf` | ape/loader.c:650-909 | clean-up, merge, validation and mapping together: once loaded, every segment of the original tidy table has its image, its file content and the access of its flags |
| `SharedPtr.SharedKept` | ctl/shared_ptr.h:73-76 | incrementing the owner count keeps the invariant exactly when there is an owner |
| `SharedPtr.WeakKept` | ctl/shared_ptr.h:86-89 | incrementing the weak count keeps it whenever something refers to the block |
| `SharedPtr.SharedDropped` | ctl/shared_ptr.h:78-84 | dropping an owner keeps it; the last one, and no other, starts the disposal |
| `SharedPtr.WeakDropped` | ctl/shared_ptr.h:91-96 | dropping a weak handle keeps it; the last reference, and no other, starts the deletion |
| `SharedPtr.Disposed` | ctl/shared_ptr.h:80-83 | running the disposal keeps it: the object counts as destroyed once more, which makes once, and the joint weak count is still held |
| `SharedPtr.Released` | ctl/shared_ptr.h:80-83 | giving up the weak count that the owners held together keeps it, and starts the deletion exactly if no weak handle is left |
| `SharedPtr.Deleted` | ctl/shared_ptr.h:91-96 | the deletion keeps it: the block counts as deleted once, and nothing refers to it |
| `SharedPtr.Finished` | ctl/shared_ptr.h:599-603 | the borrowed weak reference of make_shared becomes the first owner |
| `SharedPtr.Thrown` | ctl/shared_ptr.h:594-598 | a throwing constructor leaves things right exactly when it kept no reference to itself |
| `SharedPtr.Locked` | ctl/shared_ptr.h:454-464 | the increment of lock leaves things right exactly when there still is an owner; what it hands back is in `SharedRefs.LockGives` |
| `SharedPtr.StepExact` | ctl/shared_ptr.h:42-113 | every atomic step keeps the invariant, except exactly those two when they come too late |
| `SharedPtr.RunInv` | ctl/shared_ptr.h:42-113 | in every interleaving of timely steps the counts are the owners minus one and the weak handles minus one plus the joint one, modulo 2^64 |
| `SharedPtr.RunCounts` | ctl/shared_ptr.h:98-106 | an object is disposed and a block deleted at most once, never while an owner or a handle refers to it, and use_count is the number of owners |
| `SharedPtr.NothingLeaks` | ctl/shared_ptr.h:42-113 | once handles and pending work are gone every object has been destroyed and every block deleted exactly once |
| `SharedPtr.TouchesLive` | ctl/shared_ptr.h:42-113 | no step reads or writes a deleted block |
| `SharedPtr.LockTestExact` | ctl/shared_ptr.h:424-427 | the test of lock passes exactly when there is an owner |
| `SharedPtr.LockAtOnce` | ctl/shared_ptr.h:253-259 | so a lock that is not interrupted is timely |
| `SharedPtr.TrapExact` | ctl/shared_ptr.h:42-52 | the trap of the checking build goes off exactly on a late lock |
| `SharedPtr.LateLock` | ctl/shared_ptr.h:454-464 | whenever the one owner goes between test and increment, lock returns an owner of a destroyed object |
| `SharedPtr.LateLockReached` | ctl/shared_ptr.h:454-464 | its hypothesis is reached: a timely run from the start ends in the state with one owner, one weak handle and a lock that has passed its test |
| `SharedPtr.LateLockHappens` | ctl/shared_ptr.h:454-464 | so there is a run from the start after which the increment of lock, late, returns an owner of a destroyed object |
| `SharedPtr.LastOwnerGoes` | ctl/shared_ptr.h:268-272 | the last owner hands over exactly one disposal |
| `SharedPtr.Assigned` | ctl/shared_ptr.h:274-278 | assignment by copy, swap and destruction sets the target to the source, also for self-assignment |
| `SharedRefs.LockGives` | ctl/shared_ptr.h:454-464 | past its test, lock returns an owner of the object the weak handle names: that object has one owner more, no other handle or count changes; if it still had an owner, it is alive and use_count is one more |
| `SharedRefs.TestGives` | ctl/shared_ptr.h:424-427 | the test lets the thread in exactly when there is an owner, and changes nothing else |
| `SharedRefs.OwnerGives` | ctl/shared_ptr.h:239-243 | copying an owner, or locking the own reference in a constructor, makes one owner more of the same object |
| `SharedRefs.WeakGives` | ctl/shared_ptr.h:377-397 | a weak handle from any handle or from the constructor names the same object and adds no owner |
| `SharedRefs.MakeGives` | ctl/shared_ptr.h:605-612 | make_shared returns the one owner of a new object |
| `SharedRefs.FinishGives` | ctl/shared_ptr.h:599-603 | with a weak reference to itself, the owner returned takes the place of the borrowed one: as many owners as before |
| `SharedRefs.MoveGives` | ctl/shared_ptr.h:245-249 | move and swap exchange two handles and touch no count |
| `SharedRefs.DropGives` | ctl/shared_ptr.h:268-272 | destruction leaves an empty handle and one reference less; a disposal is pending exactly when it was the last owner |
| `SharedRefs.TouchedIs` | ctl/shared_ptr.h:42-113 | the block said to be touched is the one a step writes, and no step writes a deleted one |
| `SharedRefs.KeptIs` | ctl/shared_ptr.h:42-52 | the counter the trap looks at is the one the step increments |
| `SharedRefs.StepMeans` | ctl/shared_ptr.h:42-113 | every step, timely or not, does to the handles what the operation does to plain references |
| `SharedRefs.RunMeans` | ctl/shared_ptr.h:42-113 | so every run is a run of a program on plain references, with no counts |
| `SharedRefs.RunLives` | ctl/shared_ptr.h:42-113 | at every point of every run use_count is the number of owners in that program, the object lives exactly while there is one, and the block is there while anything names it and gone after |
| `Blas.Load` | examples/blas.cc:37-42 | the vector is the eight consecutive elements at the address |
| `Blas.Madd` | examples/blas.cc:44-48 | lane by lane product and sum |
| `Blas.Hsum` | examples/blas.cc:50-55 | the sum of the lanes |
| `Blas.LanesSum` | examples/blas.cc:110-118 | the eight partial sums of a cell add up to its whole dot product |
| `Blas.JobExact` | examples/blas.cc:107-108 | a cell lies in the tile of a job exactly when the job number is its own, and that number is in range |
| `Blas.DutyCovers` | examples/blas.cc:101-102 | the shares of all threads cover all jobs, and no share is larger than it must be |
| `BlasGemm.MyJobs` | examples/blas.cc:101-106 | a thread has a job in its range, from duty times its number and duty long, exactly when it is the one thread that job belongs to |
| `Blas.Owner` | examples/blas.cc:77-94 | through all splits a cell has one owner, whose number is below the number of threads, and the splitting ends; `Mnpack` ties it to the stores |
| `BlasGemm.AnsiBlas.Accumulate` | examples/blas.cc:111-115 | the inner loops add the next eight columns to every cell of the tile |
| `BlasGemm.AnsiBlas.StoreTile` | examples/blas.cc:116-118 | every cell of the tile is stored once, with its product, and nothing else |
| `BlasGemm.AnsiBlas.Tile` | examples/blas.cc:107-118 | one job stores every cell of its tile once, with its product, for every k |
| `BlasGemm.AnsiBlas.Share` | examples/blas.cc:101-105 | the range of jobs of a thread by ceiling division, empty when there are none left |
| `BlasGemm.AnsiBlas.Gemm` | examples/blas.cc:96-120 | a thread stores exactly its cells of the tiled part, once each |
| `BlasGemm.RectSplit` | examples/blas.cc:83-93 | whole tiles, the rows below and the columns beside are disjoint and make up the rectangle |
| `BlasGemm.AnsiBlas.Mnpack` | examples/blas.cc:77-94 | a thread stores exactly its cells of the rectangle, once each; the recursion ends |
| `BlasGemm.Sgemm` | examples/blas.cc:133-143 | after all threads every cell of C has been stored exactly once, with its product, and no other element is touched; the record of stores holds one pair for each cell and no other |
| `BlasGemm.CellIsProduct` | examples/blas.cc:133-143 | that product is the dot product of the two rows over k rounded up to a multiple of eight, hence the plain product when k is one; the record has exactly one store to the cell, and it is that value |
| `BlasGemm.AnySchedule` | examples/blas.cc:138-142 | the recorded stores of all threads, values included, replayed in any order give the same C |
| `CtlStringRep.BigFields` | ctl/string.h:422-429 | the three words written by set_big_string are read back, and the flag is in the last byte |
| `CtlStringRep.SizeField` | ctl/string.h:180-188 | writing the size word changes neither pointer, capacity nor flag |
| `CtlStringRep.TopBit` | ctl/string.h:410-413 | the flag bit of the last byte is the top bit of the capacity word |
| `CtlString.Str.constructor` | ctl/string.h:62-67 | the empty string |
| `CtlString.Str.InitView` | ctl/string.h:69-78 | a new string holds the view, in either representation; up to 23 bytes it never fails and needs no buffer |
| `CtlString.Str.InitBig` | ctl/string.cc:57-70 | the buffer is rounded up and terminated |
| `CtlString.Str.InitFill` | ctl/string.h:80-89 | n copies of a byte; up to 23 without a buffer |
| `CtlString.Str.InitCopy` | ctl/string.h:96-104 | a copy has the same text and its own buffer, or none for a text of up to 23 bytes; reading 24 bytes is in bounds in either representation; the original is unchanged |
| `CtlString.Str.InitMove` | ctl/string.h:150-154 | the text and the representation move and the source is left empty without a buffer |
| `CtlString.Str.Swap` | ctl/string.h:145-148 | the texts change places |
| `CtlString.Str.SetSize` | ctl/string.h:415-420 | the size changes and the buffer does not; the trap on a small size above 23 is unreachable |
| `CtlString.Str.SetBig` | ctl/string.h:422-429 | traps exactly on a capacity of 2^63 or more |
| `CtlString.Str.Reserve` | ctl/string.cc:99-121 | the capacity is at least what was asked, the text is the same, and the buffer is the only thing that changes, whether it stays, moves or is new |
| `CtlString.Str.LeaveSmall` | ctl/string.cc:110-113 | from the object to the heap: the last byte of a full small string becomes the terminator |
| `CtlString.Str.Grow` | ctl/string.cc:161-178 | the loop ends with room for the bytes; it traps on overflow only for texts of about 2^62 bytes or more |
| `CtlString.Str.Append` | ctl/string.cc:194-206 | old text followed by the bytes; it traps on overflow only for texts of about 2^62 bytes or more |
| `CtlString.Str.AppendFill` | ctl/string.cc:180-192 | old text followed by n copies |
| `CtlString.Str.AppendChar` | ctl/string.cc:140-159 | old text followed by the byte |
| `CtlString.Str.Resize` | ctl/string.cc:123-138 | cut off or filled up to the size |
| `CtlString.Str.PopBack` | ctl/string.cc:208-219 | the last byte goes; traps exactly on the empty string |
| `CtlString.Str.Clear` | ctl/string.h:156-163 | the empty text, same buffer |
| `CtlString.Str.Replace` | ctl/string.cc:311-341 | the part is replaced; traps on the position exactly when it is out of range |
| `CtlString.Str.Insert` | ctl/string.cc:343-365 | the bytes are inserted; traps on the position exactly when it is out of range |
| `CtlString.Str.Erase` | ctl/string.cc:367-384 | the part is removed; traps exactly when the position is out of range |
| `CtlString.Str.Substr` | ctl/string.cc:296-309 | a new string with the part; traps on the position exactly when it is out of range |
| `CtlString.Str.Strcat` | ctl/strcat.cc:26-47 | a new string with both texts, in either representation |
| `CtlString.Str.CStr` | ctl/string.cc:87-97 | never traps; the text and a zero byte |
| `CtlString.Str.Destroy` | ctl/string.cc:29-42 | never traps, and frees exactly the own buffer |
| `CtlString.Str.Adopt` | ctl/string.cc:221-226 | assignment takes the text of the temporary and frees exactly the old buffer |
| `CtlString.Str.AssignView` | ctl/string.h:327-332 | the text becomes the view |
| `CtlStringRuns.OneChanged` | ctl/string.cc:99-384 | an operation on one string leaves every other string, its text and its buffer alone |
| `CtlStringRuns.World.Exec` | ctl/string.cc:99-384 | every operation on any of several strings, moves included, does to the texts what it does to plain sequences; each way to stop has its reason: a length at the limit of the representation, a refused allocation, or a position out of range |
| `CtlStringRuns.World.DoMove` | ctl/string.h:150-154 | move construction and assignment: the target gets the text, the source becomes empty, no other string changes, and it never fails |
| `CtlStringRuns.World.Run` | ctl/string.cc:29-384 | so does every program; it stops early only for want of memory, at an operation whose length is impossible at that point of the plain program, or for a position that is out of range in the plain program too; no buffer is shared or lost |
| `CtlStringRuns.World.End` | ctl/string.cc:29-42 | destroying all strings leaves the heap empty |
| `CtlSort.Partition` | ctl/partition.h:9-25 | the range is rearranged so that everything before the returned place is below the pivot there and nothing after it is |
| `CtlSort.Halves` | ctl/sort.h:13-22 | two sorted halves around a pivot make a sorted range |
| `CtlSort.Sort` | ctl/sort.h:13-22 | the range becomes a sorted permutation of itself, for any strict order, and nothing outside it changes |
| `DrawLine.NearestIs` | examples/asteroids.c:59-71 | the minor coordinate is the only integer less than half a unit off, or exactly half below |
| `DrawLine.NextPixel` | examples/asteroids.c:67-69 | the two tests on the error term say exactly along which axes the next pixel moves |
| `DrawLine.LastPixel` | examples/asteroids.c:66 | the line reaches its end point exactly at the last pixel and overshoots it on neither axis |
| `DrawLine.HalfUnit` | examples/asteroids.c:59-71 | every pixel is within half a unit of the true line along the minor axis |
| `DrawLine.Screen.DrawPixel` | examples/asteroids.c:52-56 | sets the cell if it is on the screen |
| `DrawLine.Screen.DrawLine` | examples/asteroids.c:59-71 | the loop ends after max(abs dx, abs dy) + 1 pixels, which are exactly the rounded line in order, and sets exactly those on the screen |
| `PpuClock.Ppu.ReadStatus` | examples/nesemu1.cc:809-818 | the effect of a status read on the clock |
| `PpuClock.Ppu.RenderingTick` | examples/nesemu1.cc:903-906 | line -1 is shortened exactly at x = 337 with toggle and background on |
| `PpuClock.Ppu.Tick` | examples/nesemu1.cc:1105-1154 | one tick is one step of the clock |
| `PpuClock.AlwaysSound` | examples/nesemu1.cc:763-771 | between ticks after power-up scanline is -1 to 260 and x 0 to 340 on every run, and the blanking counter is that of the position or was cancelled by a status read |
| `PpuClock.FlagTicks` | examples/nesemu1.cc:1105-1121 | the tick at the start of line -1 clears the blanking flag, whatever the program reads, and the tick at the start of line 241 raises it unless the status was read just before; no other tick does either |
| `PpuClock.DuringPass` | examples/nesemu1.cc:1105-1154 | the position after k ticks of a pass, in closed form |
| `PpuClock.OnePass` | examples/nesemu1.cc:1078-1104 | a pass takes 89342 ticks, or 89341 exactly if the toggle is set and the background is on at x = 337, and does not come back earlier |
| `PpuClock.TwoPasses` | examples/nesemu1.cc:1141-1145 | of two passes in a row at most one is short |
| `PpuClock.EveryPass` | examples/nesemu1.cc:1078-1104 | over any number of passes, at most every second one is short |
| `PpuClock.PowerUp` | examples/nesemu1.cc:763-771 | the first pass begins twenty lines after power-up, with the toggle set |

## Left out

- ape/ape-m1.c: a near copy of the loader, tied to Apple libraries.
- System-call numbers, OS detection, stack rebuilding, path search, `Launch` and `Msyscall` in the loader: foreign calls and ABI plumbing.
- The checks of `TryElf` before the two clean-up passes (magic numbers, header sizes, PT_INTERP): one comparison each.
- The stack and the shared pointers are step systems on values: an atomic access is a function from state to state, so update in place of the counters is not captured by a class.
- Weak memory orderings in the stack and in the shared pointers: interleavings are sequentially consistent.
- Stack: 32-bit overflow of `count` and `sum`; `malloc` never fails and returns addresses below 2^56 aligned to 16 bytes, as the source assumes.
- SharedPtr.StepExact: a handle is copied, moved, swapped or destroyed in one step with its atomic access, because C++ forbids another thread to change a handle meanwhile; the element pointer and aliasing constructors are not modelled.
- The set operations `clear`, `swap`, move, hints and reverse iterators, and `operator<`: corollaries.
- CtlSet.Set.Copy: the default-constructed comparison of the copy is a parameter; claims order and links of a copied set, not balance, because colours are not copied.
- `string::find`, `find_first_of`, `find_last_of`, `contains`, `starts_with`, `ends_with`, comparisons and element access: reads of the text.
- CtlString.Str.Append: a view into the string's own buffer is not modelled, nor is it for the other operations that take a view; growing may free that buffer before the bytes are copied.
- `memcpy`, `memset` and `memmove` of the C library act on whole sequences.
- BlasGemm.Sgemm: exact arithmetic instead of rounding, and unbounded `int` instead of 32 bits; A, B and C do not overlap.
- DrawLine.Screen.DrawLine: unbounded coordinates instead of 32 bits.
- The rest of nesemu1 (pixels, sprites, scrolling, audio, mappers, CPU): floating point, I/O or finite tables.
- ctl/map.h, ctl/vector.h, ctl/array.h, ctl/optional.h, ctl/unique_ptr.h, ctl/unique_lock.h and the type traits: corollaries or easy members.
- Streams and number formatting in ctl: wrappers over libraries.
- The other examples: terminal, network or UI code.
