# A model of dsm_db, with proofs

The project models the parts of this database in which state and invariants are hard, and proves them in Dafny.
`dafny verify dfyconfig.toml` checks everything.

| files | what they model |
|---|---|
| `BlinkPage`, `PivotPage`, `LeafPage` | the pages of the B-link index: binary searches, inserts, removals and splits, as functions and as loops over the page's cells |
| `BlinkTree`, `BlinkSteps`, `BlinkSplit`, `BlinkAsWritten`, `BlinkRuns`, `BlinkPosting` | the B-link protocol: any number of inserts and searches, one latched section at a time, in every interleaving |
| `AvlTree`, `AvlNodes`, `AvlOrder`, `AvlSwitch`, `AvlIndex`, `AvlRuns` | the AVL index of the buffer pool: linked nodes with parent pointers and stored heights, its operations as written, and runs of them |
| `AvlStored`, `AvlOutcome`, `AvlHeights`, `AvlExamples` | the climbs of that index as functions of ids and stored heights: that they end, what they leave, and where they go wrong |
| `Bits`, `PageLayout`, `PageView`, `SlottedPage` | the 4096-byte slotted page, byte by byte, with its free list and checksum |
| `IdStore` | the store of free page ids, a stack over a chain of slotted pages |
| `PoolMemory`, `BufferPool`, `PageManager` | which page is in which block and who uses it, on numbers; the blocks, the page table and the disk; pool and id store at work together |
| `JobQueue`, `ThreadPool` | the thread pool: the linked queue as a class, and queue, futures and shutdown as steps in every interleaving |
| `TableMessage`, `CreateTable` | the create-table message from what a user spells to what the server hands on |
| `Counting` | how many numbers fit below a bound |

Code that changes things in place is modelled by classes and methods whose contracts equate the new state with a
function of the old one; what the program promises is then proved about those functions, about every step and about
whole runs.

## Where the code departs from what it is for

The code is modelled as it is. Where it does not do what it is for, the exact condition under which it does is proved,
and what follows from the intended behaviour is proved beside it.

- Pivot insert (src/index/b_page.c:126-139, 291). A separator that is not above all keys gets the new sibling at its
  left, and separator mode then exchanges children 0 and 1 whatever the position. `InsertLandsExactly`: this is the
  needed placement iff the key is above all others, or below all others in separator mode. `MisplacedMisroutes`:
  otherwise some key at or below the separator is always sent to the wrong page. `StepKeepsInvExactly`: a step of the
  protocol as written keeps the index invariant iff its separator lands. The runs take a `Reading` parameter and cover
  the code as written on steps that land, and the intended placement on all steps.
- The root id (src/interface/interface.c:832-840) is stored as each insert comes to it. `RootIsTop`: as long as no two
  inserts have a new root to store at once the table page names the topmost page or the insert is about to store it.
  `RootKnownExactly`: a step keeps that iff it does not store an older root with nobody left to store the topmost one;
  `OlderRootStays` is every state in which two inserts store theirs the wrong way round. Searches and inserts that begin
  at an older root still find what is there, by moving right.
- Leaf capacity (src/index/b_page.c:228-231) forgets the four bytes of the upper fence. `LeafSafeFitsExactly` says for
  which record widths that does no harm. The widths of tables are sums of attribute sizes, all multiples of eight, and
  eight is the only one on which it does: `TableLeafSafeFitsExactly`. `SafeOverruns`: a leaf of 508 records of one str8
  attribute is called safe. The protocol takes the capacity as a parameter.
- Leaf split (src/index/b_page.c:248-263) of a page with room for one or two records can put all of them and the new one
  in one half. `SplitLeafFitsExactly`: the halves of every full leaf and record fit iff the width is at most 1357, that is,
  iff a page takes three records; `SplitLeafJoins` says for which records they fit otherwise, and `SplitOverruns` is a
  table of six 256-byte attributes on which they do not. The protocol assumes three.
- AVL removal (common/avl.c:150-164) tests all four rotation cases with the difference computed before the first, so two
  can fire at one level, and a level turned twice can turn again on the way back. `RemoveStepBalancesExactly`: what one
  pass leaves is balanced iff the second rotation does not fire or is harmless. `RemovalOutcome`, for every removal from
  a balanced tree with exact heights: the tree is balanced at the end iff `StaysBalanced`, and all heights are exact iff
  `StaysExact`. Both are read off the untouched subtrees beside the way up before the call. A level that leans by two
  below the root must mend (`HeavyOutcome`), and the root, if it fires twice, must have an even heavy child, whose inner
  grandchild does not lean back if the tree is to be balanced. `TwiceMendsExactly`: a level that fires twice mends iff
  the inner part of its heavy child's inner part does not lean outward from the heavy child, unless that child is uneven
  and one more part leans on, when `ZigOutcome` follows the parts in turn. `RemoveAsWritten` has the same for the linked
  index: a valid one is valid again iff both hold. `WrittenClimbUnbalances` is a removal after which neither holds, and
  `MendedRemoval` one whose harm is mended. `Remove` keeps heights and balance with one case per level.
- So the trees an insert meets need not be balanced. The AVL insert (common/avl.c:132-139) as written keeps a valid index
  valid (`Insert`), but on a tree that an earlier removal has left unbalanced it can follow a null pointer.
  `InsertFailsExactly`: it does so iff its climb comes to a node that leans by two or more away from the new id and whose
  heavy child has no inner child. `InsertFollowsNull` is an insert that does so after two removals from a valid index.
- Whatever the heights, all operations as written keep order and pointers (`Play`), and all climbs end (`RemoveEnds`,
  `InsertEnds`).
- AVL inserts need ids that are not in the index yet, which the page table sees to.
- Removing the only AVL node dereferences a null pointer (common/avl.c:321). `StartsAtNullExactly`: the climb of a
  removal starts at one iff the tree had one node; `Remove` and `RemoveAsWritten` report it.
- A thread pool of no workers joins at once and leaves what was submitted in the queue (common/threadpool.c:339-350).
  `JoinedDoneExactly`: a join that has returned means that all tasks are done iff there are workers or there was no task.
- The id store writes a full page out only if its block is marked dirty (src/pool/pool.c:225). `FreeThenAllocate`:
  after a free and an allocate the store is as it was iff the page pushed out had been written or was on disk before.
- A page that leaves memory is lost unless it was marked dirty or is on disk as it is: `Pool.Close` has the condition.
- A block is given back with a user count left over when its page is deleted while somebody uses it
  (src/pool/pool.c:502-518), or when a close is enforced while others use it (src/pool/pool.c:403-406, 538-553). All empty
  blocks being at zero, a delete keeps them there iff the page is not in memory or has no user
  (`DeleteKeepsCleanExactly`), and a close iff the page stays or had one user (`CloseKeepsCleanExactly`). A page that then
  comes into such a block starts above one, and its only user's close frees it iff the count left over was zero
  (`CloseFreesExactly`); `EnforcedCloseStrands` and `DeleteStrands` are the runs that leave a page in memory with no user.
  Over whole runs a page is in memory whenever somebody has it open (`OpenStays`), and only then if no page in memory is
  deleted (`OpenExactly`).
- Message decoding takes a single nameless attribute for none (src/cmd/cmd.c:266): `CreateFormat` has the condition.

## Model

| member | source | states |
|---|---|---|
| BlinkPage.InsertLandsExactly | src/index/b_page.c:97-141 | for every pivot and new separator the insert routine places the sibling at the separator's right iff the key goes behind all others, or in separator mode in front of all |
| BlinkPage.MisplacedMisroutes | src/index/b_page.c:126-139 | whenever the sibling is misplaced, some key at or below the separator is routed to it |
| BlinkPage.InsertMisroutes | src/index/b_page.c:126-139 | a concrete pivot on which keys of two children end up at the wrong page |
| BlinkPage.PlaceRightRoutes | src/index/b_page.c:97-141 | with the sibling at the right of its separator every key is routed as before, except that keys of the split child above the separator go to the sibling |
| BlinkPage.SplitPivotJoins | src/index/b_page.c:267-293 | the two halves around the promoted key, the middle one, concatenate to the full pivot with the separator placed; both are sorted, non-empty and within capacity |
| BlinkPage.SplitLandsExactly | src/index/b_page.c:291 | the split as written agrees with the intended one iff the separator goes behind all keys of its half |
| BlinkPage.RemoveRoutes | src/index/b_page.c:295-342 | a removal reroutes only the keys of the dropped child, to its left neighbour or, leftmost, to its right one; it reports absence iff the key is absent and not below all others |
| BlinkPage.RemoveUndoesPlace | src/index/b_page.c:97-342 | removing a separator just placed gives back the pivot as it was, for every pivot and key |
| BlinkPage.PlaceUndoesRemove | src/index/b_page.c:310-335 | a removal of a key that is there takes out that key and the child at its right and nothing else: placing both again gives the old pivot |
| BlinkPage.LeftestLeaves | src/index/b_page.c:302-307 | for a key below all others the first key and the leftmost child go and nothing else |
| BlinkPage.LeafInsertSorted | src/index/b_page.c:143-182 | an insert keeps the leaf sorted and adds exactly the record, unless its key is there |
| BlinkPage.RemoveUndoesInsert | src/index/b_page.c:344-366 | removing a key just inserted gives back the same records |
| BlinkPage.LeafRemoveLeaves | src/index/b_page.c:344-366 | a removal takes out the record with the key, if there is one, and no other |
| BlinkPage.SplitLeafJoins | src/index/b_page.c:244-265 | the halves of any full leaf are its records plus the new one, in order, with the fence between them; both are within capacity iff that is three, or the record goes to the upper half or nowhere |
| BlinkPage.SplitLeafFitsExactly | src/index/b_page.c:248-263 | for a record width, every full leaf and record split into halves that fit the page iff the width is at most 1357 |
| BlinkPage.SplitOverruns | src/index/b_page.c:248-263 | with six 256-byte attributes, inserting 15 into a leaf of 10 and 20 leaves 4608 bytes in an area of 4070 |
| BlinkPage.FullLeaf | src/index/b_page.c:223-233 | a leaf is first called unsafe when it has 4073 / width records |
| BlinkPage.LeafSafeFitsExactly | src/index/b_page.c:223-233 | a leaf called safe has room for one more record, at every count, exactly for the widths with a stated remainder |
| BlinkPage.TableLeafSafeFitsExactly | src/interface/interface.c:698-701 | for the record width of any attribute list, a leaf called safe has room at every count iff the list is not a single str8 |
| BlinkPage.SafeOverruns | src/index/b_page.c:228-231 | with one str8 attribute a leaf of 508 records is called safe, and one more fills 4072 bytes of 4070 |
| PivotPage.PivotPage.constructor | src/index/b_page.c:36-47 | an initialised pivot page is empty and open to the right |
| PivotPage.PivotPage.Set | src/index/b_page.c:235-241 | the new root or right half starts with one key between two children |
| PivotPage.PivotPage.Scan | src/index/b_page.c:49-69 | the binary search returns the child whose key range covers the key, for every pivot and key |
| PivotPage.PivotPage.Locate | src/index/b_page.c:112-124 | the insert's search loop finds the rank of the key and whether it is there |
| PivotPage.PivotPage.SwapCells | src/index/b_page.c:135-139 | three exclusive-ors exchange the child fields of cells 0 and 1 and change nothing else |
| PivotPage.PivotPage.ShiftUp | src/index/b_page.c:127-131 | the cells from the slot on move one up, the last child first |
| PivotPage.PivotPage.Insert | src/index/b_page.c:97-141 | the cells afterwards hold the pivot with the key inserted as written; a duplicate is refused |
| PivotPage.PivotPage.CopyUpper | src/index/b_page.c:274-277 | the right half gets exactly the keys from the middle on and the children around them |
| PivotPage.PivotPage.CutTail | src/index/b_page.c:279-286 | the left half keeps the keys before the promoted one |
| PivotPage.PivotPage.Divide | src/index/b_page.c:270-290 | the page is cut around the promoted key, which becomes its fence; the other half takes the old one |
| PivotPage.PivotPage.Split | src/index/b_page.c:267-293 | both pages and the returned key are the split of the old page; fences are the promoted key and the old fence |
| PivotPage.PivotPage.Find | src/index/b_page.c:316-327 | the removal's search loop finds the rank of the key and whether it is there |
| PivotPage.PivotPage.ShiftDown | src/index/b_page.c:328-332 | the keys behind the slot and the children behind those move one down |
| PivotPage.PivotPage.Remove | src/index/b_page.c:295-342 | the cells afterwards hold the pivot that `RemoveFromPivot` gives, with the code that says which child was dropped: one record less, and exactly the other keys |
| LeafPage.LeafPage.constructor | src/index/b_page.c:21-34 | an initialised leaf is empty and open to the right |
| LeafPage.LeafPage.Scan | src/index/b_page.c:71-95 | the binary search finds a record iff the leaf has its key, for every leaf including the empty one |
| LeafPage.LeafPage.Locate | src/index/b_page.c:145-173 | the insert's search finds the rank of the key, or reports the duplicate |
| LeafPage.LeafPage.Insert | src/index/b_page.c:143-182 | the cells afterwards hold the records with the new one in key order; a duplicate is refused |
| LeafPage.LeafPage.Remove | src/index/b_page.c:344-366 | the cells afterwards hold the records without the key |
| LeafPage.LeafPage.Divide | src/index/b_page.c:248-261 | the page is cut behind the middle and the fences become the last key kept and the old fence |
| LeafPage.LeafPage.Split | src/index/b_page.c:244-265 | for a full page of any capacity both pages and the returned key are the split of the old page with the record added, and it reports whether the half it goes to has room |
| BlinkTree.InitInv | src/interface/interface.c:679-744 | an index of one empty leaf satisfies the invariant |
| BlinkTree.SafeExactly | src/index/b_page.c:223-233 | the room test holds of a leaf or pivot iff it has room for one more entry, and for leaves is the test on bytes |
| BlinkSteps.RouteDown | src/interface/interface.c:799-806 | the child a search goes to is one level down, starts below the key, and is no half-finished sibling |
| BlinkSteps.HopRight | src/interface/interface.c:746-767 | the right neighbour reached past a fence is on the same level and starts below the key |
| BlinkSteps.DescendKeepsInv | src/interface/interface.c:799-806 | descending keeps the invariant and the stack of passed pages usable |
| BlinkSteps.HopKeepsInv | src/interface/interface.c:746-767 | moving right keeps the invariant |
| BlinkSteps.LatchKeepsInv | src/interface/interface.c:818-911 | taking a latch, and setting the new sibling's parent when posting, keeps the invariant |
| BlinkSteps.PutLeafKeepsInv | src/interface/interface.c:828-852 | inserting into a leaf with room keeps the invariant |
| BlinkSteps.PutPivotKeepsInv | src/interface/interface.c:828-852 | posting a separator to a pivot with room keeps the invariant where the separator lands (that it is stored: `PutAddsKid`) |
| BlinkSteps.PublishKeepsInv | src/interface/interface.c:832-840 | storing the new root's id in the table page keeps the invariant (that it is stored: `RootIsTop`) |
| BlinkSteps.LookDownKeepsInv | src/interface/interface.c:950-956 | a search's descent keeps the invariant |
| BlinkSteps.LookHopKeepsInv | src/interface/interface.c:958-967 | a search's move along the leaves keeps the invariant |
| BlinkSplit.ParentIsKnown | src/interface/interface.c:898-904 | the page a split posts to, from the stack or the hint, is one level up and starts at or before the split page |
| BlinkSplit.SplitBelowTop | src/interface/interface.c:854-911 | splitting and relinking a page below the root keeps the invariant |
| BlinkSplit.TopIsWhole | src/interface/interface.c:884 | a page without a parent hint that is no pending sibling is the whole top level |
| BlinkSplit.SplitTop | src/interface/interface.c:884-890 | splitting the root under a new root keeps the invariant |
| BlinkSplit.SplitKeepsInv | src/interface/interface.c:853-912 | every split keeps the invariant where its separator lands |
| BlinkSplit.StepKeepsInv | src/interface/interface.c:775-974 | every step of every operation keeps links, fences, order, child placement, parent hints, stacks and latches right |
| BlinkAsWritten.StepKeepsInvExactly | src/interface/interface.c:842-868 | a step of the code as written keeps the invariant iff its separator lands where it belongs |
| BlinkRuns.OneLeaf | src/interface/interface.c:958-969 | at most one leaf covers a key, and it holds the key's record if any leaf does |
| BlinkRuns.StepContents | src/interface/interface.c:826-868 | one step of an insert adds its record to the set in the leaves iff the key was absent; no other step changes the set |
| BlinkRuns.SearchAnswers | src/interface/interface.c:943-969 | the last step of a search returns the one record with its key, or missing iff no leaf has it |
| BlinkRuns.SearchKeepsKey | src/interface/interface.c:925-969 | in every run a search is at each step for the key it was begun with |
| BlinkRuns.AnswersWhatWasAsked | src/interface/interface.c:925-969 | in every run a search begun for a key and ended answers for that key, once and for all: missing iff no record in the index has it by then, otherwise the one record that has it |
| BlinkRuns.RunKeepsInv | src/interface/interface.c:775-974 | the invariant holds in every state of every interleaving |
| BlinkRuns.RunGrows | src/interface/interface.c:826-868 | a record once in the index stays in it through every later split |
| BlinkRuns.InsertedIsFound | src/interface/interface.c:775-974 | after an insert has taken effect every search begun for its key that ends later finds it, whenever and from whichever current or older root it began |
| BlinkRuns.SearchAdvances | src/interface/interface.c:950-967 | a search's own step lowers the level, comes to the leaves, moves the lower fence up or answers; other operations' steps change none of that |
| BlinkRuns.SearchEnds | src/interface/interface.c:943-969 | in every interleaving a search takes at most as many steps of its own as its level and key leave when it begins, and has then answered |
| BlinkRuns.SearchBound | src/interface/interface.c:943-969 | from a root of level l and for key k that is at most l + k + 2 steps |
| BlinkRuns.InsertTakesEffect | src/interface/interface.c:775-914 | in every run, an insert that is posting a separator, publishing a root or done has its key in the index |
| BlinkRuns.DoneIsFound | src/interface/interface.c:775-974 | a search begun for the key of an insert and ended after that is done finds it, in every interleaving |
| BlinkRuns.CommitsItsOwn | src/interface/interface.c:826-868 | what an insert adds when it takes effect is the record it was begun with |
| BlinkRuns.OnlyInserted | src/interface/interface.c:826-868 | in every run each record in the index is that of an insert |
| BlinkRuns.InsertEnds | src/interface/interface.c:775-914 | in every interleaving an insert takes at most as many steps of its own as levels and keys leave for the height the index has in the end, and is then done |
| BlinkRuns.InsertBound | src/interface/interface.c:775-914 | from a root of level l and for key k that is at most l + k + 4 steps and 2^32 + 3 for each level above the leaves |
| BlinkRuns.LevelIsChain | src/interface/interface.c:859-890 | in every state of every run each level is one acyclic chain of right links with back links its inverse and fences that meet, and no page is off the chain |
| BlinkRuns.OnlyLatchesBlock | src/interface/interface.c:746-912 | an unfinished operation can take its next step unless it waits for a latch |
| BlinkRuns.NeverDeadlocks | src/interface/interface.c:818-912 | while an operation is unfinished and ids are left, some unfinished operation can take its next step |
| BlinkPosting.PutAddsKid | src/interface/interface.c:842-845 | putting a separator into a pivot makes its sibling a child and changes no other child |
| BlinkPosting.SeparatorsArrive | src/interface/interface.c:826-911 | in every state of every run each page below the top is the child of a pivot or carried by an unfinished insert |
| BlinkPosting.ChildCovers | src/interface/interface.c:950-956 | when nothing is carried the child that a covering pivot routes a key to covers the key |
| BlinkPosting.StraightDown | src/interface/interface.c:943-969 | in every run a search begun at the top when nothing is carried goes through one page a level, in level + 2 steps, as long as no page is split |
| BlinkPosting.NeverHops | src/interface/interface.c:958-967 | such a search never moves right |
| BlinkPosting.InsertGoesStraight | src/interface/interface.c:799-826 | such an insert goes straight to the leaf that covers its key too |
| BlinkPosting.PostsWhereItPassed | src/interface/interface.c:799-906 | in every run an insert that splits a page below the level it began at posts the separator to the page it passed one level up |
| BlinkPosting.HintsMove | src/interface/interface.c:884-910 | which parent hints each step moves, and to where |
| BlinkPosting.RootKnownExactly | src/interface/interface.c:832-840 | a step keeps the topmost page known iff it does not store an older root with nobody left to store the topmost one |
| BlinkPosting.RootIsTop | src/interface/interface.c:832-890 | in every run in which no two inserts have a root to store at once the table page names the topmost page or the insert is about to store it |
| BlinkPosting.OlderRootStays | src/interface/interface.c:832-840 | two roots stored the wrong way round leave the table page at the older one |
| AvlTree.RemoveFixBalances | common/avl.c:144-167 | one rotation case balances any subtree that leans by at most two and lowers it by at most one |
| AvlTree.RemoveStepKeepsOrder | common/avl.c:144-167 | the four tests made in turn keep the order of the nodes |
| AvlTree.RemoveStepBalancesExactly | common/avl.c:153-164 | the four tests of one level leave its subtree balanced iff the second rotation does not fire or is harmless |
| AvlTree.RemoveClimbBalances | common/avl.c:144-167 | climbing to the root with one case per level restores balance everywhere |
| AvlTree.BalancedIsFull | common/avl.c:118-142 | a balanced tree of height h has at least Fib(h+2)-1 nodes |
| AvlOrder.RaiseLeft | common/avl.c:128-135 | a left child grown by an insert leaves a tree that its one fitting rotation balances, and it leans to the new key |
| AvlOrder.RaiseRight | common/avl.c:130-139 | the same on the right |
| AvlIndex.AvlIndex.constructor | common/avl.c:32-36 | a new index is empty and valid |
| AvlIndex.AvlIndex.DoRight | common/avl.c:92-116 | the pointers become those of the tree rotated right, and two heights are recomputed from those stored below |
| AvlIndex.AvlIndex.DoLeft | common/avl.c:66-90 | the pointers become those of the tree rotated left, and two heights are recomputed from those stored below |
| AvlIndex.AvlIndex.InsertStep | common/avl.c:125-140 | on any linked ordered tree at most one of the four tests fires, and the pointers and heights become those of that rotation, or a null pointer is followed |
| AvlIndex.AvlIndex.InsertBalance | common/avl.c:118-142 | in any state the climb is that of `InsertRun`, ends, and keeps order and pointers; from a valid index it ends with exact heights and balance |
| AvlIndex.AvlIndex.FindParent | common/avl.c:264-280 | in any state the descent stops where the new id belongs |
| AvlIndex.AvlIndex.Insert | common/avl.c:255-283 | in any state adds exactly the node and keeps order and pointers, or follows a null pointer as `InsertRun` says; a valid index stays valid and never does |
| AvlIndex.AvlIndex.Search | common/avl.c:324-333 | in any state finds the node iff its id is present, in at most as many steps as the tree is high; in a valid index logarithmically many (Fib(steps+2) <= count+1) |
| AvlIndex.AvlIndex.SwitchPointers | common/avl.c:169-253 | every link to one of the two nodes names the other afterwards, adjacent or not, and heights are exchanged |
| AvlIndex.AvlIndex.Switch | common/avl.c:169-253 | the pointers become those of the tree with a node and its successor exchanged |
| AvlIndex.AvlIndex.FindMin | common/avl.c:59-64 | finds the leftmost node of the subtree |
| AvlIndex.AvlIndex.CutOut | common/avl.c:289-314 | a node with at most one child is replaced by that child |
| AvlIndex.AvlIndex.Unlink | common/avl.c:285-319 | in any state any node is taken out with every other node kept in order, and stored heights are those `TakenOut` says |
| AvlIndex.AvlIndex.RemoveBalance | common/avl.c:144-167 | with one case per level the climb restores exact heights and balance |
| AvlIndex.AvlIndex.Remove | common/avl.c:285-322 | removes exactly the node and keeps order, pointers, heights and balance, with one case per level; reports the only node |
| AvlIndex.AvlIndex.RemoveStepAsWritten | common/avl.c:148-166 | in any state one level of the climb as written gives the tree, heights and next node the four tests give, never through a null pointer |
| AvlIndex.AvlIndex.RemoveBalanceAsWritten | common/avl.c:144-167 | from any node in any state the climb as written is that of `RemoveRun`, ends, follows no null pointer and keeps order and pointers |
| AvlIndex.AvlIndex.RemoveAsWritten | common/avl.c:285-322 | in any state removes exactly the node and keeps order and pointers, with the climb of `RemoveRun`; reports the only node; a valid index is valid again iff `StaysExact` and `StaysBalanced` hold where the node came out |
| AvlIndex.AvlIndex.ValidInHeights | common/avl.c:118-167 | an index that is in order is valid iff no stored height is stale and the tree is balanced |
| AvlRuns.Play | common/avl.c:255-322 | over every run of inserts and removals as written the nodes are the right ones, in order, with pointers that agree, until an insert follows a null pointer or the only node is removed |
| AvlStored.RemoveEnds | common/avl.c:144-167 | every removal climb ends, whatever heights are stored; exact heights beside the way give exact heights below the root |
| AvlStored.InsertEnds | common/avl.c:118-142 | every insert climb ends or follows a null pointer, whatever heights are stored |
| AvlOutcome.StartsAtNullExactly | common/avl.c:285-321 | a removal's climb starts at a null pointer iff the tree had one node |
| AvlOutcome.TestsAreStep | common/avl.c:150-164 | with exact heights below, a pass makes the rotations of `RemoveStep` |
| AvlOutcome.StuckExactly | common/avl.c:126-139 | a pass of an insert follows a null pointer iff the node leans by two or more away from the new id and its heavy child has no inner child, and turns nothing iff the node leans by one at most or the new id is its heavy child |
| AvlOutcome.InsertFailsExactly | common/avl.c:118-142 | an insert of a new id into any ordered tree follows a null pointer iff its climb comes to such a node |
| AvlHeights.MirrorTests | common/avl.c:153-164 | the removal's tests treat left and right alike |
| AvlHeights.HeavyEnds | common/avl.c:144-167 | what the climb leaves of a level with an untouched heavy child, whatever cascade second tests set off: exact heights, the height `HeavyOutcome` says, and balance iff that says it mends and the other child was balanced |
| AvlHeights.TwiceMendsExactly | common/avl.c:144-167 | a level below the root that fires twice and sets off no longer cascade is left balanced iff one part of the untouched heavy child does not lean outward |
| AvlHeights.ClimbOutcome | common/avl.c:144-167 | the climb comes to the root with exact heights below it and no lean above two, and the tree it leaves is exact and balanced iff the conditions say so; harm left at one level is never mended above it |
| AvlHeights.RemovalOutcome | common/avl.c:285-322 | for every removal from a balanced tree with exact heights of any node but the only one: the heights at the end are exact iff `StaysExact`, and the tree is balanced iff `StaysBalanced`, both of the tree before |
| AvlHeights.RemovalStaysExactly | common/avl.c:285-322 | so for the climb however many passes it takes: the index is exact and balanced again iff both conditions hold |
| AvlExamples.WrittenClimbUnbalances | common/avl.c:285-322 | a removal from a balanced tree of twenty nodes that leaves it unbalanced and a height wrong |
| AvlExamples.NextRemoval | common/avl.c:285-322 | the next removal, of a node with two children, from what that one leaves |
| AvlExamples.InsertFollowsNull | common/avl.c:118-142 | the next insert follows a null pointer |
| AvlExamples.MendedRemoval | common/avl.c:144-167 | a removal with a pass below the root that leaves its subtree unbalanced, mended when the climb comes back |
| AvlExamples.ValidAgain | common/avl.c:144-167 | the tree before and after that removal is balanced with exact heights |
| PageLayout.FullAtTheMaximum | src/disk/page.c:6-24 | the full test holds iff the record count has reached the maximum, for every width |
| PageLayout.AreasApart | src/disk/page.c:6-39 | for every width entries and slot words are inside the page and never overlap |
| PageLayout.SlotBits | src/disk/page.c:41-59 | seat, null mark and link share a slot word without touching each other |
| PageLayout.DamageIsNoticed | src/disk/page.c:61-81 | damage confined to one two-byte word always breaks the checksum |
| PageLayout.ChecksumIsParity | src/disk/page.c:61-71 | each bit of the checksum says whether an odd number of words has it |
| PageView.InsertReads | src/disk/page.c:101-128 | after an insert its position reads the item and what stood behind it, with the null mark iff there was none, and every other position reads as before |
| PageView.UpdateReads | src/disk/page.c:154-164 | after an update its position reads the new bytes and every other as before |
| PageView.DeleteReads | src/disk/page.c:130-152 | after a delete its position reads nothing, every other as before, and the next insert takes it |
| PageView.WalkVisitsTheFree | src/disk/page.c:101-152 | following as many links as places are left visits each unseated slot once and no seated one |
| PageView.FreeSlotTells | src/disk/page.c:103-124 | the free-slot field says full iff the record count has reached the maximum |
| PageView.OthersKept | src/disk/page.c:101-164 | changing one position's slot and entry changes nothing any other position stands for |
| PageView.InsertRepresents | src/disk/page.c:101-128 | bytes with the first free slot seated stand for the map with the entry added |
| PageView.DeleteRepresents | src/disk/page.c:130-152 | bytes with a slot linked in front of the free list stand for the map without the entry |
| SlottedPage.Page.CalculateChecksum | src/disk/page.c:61-71 | the loop folds every word but the first |
| SlottedPage.Page.Init | src/disk/page.c:211-223 | the page stands for no entries with all positions free in order, for every legal width |
| SlottedPage.Page.NotSeated | src/disk/page.c:95-99 | the seat bit is clear iff the position has no entry |
| SlottedPage.Page.Insert | src/disk/page.c:101-128 | the item goes to the first free position and nothing else changes; full and damaged pages are refused unchanged |
| SlottedPage.Page.DeleteByIndex | src/disk/page.c:130-152 | the entry goes and its position becomes the first free one; absent entries and damaged pages are refused unchanged |
| SlottedPage.Page.UpdateByIndex | src/disk/page.c:154-164 | that entry and no other changes; absent entries and damaged pages are refused unchanged |
| SlottedPage.Page.ReadByIndex | src/disk/page.c:186-191 | returns the entry's bytes iff the position is in use |
| SlottedPage.Page.SetNextPid | src/disk/page.c:166-173 | only the link to the next page changes; a damaged page is refused |
| SlottedPage.Page.SetPageType | src/disk/page.c:205-209 | only the type changes and the checksum holds |
| IdStore.PushedStack | src/pool/pool.c:216-232 | over the whole chain a free is a push, also when it starts a new page |
| IdStore.PoppedStack | src/pool/pool.c:192-214 | an allocate is a pop, also when it uses up a page whose own id it then hands out |
| IdStore.PopUndoesPush | src/pool/pool.c:192-232 | a pop after a push gives back the id and the chain |
| IdStore.TakenIs | src/pool/pool.c:192-214 | n ids taken are the stacked ones, last first, and then the counter's values, which wrap; the rest of the stack stays |
| IdStore.IdStore.constructor | src/pool/pool.c:134-190 | a new database starts with page 2 as the empty store and ids below 3 taken |
| IdStore.IdStore.AllocateOne | src/pool/pool.c:197-211 | hands out the topmost id, or the counter when the stack is empty, and leaves the chain popped |
| IdStore.IdStore.FreeOne | src/pool/pool.c:222-229 | pushes the id, writing a full page out under its own id if it is marked dirty |
| IdStore.IdStore.AllocatePagesId | src/pool/pool.c:192-214 | n ids are n pops and then counter values, across any number of pages |
| IdStore.IdStore.FreePagesId | src/pool/pool.c:216-232 | the ids end up on the stack in order, across any number of pages |
| IdStore.IdStore.FreeThenAllocate | src/pool/pool.c:192-232 | gives back the id and the chain; the store is intact iff the page pushed out was written or was on disk |
| IdStore.NeverHandedOutTwice | src/pool/pool.c:192-214 | an id handed out was not in use and is no system id |
| IdStore.RunKeepsPartition | src/pool/pool.c:192-232 | in every run system ids, ids in use and stored ids are exactly the ids below the counter, each in one place |
| PoolMemory.OpenKeepsClean | src/pool/pool.c:559-602 | opening leaves no count over in an empty block, and a page that comes into a clean one has one user |
| PoolMemory.CloseKeepsCleanExactly | src/pool/pool.c:392-553 | a close leaves no count over in an empty block iff the page stays or had one user |
| PoolMemory.DeleteKeepsCleanExactly | src/pool/pool.c:392-536 | a delete leaves none over iff the page is not in memory or has no user |
| PoolMemory.CloseFreesExactly | src/pool/pool.c:392-602 | a page opened once and closed leaves memory iff its block came with no count left over |
| PoolMemory.EnforcedCloseStrands | src/pool/pool.c:392-602 | from any clean state with an empty block: after an enforced close of a page with two users the next page, opened once and closed, stays in memory with no user |
| PoolMemory.DeleteStrands | src/pool/pool.c:392-602 | the same after a page is deleted by its only user |
| BufferPool.SubPool.constructor | src/pool/pool.c:286-305 | the sixteen blocks are chained in order and none is used |
| BufferPool.SubPool.AllocateBlock | src/pool/pool.c:41-55 | takes the first empty block, or none iff all are used |
| BufferPool.SubPool.FreeBlock | src/pool/pool.c:76-87 | the block becomes the first empty one, clean and not occupied |
| BufferPool.Pool.constructor | src/pool/pool.c:262-312 | sixty-four empty blocks over four lists and an empty table |
| BufferPool.Pool.TakeBlock | src/pool/pool.c:572-575 | takes the first block of the first list that is not empty, or none iff all four are empty; every block keeps its user count |
| BufferPool.Pool.SomeInUse | src/pool/pool.c:41-87 | a block that is in no list is counted as used by its sub pool |
| BufferPool.Pool.BlocksAreNotShared | src/pool/pool.c:339-431 | no two pages of the table share a block and none of their blocks is in a free list |
| BufferPool.Pool.FullAtTheBlocks | src/pool/pool.c:41-87 | no block is empty iff the table has as many pages as there are blocks |
| BufferPool.Pool.MemoryKept | src/pool/pool.c:339-431 | table, free lists and counts on numbers are kept as the blocks are: no two pages share a block, no page is in an empty one, and no block is empty iff the lists are |
| BufferPool.Pool.Open | src/pool/pool.c:559-602 | never changes what any id reads; fails iff the page is not in memory and the read is incomplete or no block is empty; table, free lists and user counts become those of `Opened` |
| BufferPool.Pool.PageSwapOut | src/pool/pool.c:33-39 | a dirty page is written under the id it carries, a clean one is not |
| BufferPool.Pool.Close | src/pool/pool.c:538-553 | the page leaves memory iff its last user closes it or that is enforced; it reads as before iff it stays, or was dirty or on disk as it is; table, free lists and user counts become those of `Closed` |
| BufferPool.Pool.MDelete | src/pool/pool.c:502-518 | the page leaves memory and table unwritten, and its block keeps its user count; every other id reads as before |
| BufferPool.Pool.DDelete | src/pool/pool.c:527-536 | the id is freed whether or not the page is in memory; every other id reads as before, and table, free lists and user counts become those of `Gone` |
| PageManager.PageManager.TakeId | src/pool/pool.c:192-214 | an id from the store was not in use before and is from now on |
| PageManager.PageManager.Create | src/pool/pool.c:436-464 | takes a block before an id, and no id without a block; the new page is as initialised and every page in use reads as before |
| PageManager.PageManager.Open | src/pool/pool.c:559-602 | with the id store on the same disk no id reads otherwise afterwards |
| PageManager.PageManager.Close | src/pool/pool.c:538-553 | a write-back never touches the pages of the id store |
| PageManager.PageManager.ReturnId | src/pool/pool.c:216-232 | a store page written out never touches the place of a page in use |
| PageManager.PageManager.Delete | src/pool/pool.c:502-536 | the id goes back to the store; every other page in use reads as before |
| PageManager.PageManager.Serve | src/pool/pool.c:192-602 | over every run of creates, opens, changes, closes and deletes the answers are those of a plain map from page ids to pages, each request is refused iff the pages then in memory say so, and pages in memory, free lists and user counts move exactly as `Opened`, `Closed` and `Gone` say |
| PageManager.FetchReadsLastWrite | src/pool/pool.c:192-602 | in every run a page that is fetched reads what was last written to it, and has not been deleted since |
| PageManager.OpenStays | src/pool/pool.c:339-602 | in every run from a new pool a page that somebody has open is in memory, with at least as many users |
| PageManager.OpenExactly | src/pool/pool.c:339-602 | in every run from a new pool in which no page is deleted while in memory a page is in memory iff somebody has it open, with just as many users, and no empty block has a count left over |
| JobQueue.Queue.Push | common/threadpool.c:313-324 | the task goes in front; sleepers are woken iff the queue was empty |
| JobQueue.Queue.Fetch | common/threadpool.c:200-213 | the walk takes the oldest task and keeps the others in order |
| ThreadPool.StepKeepsInv | common/threadpool.c:57-350 | every step of every interleaving keeps the invariant |
| ThreadPool.RunKeepsInv | common/threadpool.c:57-350 | it holds in every state of every run, for any number of workers |
| ThreadPool.NoUseAfterFree | common/threadpool.c:57-256 | no step uses a future that has been freed, so none is freed twice |
| ThreadPool.GivenUpAndDoneIsFreed | common/threadpool.c:57-247 | a future is freed iff its caller gave it up and its task is done, by exactly one of worker and caller |
| ThreadPool.FreedByItsUser | common/threadpool.c:57-256 | a future becomes freed only in a step that uses it, and stays freed |
| ThreadPool.TakenInOrder | common/threadpool.c:200-324 | tasks leave the queue in the order of submission |
| ThreadPool.ResultStays | common/threadpool.c:234-247 | in every run, once a task's call has returned, that is what its finished future holds in every later state |
| ThreadPool.CallsAreOne | common/threadpool.c:219-247 | in every run a task is called at one step only |
| ThreadPool.GetDelivers | common/threadpool.c:77-154 | in every run a get returns only after its task was called, with what that one call returned |
| ThreadPool.GetsAreCounted | common/threadpool.c:77-154 | in every run a future counts the gets that have begun and not returned, and such a get can return iff the task is finished |
| ThreadPool.RunningIsStarted | common/threadpool.c:219-233 | in every run a future is marked as running iff its task was started |
| ThreadPool.JoinedMeansDone | common/threadpool.c:339-350 | when the join of a pool with workers returns the queue is empty, each worker consumed a pill of its own and every task submitted before was called exactly once and is done |
| ThreadPool.JoinedDoneExactly | common/threadpool.c:339-350 | in every run, a join that has returned means all tasks done iff there are workers or nothing was submitted |
| ThreadPool.JoinWithoutWorkers | common/threadpool.c:339-350 | a run in which a pool of no workers joins with a task in the queue |
| ThreadPool.ProgressDecreases | common/threadpool.c:181-262 | each step on a task leaves less to do |
| ThreadPool.JoinNeverStuck | common/threadpool.c:339-350 | while the join waits some worker can go on |
| TableMessage.SizeIsSpelled | src/cmd/cmd.c:17-42 | the size of each kind is the number spelled in its name |
| TableMessage.CodesInOrder | client/db_client.c:109-130 | the kinds are numbered from one on, integers before strings and each by size |
| TableMessage.SizeIsWritten | client/db_client.c:109-165 | where in the user's text the digits of each attribute's size stand |
| TableMessage.OneKindFits | client/db_client.c:102-130 | a text starts with at most one type name, so the order of the comparisons does not matter |
| TableMessage.PackedAt | client/db_client.c:132-165 | where each attribute's head and name stand in the packed bytes |
| TableMessage.PackedIsShorter | client/db_client.c:132-165 | the packed bytes never outgrow the text they are made from |
| CreateTable.StrCmp | client/db_client.c:102-107 | true iff the text starts with the given name |
| CreateTable.StrToType | client/db_client.c:109-130 | the code of the type name the text starts with, 0 iff it starts with none |
| CreateTable.AttrTypeFormater | client/db_client.c:132-165 | for every well-formed attribute list the buffer holds exactly its packed form and is never overrun |
| CreateTable.TableCommand | client/db_client.c:285-319 | the message is type, body length, command number and body |
| CreateTable.Executer | src/network/net.c:281-308 | splits at the first separator, which becomes a zero, and counts what is left behind it |
| CreateTable.CreateFormat | src/cmd/cmd.c:259-281 | in place, every name reads as a C string with its type's size although each next head is overwritten; a lone nameless attribute is taken for none |
| CreateTable.DecodeUndoesEncode | client/db_client.c:269-320 | from the user's text through message, split and decoder come the same table name, attribute names and the sizes whose digits the user wrote |

## Left out

- B-link removal (`db_1_iremove`), merging of pages and replacing of separators: two pages that both count as not full enough can exceed one page when merged, and the leaf merge drops the open upper fence. No removal runs beside the inserts and searches of `BlinkRuns`.
- The index latch of src/latch/isdlock.c: its exclusion is not an invariant of the code. Page latches are taken as exclusive.
- BlinkTree.InitInv: the table page beside the index (column names, record count) is not modelled, only the root's page id.
- BlinkRuns.SearchAnswers: the answer is the record the leaf scan finds; the source drops it and returns a state it never sets (src/interface/interface.c:969-973).
- BlinkRuns.InsertedIsFound: a search's fence test and its scan of the leaf take no latch (src/interface/interface.c:958-969) and are one step here, so it does not see records that are just being moved in place; each page visit is atomic.
- BlinkSplit.SplitTop: the room test on a new root, which has no latch (src/interface/interface.c:828), is folded into the split; if other operations fill that root between lines 910 and 828, the program splits it with a separator it has posted already.
- BlinkTree.Inv: leaves have room for three records at least, which is so for the widths of `SplitLeafFitsExactly`.
- PivotPage.PivotPage.Remove: the merge and root bits of the state output, which only index removal reads, are not modelled.
- LeafPage.LeafPage.Remove: likewise for the last-record, merge and root bits.
- IdStore.IdStore.constructor: the info page and the directory page of a new database are not set up.
- Creating a sibling or a new root page is taken to succeed; the source has no handling for it to fail (src/interface/interface.c:854-890).
- What an insert reports to its caller for a duplicate key is not in the protocol's steps, and a record is its key and the rest of its bytes, not positions in the 4070-byte data area.
- Page ids and keys are unsigned 32-bit values; the places where the source holds a key in a signed int are read as unsigned.
- AvlIndex.AvlIndex.RemoveBalance: one rotation case per level is the intended reading; the source makes four tests (`RemoveBalanceAsWritten`).
- AvlIndex.AvlIndex.Remove: likewise, the source is `RemoveAsWritten`.
- Concurrent opens and closes in the buffer pool and the states they wait for: the pool runs one operation at a time. Index pages are not written back under their own id by the source, so pages are general pages here.
- BufferPool.Pool.constructor: the three system pages that the source keeps in the first blocks are not in the table; the id store has its own page.
- `mp_pages_create`, which makes several pages with a user count of zero (src/pool/pool.c:466-494), is not part of this model.
- PageManager.PageManager.Create: at most 2^32 - 1 page ids are ever taken; when they run out the source's counter wraps.
- ThreadPool.StepKeepsInv: waits with a time limit, cancelled workers and failing allocations are not steps. Waiters and broadcasts on a future are folded into the step that returns its result.
- CreateTable.DecodeUndoesEncode: table names have no separator and no zero, the message leaves four bytes of the server's buffer free, and sockets deliver it whole.
- Table-level inserts and removals, the value and key formats of the other commands, schema pages, error printing, file descriptors and epoll.
