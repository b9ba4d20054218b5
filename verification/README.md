# A verified model of the debugger and its nginx core

The repository is a small software debugger built on a copy of nginx's core library. This project models its
state-changing parts in Dafny and proves what they are for.

- **Red-black tree** (`RbShape`, `RbHeap`, `RbOrder`, `RbSorted`, `RbRotate`, `RbInsert`, `RbLevel`, `RbDelete`,
  `RbSearch`, `RbRun`). Nodes with parent pointers and one shared sentinel, changed in place. A tree value and a
  zipper (the tree around a hole) describe what the heap holds; `RbTree.Valid()` ties them together and says that
  the tree is red-black. The parent of the root is left unconstrained, as the code leaves it stale, and the
  sentinel's parent means something only while a deletion is repaired. Each node has a ghost rank that increases
  along the in-order sequence, which is how subtrees are known not to share nodes.
- **Mutex** (`Shmtx`). Every load, compare-and-swap, fetch-and-add, `sem_wait` and `sem_post` is one step of one of
  any number of processes.
- **Debugger** (`ProMem`, `Debugger`, `Sample`). The tracee is an abstract processor: an arbitrary function from text and
  registers to registers, which depends on bytes that the text itself may determine. The debugger patches INT3 bytes, and on a trap gives the byte back, steps once and patches
  again. `Dbug.Valid()` is transparency: the tracee with its bytes restored is in a state of the undebugged run, and
  the reports agree with a log of what was armed; `Play` says that this log holds the breakpoints of the earlier commands.
- **Pool and arrays** (`PoolParts`, `Pools`, `PoolRun`, `PoolScan`, `Arrays`). A bump allocator over a chain of blocks with failure counters
  and a list of large objects, and arrays that grow at the pool's tail or by copying. Memory is a map from addresses
  to bytes, so overlap and lost bytes would show.
- **Queue** (`Queue`). A circular doubly linked list relinked in place.
- **Codecs and numbers** (`Base64`, `Escape`, `Numbers`). Loops over byte arrays with the same shifts, masks and
  overflow tests as the code.

Imperative code is imperative here: each method's `ensures` ties the new state to a function of the old one, and the
lemmas are about those functions. `dafny verify dfyconfig.toml` checks everything.

## What the proofs brought to light

- ngx/ngx_rbtree.c:163-164 cannot be reached: the minimum of a subtree has no left child.
- The first five entries of the large list are looked at for an empty one (ngx/ngx_palloc.c:192-201), not the three its comment
  names; `Pools.Pool.AllocLarge` says which entry is taken.
- The room test of ngx/ngx_palloc.c:128 is right exactly when the aligned fill mark is still inside the block, hence for every
  pool whose size is a multiple of 8 (`PoolParts.RoomTest`).
- In a run without resets at most seven blocks are examined for a small allocation. After a reset of a pool with m > 2 blocks it can be
  m + 5, until six blocks have been added (`PoolParts.ScanBound`, `PoolParts.SevenIffTwo`); `PoolScan.LongScan` is a run that gets there.
- `ngx_pfree` accepts a null pointer as soon as the list has an empty entry (`Pools.Pool.Free`).
- The error tests of `mem.c` compare an unsigned word with 0, so `read_pro_mem` never reports failure and delivers 255s
  (`ProMem.ReadProMem`); a failing `write_pro_mem` has written a prefix (`ProMem.WriteProMem`).
- The table of `NGX_ESCAPE_ARGS` also escapes the semicolon, and that of `NGX_ESCAPE_REFRESH` leaves the percent sign alone, unlike
  the comments above them (ngx/ngx_string.c:1451, ngx/ngx_string.c:1511). For the latter the round trip holds exactly for texts
  without a percent sign (`Escape.RefreshUndone`).

## Model

| member | source | states |
|---|---|---|
| RbShape.FillInOrder | ngx/ngx_rbtree.c:308-365 | the in-order sequence of a tree is what lies before a place, the subtree there, and what lies after: changing a subtree in place keeps all the rest |
| RbShape.FillRedBlack | ngx/ngx_rbtree.c:33-77 | a tree is red-black if and only if the subtree at any place is sound and the surroundings accept its black height and colour |
| RbShape.HeightBound | ngx/ngx_rbtree.h:63-71 | with n nodes and height h, 2^h is at most (n+1)^2 |
| RbShape.DepthHeight | ngx/ngx_rbtree.c:33-95 | no place lies deeper than the tree is high, so a loop that takes one turn for each level is bounded by the height |
| RbShape.TurnsBound | ngx/ngx_rbtree.c:381-393 | such a loop takes at most 2 log2(n+1) turns; the contracts of the descent, the lookup and the walk to the next node count theirs exactly and are bounded so |
| RbShape.BlackHeightBounds | ngx/ngx_rbtree.h:54-60 | a red-black tree of black height b has at least 2^b - 1 nodes and height at most 2b, one more under a red root |
| RbRotate.RbTree.constructor | ngx/ngx_rbtree.h:34-38 | an initialised tree is valid and empty, with the given sentinel |
| RbRotate.RbTree.LeftRotate | ngx/ngx_rbtree.c:308-335 | the exact fields a left rotation changes, at the root or below, with or without an inner subtree, and that it changes no others |
| RbRotate.RbTree.RightRotate | ngx/ngx_rbtree.c:338-365 | the mirror image of the left rotation |
| RbRotate.RbTree.LeftRotateAt | ngx/ngx_rbtree.c:308-335 | at any place in the heap, the subtree becomes the rotated one and the tree around it stays linked |
| RbRotate.RbTree.RightRotateAt | ngx/ngx_rbtree.c:338-365 | the same for the right rotation |
| RbRotate.RbTree.Paint | ngx/ngx_rbtree.h:51-55 | colouring a node changes one colour of the tree and no link |
| RbInsert.Descend | ngx/ngx_rbtree.c:87-96 | the descent of the three insert functions ends below a node with a free side, with as many nodes before it as its comparisons say; it takes one turn for each level, at most 2 log2(n+1) |
| RbInsert.HangLeaf | ngx/ngx_rbtree.c:98-102 | the node hangs at the chosen side, red, with the sentinel on both its sides, and nothing else changes |
| RbInsert.RecolourL | ngx/ngx_rbtree.c:38-42 | red parent and uncle: the recoloured tree is linked in place and the cursor moves up two levels |
| RbInsert.RecolouredLKeeps | ngx/ngx_rbtree.c:38-42 | recolouring keeps the sequence and the black heights and moves the only possible red-red pair up |
| RbInsert.StraightenedLKeeps | ngx/ngx_rbtree.c:45-48 | the inner rotation turns the inner case into the outer one and keeps what the loop needs |
| RbInsert.RotatedLKeeps | ngx/ngx_rbtree.c:50-52 | colouring and rotating the grandparent ends the repair: sound subtree, same black height, same sequence |
| RbInsert.RecolouredRKeeps | ngx/ngx_rbtree.c:58-62 | the mirror image of RecolouredLKeeps |
| RbInsert.StraightenedRKeeps | ngx/ngx_rbtree.c:65-68 | the mirror image of StraightenedLKeeps |
| RbInsert.RotatedRKeeps | ngx/ngx_rbtree.c:70-72 | the mirror image of RotatedLKeeps |
| RbInsert.Repair | ngx/ngx_rbtree.c:33-77 | the repair loop takes exactly one turn for each red uncle on the way up and one for a final rotation, at most the depth of the new node, leaves a valid red-black tree, and does not change the in-order sequence |
| RbInsert.Insert | ngx/ngx_rbtree.c:9-78 | a fresh node enters a valid tree at one position and everything else keeps its order; in a sorted tree it stands just after all nodes not greater and the tree stays sorted, for plain keys, wrapping timers and strings |
| RbInsert.EntriesMatch | ngx/ngx_rbtree.h:12-19 | the in-order sequence shows the true fields of the nodes, none of which is the sentinel |
| RbSorted.LessIsWeakOrder | ngx/ngx_rbtree.c:121-124 | within the window the comparison of each insert function is a strict weak order |
| RbSorted.TimerOffsets | ngx/ngx_rbtree.c:114-124 | for two keys in a window of length 2^63 the sign of the wrapped difference compares their distances from the window's start |
| RbSorted.SlotSeparates | ngx/ngx_rbtree.c:87-96 | in a sorted tree the descent ends after every node not greater and before every greater one |
| RbSorted.PlacedSorted | ngx/ngx_rbtree.c:82-138 | putting an entry just after those not greater keeps the sequence sorted |
| RbSorted.RemovedSorted | ngx/ngx_rbtree.c:141-305 | dropping an entry keeps the sequence sorted |
| RbSorted.Rewindow | ngx/ngx_rbtree.c:114-124 | the window may move on: sorted in one window is sorted in any other that holds all the keys |
| RbSorted.SortedByOffset | ngx/ngx_rbtree.c:114-124 | a sorted timer sequence has non-decreasing distances from the window's start, although the raw keys wrap |
| RbSorted.RunKeepsSet | ngx/ngx_rbtree.c:106-305 | on the sequences alone: if at each step what is live and what is added lie in one window, which may move from step to step, then after any run the sequence is sorted, has no repeats, and holds exactly the plain set |
| RbDelete.Min | ngx/ngx_rbtree.h:63-71 | returns the first node of a subtree, with its place in the tree, after as many turns as it lies deep there |
| RbDelete.Choose | ngx/ngx_rbtree.c:152-168 | picks the node itself when it has a free side, else its successor, and the only child that can stand in for it |
| RbDelete.UnlinkAt | ngx/ngx_rbtree.c:183-203 | the only child takes the place of the unlinked node, and the sentinel's parent says where when that child is the sentinel |
| RbDelete.Transplant | ngx/ngx_rbtree.c:205-227 | the exact fields that change when the successor takes the place, links and colour of the deleted node |
| RbDelete.TransplantAt | ngx/ngx_rbtree.c:205-227 | the tree with the successor in the deleted node's place is linked |
| RbDelete.Outcome | ngx/ngx_rbtree.c:183-238 | splicing keeps the surroundings balanced; what is left is short by one black node exactly when a black node was spliced out |
| RbDelete.OutcomeOrder | ngx/ngx_rbtree.c:183-238 | splicing drops exactly the deleted entry from the in-order sequence |
| RbDelete.DeleteRoot | ngx/ngx_rbtree.c:170-181 | deleting a root with a free side leaves its child as black root, although the root's parent goes stale |
| RbDelete.Delete | ngx/ngx_rbtree.c:141-305 | any node of a valid tree can go: the rest is a valid red-black tree with the same sequence less that one entry, and the node's links and key are cleared |
| RbDelete.DistinctNodes | ngx/ngx_rbtree.h:12-19 | no node stands twice in the in-order sequence |
| RbLevel.SiblingIsNode | ngx/ngx_rbtree.c:245-254 | beside a place that is short by one black node stands a real node, so the repair never looks inside the sentinel |
| RbLevel.RedSiblingLKeeps | ngx/ngx_rbtree.c:247-252 | the red-sibling step keeps the sequence and the shortage and makes the sibling black |
| RbLevel.PassedUpKeeps | ngx/ngx_rbtree.c:254-256 | painting the sibling red moves the shortage one level up |
| RbLevel.OuterRedLKeeps | ngx/ngx_rbtree.c:259-264 | rotating the sibling makes its outer child red and keeps the rest |
| RbLevel.LevelledLOrder | ngx/ngx_rbtree.c:266-270 | the last rotation of the repair keeps the in-order sequence |
| RbLevel.LevelledLKeeps | ngx/ngx_rbtree.c:266-270 | and ends the shortage: the surroundings accept the subtree at its full black height |
| RbLevel.RedSiblingRKeeps | ngx/ngx_rbtree.c:276-281 | the mirror image of RedSiblingLKeeps |
| RbLevel.OuterRedRKeeps | ngx/ngx_rbtree.c:288-293 | the mirror image of OuterRedLKeeps |
| RbLevel.LevelledROrder | ngx/ngx_rbtree.c:295-299 | the mirror image of LevelledLOrder |
| RbLevel.LevelledRKeeps | ngx/ngx_rbtree.c:295-299 | the mirror image of LevelledLKeeps |
| RbLevel.Repair | ngx/ngx_rbtree.c:242-304 | the repair loop takes exactly one turn for each black sibling without red children on the way up and one for a final rotation, at most the depth of its cursor, and ends with a valid red-black tree of the same sequence, also when its cursor is the sentinel |
| RbSearch.Climb | ngx/ngx_rbtree.c:379-393 | the climb ends at the node after the subtree it started from, or with null, whatever the root's parent holds; it takes one turn for each level |
| RbSearch.Next | ngx/ngx_rbtree.c:368-394 | returns the node after the given one in order, and null after the last; the turns are the levels between the two places, at most 2 log2(n+1) |
| RbSearch.StringTurns | ngx/ngx_string.c:1937-1956 | the three comparisons of the lookup find equality exactly for equal hash, length and bytes |
| RbSearch.Compare | ngx/ngx_string.c:1937-1960 | the tests at one node find it, or turn left exactly where the item is less |
| RbSearch.TurnIsSafe | ngx/ngx_string.c:1935-1956 | in a sorted tree no match is left behind at a turn |
| RbSearch.StrLookup | ngx/ngx_string.c:1924-1964 | in a sorted tree a node with the hash and bytes is found if and only if there is one; the turns are the levels down to its place, or to the free place where it would stand, at most 2 log2(n+1) |
| RbRun.Run | ngx/ngx_rbtree.c:9-305 | any legal sequence of insertions and deletions in memory leaves a sorted red-black tree whose members are those of a plain set; for timers the live keys need to lie in one window at each moment, the window may move on and wrap, and the distances from its start do not decrease along the tree |
| RbRun.RunAndLookup | ngx/ngx_string.c:1884-1964 | after any such sequence with the string order the lookup succeeds if and only if the set holds a member with that hash and those bytes, duplicates included |
| RbRun.Walk | ngx/ngx_rbtree.c:368-394 | from the minimum on, next visits every node exactly once, in order, and then returns null |
| Shmtx.InnerKeepsInv | ngx/ngx_shmtx.c:73-190 | every atomic step keeps the accounts of lock and count and the promise to sleepers |
| Shmtx.RunKeepsInv | ngx/ngx_shmtx.c:73-190 | in every reachable state, for any number of processes below 2^31, the signed count plus semaphore plus unposted wakeups equals the processes that have announced themselves, and semaphore plus unposted wakeups never exceeds the number of processes |
| Shmtx.SignedMoves | ngx/ngx_shmtx.c:106-109 | the 32-bit count moves by exactly one as a signed number as long as it is in range |
| Shmtx.MutualExclusion | ngx/ngx_shmtx.c:75-111 | no two processes hold the lock |
| Shmtx.LockedIffHeld | ngx/ngx_shmtx.c:75-143 | the lock word is 1 exactly when some process holds the lock |
| Shmtx.NoLostWakeup | ngx/ngx_shmtx.c:86-189 | while the lock is free and a process sleeps, the semaphore is positive, or an unlocker has not finished its wakeup, or a process in the lock loop has yet to make its last check |
| Shmtx.FreeLockBound | ngx/ngx_shmtx.c:86-189 | without new calls only a bounded number of steps can happen while the lock stays free |
| Shmtx.WaitingLasts | ngx/ngx_shmtx.c:86-132 | while the lock stays free somebody goes on sleeping or is in the lock loop |
| Shmtx.WaitingHasStep | ngx/ngx_shmtx.c:86-189 | and as long as that is so some process can take a step |
| Shmtx.FreeLockTaken | ngx/ngx_shmtx.c:86-189 | after any run, a free lock with a sleeper beside it is taken again in every continuation without new calls, once a bounded number of steps has been taken or none is left to take |
| ProMem.ReadProMem | mem.c:10-37 | fills the buffer with the tracee's bytes, 255 for words that cannot be read, touches nothing behind, and always returns 0 |
| ProMem.WriteProMem | mem.c:39-79 | success: exactly the given bytes change; failure: exactly the words before the first unmapped one do |
| ProMem.ReadAfterWrite | mem.c:10-79 | after a write bytes outside the range keep their values, those of the last word too, and reading the range gives the bytes back |
| Debugger.TickUnobserved | dbug.c:66 | an instruction runs the same on patched text if its bytes, as long as the program's own text makes it, hold no patched byte but the one at the counter |
| Debugger.PatchedText | dbug.c:22-24 | if restoring gives the program back, memory shows INT3 at the armed breakpoints and the program's bytes elsewhere |
| Debugger.KeptByte | dbug.c:22 | what a new breakpoint records: the program's byte, or INT3 when the address already has a breakpoint |
| Debugger.TrappingIs | dbug.c:22-24 | what traps in the patched memory is a matter of the program and the list of breakpoint addresses alone |
| Debugger.BreakKeeps | dbug.c:22-24 | setting a breakpoint, also twice on one address, does not change what restoring gives back |
| Debugger.Dbug.InsertInt3 | dbug.c:8-29 | records the byte at the address and writes INT3 there |
| Debugger.Dbug.Break | command.c:24-39 | one entry is appended and transparency holds on |
| Debugger.Dbug.FindCurrentSfBp | dbug.c:78-97 | returns the lowest index of an entry one byte before the program counter, or -1 |
| Debugger.Dbug.ResumeNext | dbug.c:53-76 | one instruction runs on the text with the true byte, and the text ends patched as before |
| Debugger.Dbug.TrapSame | dbug.c:53-97 | at an INT3 byte, giving the lowest entry's byte back and stepping is the next instruction of the undebugged run; without an entry it is the program's own INT3 |
| Debugger.Dbug.StopsHere | command.c:46-55 | the tracee stops exactly where the undebugged run has exited, stands at an armed breakpoint or at its own INT3 |
| Debugger.Dbug.HandleTrap | command.c:50-60 | a trap advances the undebugged run by one instruction, is reported if and only if that instruction stands at an armed breakpoint, and names its lowest index |
| Debugger.Dbug.Continue | command.c:41-69 | runs up to the first instruction at which the undebugged run has exited, stands at an armed breakpoint or at its own INT3, and no further; one report if it is a breakpoint and none otherwise |
| Debugger.Dbug.Play | command.c:24-69 | over any sequence of break and continue commands, duplicates included: each command does what the undebugged run and the breakpoints of the earlier commands determine, exactly the instructions at armed breakpoints are reported, each once, the breakpoints are those asked for, and only exit or a running tracee ends the sequence early |
| Sample.SitesAllowed | dbug.c:8-29 | on a processor with instructions of one and two bytes breakpoints may stand anywhere but on the second byte of an instruction that is executed |
| Sample.Debugged | command.c:24-69 | a session on it: the breakpoint behind another instruction is reported once, and the program ends as it does undebugged |
| PoolParts.RoomTest | ngx/ngx_palloc.c:124-128 | the wrapping room test is right if and only if the aligned fill mark is still inside the block, which an aligned block size guarantees |
| PoolParts.RoomExact | ngx/ngx_palloc.c:122-128 | so in a pool in order the test never wraps |
| PoolParts.LiveAllocationsApart | ngx/ngx_palloc.c:113-241 | in a pool in order live allocations share no byte with each other, with a block header or with a large-object header, and lie inside one region from the system |
| PoolParts.AboveMark | ngx/ngx_palloc.c:122-131 | memory between fill mark and end of a block is nobody's |
| PoolParts.BumpPlaced | ngx/ngx_palloc.c:128-131 | taking memory at the fill mark keeps the pool in order |
| PoolParts.NewBlockPlaced | ngx/ngx_palloc.c:149-172 | so does a new block with one allocation in it |
| PoolParts.SlotPlaced | ngx/ngx_palloc.c:192-196 | so does a large object in an empty entry of the list |
| PoolParts.FrontPlaced | ngx/ngx_palloc.c:209-212 | so does a large object at the front of the list |
| PoolParts.FreedPlaced | ngx/ngx_palloc.c:249-255 | giving a large object back leaves the others where they are and its header listed |
| PoolParts.GrowPlaced | ngx/ngx_array.c:50-55 | growing the allocation that ends at the first block's mark overlaps no other allocation |
| PoolParts.DropPlaced | ngx/ngx_array.c:27-33 | giving that allocation back keeps the pool in order |
| PoolParts.CountsKept | ngx/ngx_palloc.c:166-172 | the counting loop and a new block keep the exact failure counts: blocks added behind the successor since the last reset, six at most |
| PoolParts.ScanBound | ngx/ngx_palloc.c:119-138 | from current on lie at most seven blocks, or m + 5 if the pool had m > 2 blocks at its last reset; blocks before current have failed six times, and counts never increase along the chain |
| PoolParts.SevenIffTwo | ngx/ngx_palloc.c:80-85 | of the states with the exact counts of a pool that had m blocks at its last reset, all have at most seven blocks from current on if and only if m is at most two; LongScan reaches the others |
| PoolParts.ResetForgotten | ngx/ngx_palloc.c:166-170 | after six new blocks a reset makes no difference any more |
| PoolScan.LongScan | ngx/ngx_palloc.c:68-138 | a run that reaches the bound, for every pool size and every m: create, fill to m blocks, reset, fill again, five more blocks; then current is the first of m + 5 blocks and none has room |
| PoolScan.AddOne | ngx/ngx_palloc.c:119-138 | and so the next request examines them all: when no block from current on has room, exactly those are examined and one is added |
| Pools.Pool.constructor | ngx/ngx_palloc.c:9-34 | a new pool is in order, owns one new block, has given nothing away, and leaves what others own |
| Pools.Pool.CountFailures | ngx/ngx_palloc.c:166-170 | every block from current to the last but one has failed once more, and current lies just behind the last of them that had failed more than four times |
| Pools.Pool.Scan | ngx/ngx_palloc.c:119-136 | finds the first block from current on with room for the request at its mark, and examines exactly the blocks up to it |
| Pools.Pool.AllocSmall | ngx/ngx_palloc.c:113-139 | the first block with room gives the memory at its mark, else a new block does; the pool holds one more allocation, aligned if asked for, the number of blocks examined is exact and within the bound, no live byte changes and nothing leaks |
| Pools.Pool.AllocBlock | ngx/ngx_palloc.c:142-175 | one more block, owned from the system, with the allocation at its start |
| Pools.Pool.AllocLarge | ngx/ngx_palloc.c:178-215 | a region of its own, put into the first empty one of the first five entries or else to the front with a new header |
| Pools.Pool.Alloc | ngx/ngx_palloc.c:89-110 | a live allocation disjoint from all others, aligned if asked for; a small request leaves the large list alone |
| Pools.Pool.Memalign | ngx/ngx_palloc.c:217-241 | always a new entry at the front of the large list, for an empty request too; only the usual alignment is promised |
| Pools.Pool.Free | ngx/ngx_palloc.c:244-260 | succeeds exactly when an entry holds that pointer; then exactly that object goes back to the system and everything else stays |
| Pools.Pool.Reset | ngx/ngx_palloc.c:68-87 | all large objects go back, every block keeps its place and is empty behind a full pool header, and nothing is live |
| Pools.Pool.Destroy | ngx/ngx_palloc.c:37-65 | exactly the blocks and the live large objects go back to the system, each once |
| PoolRun.Run | ngx/ngx_palloc.c:89-260 | over any sequence of allocations, frees and resets the live allocations are exactly those the calls returned since the last reset and did not take back, results are aligned and frees succeed exactly for large objects still live, and what the system gave to others never changes: nothing leaks |
| PoolRun.Lifetime | ngx/ngx_palloc.c:9-260 | create, any such sequence, and destroy give back to the system exactly what was taken |
| Arrays.Take | ngx/ngx_palloc.c:89-100 | a pool allocation changes no byte of any live allocation |
| Arrays.Arr.constructor | ngx/ngx_array.c:3-18 | an empty array of the given capacity, in memory that was nobody's |
| Arrays.Arr.Stretch | ngx/ngx_array.c:92-95 | growth in place raises capacity and fill mark together and takes no other allocation's memory |
| Arrays.Arr.Relocate | ngx/ngx_array.c:97-109 | growth by copying keeps the elements and every other byte |
| Arrays.Arr.Push | ngx/ngx_array.c:36-75 | the old elements stay, the returned address is that of the new last element, and the capacity is as before, one more, or twice as much |
| Arrays.Arr.PushN | ngx/ngx_array.c:77-116 | the same for several elements; the copied array has twice the larger of the old capacity and n |
| Arrays.Arr.Append | ngx/ngx_array.c:36-75 | push and store: the contents grow by that element and no other allocation's byte changes |
| Arrays.Arr.AppendN | ngx/ngx_array.c:77-116 | the same for several elements |
| Arrays.Arr.Destroy | ngx/ngx_array.c:20-34 | elements and array are given back exactly if they end at the fill mark, and every other allocation stays |
| Arrays.ElementAt | ngx/ngx_array.c:71 | the bytes of a list of elements hold element i at i times the element size |
| Arrays.Play | ngx/ngx_array.c:36-116 | over any interleaving of pushes on several arrays and other allocations from one pool, every array holds exactly the list its pushes make, element by element |
| Queue.EmptyIffAlone | ngx/ngx_queue.h:18-19 | the emptiness test is true exactly for a sentinel alone |
| Queue.Link.constructor | ngx/ngx_queue.h:13-15 | an initialised link is a circle of one |
| Queue.InsertAfter | ngx/ngx_queue.h:22-29 | a fresh link enters the circle right behind the given one |
| Queue.InsertTail | ngx/ngx_queue.h:32-36 | a fresh link enters at the end of the queue |
| Queue.Remove | ngx/ngx_queue.h:59-61 | the circle closes over the removed link |
| Queue.Split | ngx/ngx_queue.h:64-70 | two circles: the part before the link stays, the rest gets the new head |
| Queue.Add | ngx/ngx_queue.h:73-77 | the elements of the second queue follow those of the first; an empty second or first queue is no exception |
| Queue.Middle | ngx/ngx_queue.c:3-31 | returns the element at index n/2, or the sentinel of an empty queue |
| Queue.SortPermutes | ngx/ngx_queue.c:46-63 | the sorting order is a permutation, whatever the comparison |
| Queue.SortAscending | ngx/ngx_queue.c:53-62 | for a total preorder it ascends |
| Queue.SortStable | ngx/ngx_queue.c:53-62 | and elements that compare equal keep their order |
| Queue.Place | ngx/ngx_queue.c:46-62 | one round moves the next link to its place in the sorted part and leaves a circle |
| Queue.Sort | ngx/ngx_queue.c:34-64 | the queue becomes one well-formed circle of the same links in that order |
| Base64.TablesInverse | ngx/ngx_string.c:1188-1228 | encoding and decoding tables are inverse to each other for both alphabets |
| Base64.EncodedSize | ngx/ngx_string.h:178 | padded text has exactly the length of the macro, unpadded text one digit for every six bits begun |
| Base64.DecodedSize | ngx/ngx_string.h:179 | decoded bytes never exceed the macro |
| Base64.DecodeUndoesEncode | ngx/ngx_string.c:1141-1282 | decoding undoes encoding for every byte string, both alphabets, with and without padding |
| Base64.EncodeUndoesDecode | ngx/ngx_string.c:1262-1276 | encoding undoes decoding of unpadded text if and only if the bits its last digit does not use are zero |
| Base64.Encode | ngx/ngx_string.c:1141-1182 | writes exactly the encoded text and nothing behind it |
| Base64.Scan | ngx/ngx_string.c:1245-1253 | finds the text before the first padding character, and refuses exactly text outside the alphabet |
| Base64.Decode | ngx/ngx_string.c:1239-1282 | refuses exactly invalid text, without effect; otherwise writes exactly the decoded bytes |
| Escape.TablesMean | ngx/ngx_string.c:1431-1554 | the bit tables of all seven maps mark exactly the listed characters |
| Escape.EscapedSize | ngx/ngx_string.c:1559-1587 | the text has two characters more for every byte the counting pass counts |
| Escape.CountEscapes | ngx/ngx_string.c:1559-1574 | the counting pass counts the bytes to be escaped |
| Escape.EscapeUri | ngx/ngx_string.c:1576-1589 | the writing pass writes exactly the escaped text, as long as the counting pass foretold |
| Escape.UnescapeUndoesEscape | ngx/ngx_string.c:1424-1720 | decoding with type 0 undoes escaping for every byte string under every map but the refresh map |
| Escape.RefreshUndone | ngx/ngx_string.c:1511-1527 | under the refresh map it does so if and only if the text has no percent sign |
| Escape.UriReadsPrefix | ngx/ngx_string.c:1614-1690 | decoding a URI is plain decoding of the part it reads, and stops early only after a question mark |
| Escape.RedirectThenPlain | ngx/ngx_string.c:1653-1708 | decoding well-quoted text for a redirect leaves quoted whatever could be misread: plain decoding of the result is plain decoding of the part that was read |
| Escape.Turn | ngx/ngx_string.c:1609-1712 | one turn of the switch, in memory, is one step of the decoder, the re-quoting of redirects included |
| Escape.UnescapeUri | ngx/ngx_string.c:1593-1720 | for every type, decoding in place, further down, or into a separate buffer gives the same bytes, stops at the same place, and changes no other byte |
| Numbers.TextValue | ngx/ngx_string.c:512-550 | the digits printed for a number stand for that number, in both bases |
| Numbers.TextFits | ngx/ngx_string.c:481 | every 64-bit number fits the scratch buffer of 20 characters |
| Numbers.PutDigits | ngx/ngx_string.c:489-550 | writing digits backwards from the end of the buffer leaves the text of the number |
| Numbers.SprintfNum | ngx/ngx_string.c:477-560 | prints the padded text, or as much as fits before the end of the buffer, and touches nothing else |
| Numbers.ParsesPrinted | ngx/ngx_string.c:985-1104 | reading what was printed gives the number back if and only if it is within the bound, and an error otherwise |
| Numbers.ReadDecimal | ngx/ngx_string.c:985-1010 | returns the value exactly for non-empty digit strings whose value is within the bound, and an error for all others |
| Numbers.ReadHex | ngx/ngx_string.c:1069-1104 | the same for hexadecimal digits of either case with bound 2^31 - 1 |
| Numbers.ScaledMeans | ngx/ngx_string.c:929 | digits a, a dot and digits b stand for a * 10^point + b * 10^(point - length of b) |
| Numbers.ReadFixed | ngx/ngx_string.c:931-982 | returns that value exactly for digits with at most one dot and at most `point` digits behind it, within 2^31 - 1, and an error for everything else |

## Left out

- RbInsert.Insert: the three insert functions, which differ in one comparison, are one descent with the comparison as a parameter; every node carries a string, which only the string order looks at.
- RbSearch.StrLookup: takes a hash as wide as the keys; the code's hash is 32 bits wide, so nodes with longer keys cannot be looked up at all.
- RbRun.Run: the caller does not insert a node that is in the tree or delete one that is not; the code does not check either.
- Shmtx.RunKeepsInv: `ngx_shmtx_force_unlock` is not a step, sem_wait fails only by interruption, sem_post never fails, and progress assumes that processes inside the functions keep taking steps.
- Debugger.Dbug.Play: symbol lookup, hardware watchpoints, signals other than the trap, several threads and self-modifying programs; no instruction that the undebugged program executes has a breakpoint behind its first byte or reads a patched byte, and the tracee is not killed while it steps.
- Debugger.Dbug.HandleTrap: a program's own INT3 byte where no breakpoint is set counts as one instruction of the undebugged run.
- ProMem.Poke: ptrace itself is a map of mapped bytes; the addresses do not wrap around.
- Pools.Pool.Alloc: memory never runs out, addresses are unbounded numbers, and the contents of headers are not bytes of the memory map.
- Pools.Pool.Memalign: the system allocator answers an empty request as glibc does, with a pointer of its own, never with null.
- Pools.Pool.Reset: cleanup handlers are foreign code and are not modelled, neither here nor in Destroy.
- Arrays.Arr.constructor: capacity and element size are at least 1; `ngx_array_init` on a structure outside the pool is not modelled.
- Arrays.Play: no array outlives a reset, and the pool does not free an array's large object.
- Queue.Sort: the comparison is a function of the links; `ngx_queue_data` and what surrounds a link are not modelled.
- Numbers.ReadDecimal: one method with the bound as a parameter stands for ngx_atosz, ngx_atoof, ngx_atotm (2^63 - 1) and ngx_atoi (2^31 - 1).
- Escape.UnescapeUri: a destination that starts inside the source, behind its beginning, is not a use of the function.
- The chain of pool blocks through `next` and the list of large objects are sequences, so sharing between their headers cannot be expressed.
- `ngx_pcalloc`, `ngx_list`, `ngx_shmem`, formatted printing beyond numbers, case-insensitive comparison, substring search, UTF-8, HTML and JSON escaping: easier members of the same kind.
- Command parsing, register display, ELF reading, process start and the demonstration programs.
