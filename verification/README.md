# A verified model of the repository's data structures and small machines

The project models, in Dafny 4.11, the parts of the repository that carry real algorithms, and proves
what they are for. Each module follows one source file, and code that changes state in place is a class
whose methods do so.

| file | models |
|---|---|
| `TimeWheel.dfy` | `timewheel.c`: the hierarchical timing wheel on wrapping 32-bit time |
| `TimerRuns.dfy` | whole runs of the wheel: which calls are served, which timers fire, which are cancelled |
| `RedBlackShapes.dfy`, `RedBlackLinks.dfy` | what both red-black trees share: shapes seen from a focus, and their representation by left, right and parent links |
| `RedBlackRepair.dfy` | the rotations and the branches of the fixup loops, which are the same in both trees |
| `NgxRbTree.dfy` | the timers' `rbtree.c` and `rbtree.h`: the nginx tree with the wrap-aware comparison |
| `ClrsTree.dfy` | `1. Data_structure/rbtree.c`: the tree with copy-on-delete, as a finite map |
| `BTreeShapes.dfy`, `BTreeLinks.dfy`, `BTree.dfy` | `btree.c`: insertion with splitting, and the steps that refill a child before a deletion descends |
| `DeadlockGraph.dfy` | `deadlock_success.c` and `graph.c`: the wait-for graph and its search |
| `TryCatch.dfy`, `TryLaws.dfy` | `trycatch_finally.c`: exceptions as macros over a stack of frames, and what a Try means case by case |
| `MinHeap.dfy`, `SkipList.dfy` | `minheap.c`, `skiplist.c`: the other two timer queues |
| `AsyncLogging.dfy`, `LogStream.dfy` | the double-buffered logger, its buffers and its integer formatting |
| `Calendar.dfy` | `Date.cc`, `TimeZone.cc`: day numbers and UTC conversion |
| `Arithmetic.dfy` | division: Euclidean, and truncating as in C |

`dafny verify dfyconfig.toml` checks the whole project.

## How the models are made

- The timing wheel keeps 32-bit words, as the code does. Beside them runs a clock that never wraps, and every
  addition leaves a birth record with the tick and the delay; no branch looks at the clock, and only `DelTimer`, which
  has to know whether a handle is still good, at the records. The invariant
  ties words to ticks: a node on a level lies 1 to 64 windows ahead, in the slot of its window. The history of a run
  (births, callbacks run, nodes gone, cancel flags, calls served) is also defined without any wheel, by the rule "run
  what is due"; the wheel is proved to produce that history, and `TimerRuns` to account in it for every call.
- Both red-black trees live in a memory that maps node numbers to left, right, parent and colour. A ghost tree, and
  in the loops a ghost context around the current node, say what the links represent. The sentinel is a node like
  any other: it may be the current node of the deletion loop, which then depends on its parent field.
- The wait-for graph is the array of adjacency lists. Searching uses the arrays `visited` and `path` and the counter
  `k` as the code does; that `path` is never indexed out of range is part of the proof.
- The macros are expanded into numbered lines of a small machine with setjmp and longjmp; the meaning they should
  have is defined separately by recursion on the program, and running the lines is proved to give it; `TryLaws` states
  that meaning case by case.
- The logger's front end and back end take turns in steps that are atomic under the lock, in any order. The
  `assert`s of the source are assertions of the model.
- Every loop of the modelled C functions is a loop or a recursion of the model with a proof that it ends.

## What the proofs found

Each point is stated by a member of the table below, as an exact condition or with a concrete input.

- Timing wheel: a timer that is linked directly into slot 0 of level 0, 1 or 2 is never moved down and never fires,
  since `timer_shift` skips index 0 there. A delay of 16300 at tick 100 is such a timer. All others fire exactly once
  and on time, through all cascades and across the wrap, unless they are cancelled before.
- nginx tree: the timer comparison keeps the tree ordered if and only if all keys lie within an arc of fewer than
  2^31 ticks.
- Deadlock search: the flag means that some edge leads to where the graph does not unfold as a tree. It never misses
  a cycle; it is exact when each vertex has at most one outgoing edge; a diamond without any cycle raises it.
- Exceptions: a Finally block does not run when a Catch body of the same Try throws out. An uncaught throw is reported
  and execution goes on behind it.
- B-tree: `btree_merge` sets `childrens[num+1]` to NULL (line 220), which is outside the array exactly for a full node;
  a full root above smallest children is a case of it.
- Skip list: `zslDelete` removes the first node with the score of the given node, which is that node if and only if
  no other of its score stands before it.
- Min-heap: the comment at `minheap.c:44-48` has the order of parents and children the wrong way round. The code is
  right: entries never need to move both ways.
- Calendar: the conversions are inverse from day number -32044 on, and earlier numbers give no date; `tm_yday` is one
  too small in the year -4800. In 32-bit int the decoding is right exactly up to day number 2^29 - 1 - 32044.
- Logger: the file and what is pending are the log if and only if no text was dropped. With lines shorter than a
  buffer that holds if and only if no iteration of the back end has collected more than 25 buffers.

## Model

| member | source | states |
|---|---|---|
| TimerRuns.Run | 7.高性能组件/3. 定时器/2207-timers/2207-timers/timewheel.c:48-153 | Every run: any calls of add_timer, del_timer and timer_update from the empty wheel, any callbacks, which may call add_timer and del_timer themselves. Each timer asked for is dispatched exactly once, at the tick of its deadline on a clock that never wraps, if and only if that tick has come, the timer was not linked into slot 0 of level 0, 1 or 2 when added, and it was not cancelled before. Added equals linked plus dispatched plus left after being cancelled. Every call that is made, by the run or by a callback, is served exactly once and in its order; every addition among them has a birth of its own at its tick; every callback makes the calls it should; and a flag is set exactly for the timers that were cancelled and have never fired. |
| TimerRuns.AdditionIsBorn | 7.高性能组件/3. 定时器/2207-timers/2207-timers/timewheel.c:66-82 | In every run each addition, whether the run asks for it or a callback does, has exactly one birth, with its delay and id, at the tick at which it is asked for. |
| TimerRuns.BornInTurn | 7.高性能组件/3. 定时器/2207-timers/2207-timers/timewheel.c:66-82 | Additions of one caller are born in the order of its calls. |
| TimerRuns.CallbackIsServed | 7.高性能组件/3. 定时器/2207-timers/2207-timers/tw-timer.c:21-31 | Each timer that a callback run at an update asks for is born at the tick at which that callback runs: so a periodic timer lives on. |
| TimerRuns.NestedIsServed | 7.高性能组件/3. 定时器/2207-timers/2207-timers/tw-timer.c:57 | A callback that runs inside add_timer, for a delay of zero or less, has each timer that it asks for born at that tick. |
| TimerRuns.CancelledInTime | 7.高性能组件/3. 定时器/2207-timers/2207-timers/timewheel.c:150-153 | If the i-th operation of a run is del_timer for a timer born before it, and its deadline has not come by then, that timer never fires. |
| TimerRuns.CancelledByCallback | 7.高性能组件/3. 定时器/2207-timers/2207-timers/timewheel.c:118-127 | A timer that a callback cancels either ran before that callback or never does, also when both are in the list that is being dispatched. |
| TimerRuns.FlagIsSet | 7.高性能组件/3. 定时器/2207-timers/2207-timers/timewheel.c:150-153 | Whoever cancels a timer sets its flag, unless the timer has fired. |
| TimerRuns.CancelledByACall | 7.高性能组件/3. 定时器/2207-timers/2207-timers/timewheel.c:150-153 | A timer for which neither the run nor a callback calls del_timer has no flag set. |
| TimerRuns.CallerKnows | 7.高性能组件/3. 定时器/2207-timers/2207-timers/timewheel.c:66-82 | A timer is born before every later call of the same caller, and before every call of a later tick. |
| TimerRuns.ListInTurn | 7.高性能组件/3. 定时器/2207-timers/2207-timers/timewheel.c:118-127 | The callbacks of a detached list run in the order of the list, whatever they add in between. |
| TimeWheel.Wheel.OnTime | 7.高性能组件/3. 定时器/2207-timers/2207-timers/timewheel.c:48-153 | The same read off any state between calls: fired exactly once, on time, if due, not stuck and not cancelled, and otherwise never; still linked if and only if stuck or not yet due. |
| TimeWheel.Wheel.Conserved | 7.高性能组件/3. 定时器/2207-timers/2207-timers/timewheel.c:66-153 | No timer is lost or doubled: additions = linked nodes + callbacks run + nodes that left after being cancelled. |
| TimeWheel.Wheel.TimerUpdate | 7.高性能组件/3. 定时器/2207-timers/2207-timers/timewheel.c:141-148 | One tick: the clock advances by one; the dispatched list holds exactly the timers added before it that are due at the new tick and not stuck, each once; of these, those not cancelled are fired, and no others; what their callbacks ask for is served right behind each. |
| TimeWheel.Wheel.TimerExecute | 7.高性能组件/3. 定时器/2207-timers/2207-timers/timewheel.c:129-139 | Empties the near slot of the current tick. The while loop makes one round if the slot is filled and none otherwise, even when callbacks add timers. |
| TimeWheel.Wheel.ExecuteRound | 7.高性能组件/3. 定时器/2207-timers/2207-timers/timewheel.c:133-138 | One round: the list is detached, dispatched in order, and the slot is empty afterwards. |
| TimeWheel.Wheel.SlotIsExactlyDue | 7.高性能组件/3. 定时器/2207-timers/2207-timers/timewheel.c:130-134 | When a tick has begun, its near slot holds exactly the timers due now that are not stuck, each once. |
| TimeWheel.Wheel.DispatchList | 7.高性能组件/3. 定时器/2207-timers/2207-timers/timewheel.c:118-127 | Every node of a detached list leaves once, in order; its callback runs unless its cancel flag is set by then, and what the callback asks for comes right behind it. |
| TimeWheel.Wheel.DispatchHead | 7.高性能组件/3. 定时器/2207-timers/2207-timers/timewheel.c:121-125 | Letting the head of a list leave and then the rest equals dispatching the whole list. |
| TimeWheel.Wheel.Run | 7.高性能组件/3. 定时器/2207-timers/2207-timers/timewheel.c:123-124 | A callback runs once, before everything it asks for, and the slot being dispatched is not touched. |
| TimeWheel.Wheel.TimerShift | 7.高性能组件/3. 定时器/2207-timers/2207-timers/timewheel.c:94-116 | The 32-bit clock word steps with wrap-around; afterwards every node sits where the invariant wants it for the new tick, and no node is added, lost or run. |
| TimeWheel.Wheel.SearchLevels | 7.高性能组件/3. 定时器/2207-timers/2207-timers/timewheel.c:102-114 | The loop over the levels ends at level 3 at the latest; it finds the slot whose window begins now, or that there is none. |
| TimeWheel.Wheel.MoveList | 7.高性能组件/3. 定时器/2207-timers/2207-timers/timewheel.c:84-92 | Emptying the slot whose window begins re-links exactly its nodes, each at a place the invariant allows. |
| TimeWheel.Wheel.AddTimer | 7.高性能组件/3. 定时器/2207-timers/2207-timers/timewheel.c:66-82 | A positive delay links one new node and runs nothing; a delay of zero or less runs the callback at once, with all the calls it makes in turn, and links no node of its own. The near slot being dispatched is never touched. |
| TimeWheel.Wheel.DelTimer | 7.高性能组件/3. 定时器/2207-timers/2207-timers/timewheel.c:150-153 | Sets the cancel flag of this node if it has not been freed, changes no other flag and nothing else. |
| TimeWheel.Wheel.AddNode | 7.高性能组件/3. 定时器/2207-timers/2207-timers/timewheel.c:48-64 | The slot chosen from 32-bit words is the home slot of the unbounded deadline; the node goes behind what the slot holds and all other slots are untouched. |
| TimeWheel.Wheel.AddElsewhere | 7.高性能组件/3. 定时器/2207-timers/2207-timers/timewheel.c:48-64 | A node whose home is not the near slot of the current tick leaves that slot alone. |
| TimeWheel.Wheel.Link | 7.高性能组件/3. 定时器/2207-timers/2207-timers/timewheel.c:41-46 | Appends one node at the tail of one slot and touches no other. |
| TimeWheel.Wheel.LinkClear | 7.高性能组件/3. 定时器/2207-timers/2207-timers/timewheel.c:32-39 | Returns the whole list of one slot and leaves that slot, and no other, empty. |
| TimeWheel.Wheel.constructor | 7.高性能组件/3. 定时器/2207-timers/2207-timers/timewheel.c:155-171 | The fresh wheel satisfies the invariant, at tick 0, with an empty history. |
| TimeWheel.AddNodePlaces | 7.高性能组件/3. 定时器/2207-timers/2207-timers/timewheel.c:53-63 | For every distance below 2^32 the chosen level and slot satisfy the window invariant: window distance in 1..64 and slot = deadline window mod 64; the deadline is in a dead slot exactly when the level is 0-2 and that slot is 0. |
| TimeWheel.HomeSlotOfWords | 7.高性能组件/3. 定时器/2207-timers/2207-timers/timewheel.c:50-63 | Slot arithmetic on wrapped words equals slot arithmetic on the unbounded clock, across the wrap. |
| TimeWheel.DigitsOfDistance | 7.高性能组件/3. 定时器/2207-timers/2207-timers/timewheel.c:55-61 | From the start of a window on, every lower slot index of a deadline is the slot index of its distance. |
| TimeWheel.CascadeLandsLive | 7.高性能组件/3. 定时器/2207-timers/2207-timers/timewheel.c:84-92 | A node that cascades lands on a strictly lower level and never in a slot that is not emptied. |
| TimeWheel.AdvanceKeepsPlace | 7.高性能组件/3. 定时器/2207-timers/2207-timers/timewheel.c:95-97 | When the clock steps, a node keeps its place unless its own window has just begun. |
| TimeWheel.CascadeUnique | 7.高性能组件/3. 定时器/2207-timers/2207-timers/timewheel.c:98-114 | At most one slot is due to be emptied per tick. |
| TimeWheel.WindowStartIsEmptied | 7.高性能组件/3. 定时器/2207-timers/2207-timers/timewheel.c:98-109 | A live node whose window begins is in the slot that is emptied at that tick. |
| TimeWheel.EmptiedSlotIsThisWindow | 7.高性能组件/3. 定时器/2207-timers/2207-timers/timewheel.c:98-109 | Everything live in the emptied slot belongs to the window that begins. |
| TimeWheel.AdvanceClock | 7.高性能组件/3. 定时器/2207-timers/2207-timers/timewheel.c:95-115 | After a step of the clock the emptied slot holds exactly this window and every other slot is in order. |
| TimeWheel.ShiftFindsCascade | 7.高性能组件/3. 定时器/2207-timers/2207-timers/timewheel.c:104-109 | The index read from the clock word is the index of the slot whose window begins. |
| TimeWheel.ShiftGoesUp | 7.高性能组件/3. 定时器/2207-timers/2207-timers/timewheel.c:111-113 | A zero index at level i of a non-zero clock word means i < 3, and the lower indices are all zero. |
| TimeWheel.ShiftFindsNothing | 7.高性能组件/3. 定时器/2207-timers/2207-timers/timewheel.c:104-114 | Where the loop stops without an index, no window of any level begins at this tick. |
| TimeWheel.WrapCascades | 7.高性能组件/3. 定时器/2207-timers/2207-timers/timewheel.c:98-99 | When the word wraps to zero the slot to be emptied is slot 0 of level 3. |
| TimeWheel.NewNodeMissesCurrentSlot | 7.高性能组件/3. 定时器/2207-timers/2207-timers/timewheel.c:66-82 | A timer with a positive delay is never linked into the near slot of the current tick. |
| TimeWheel.CurrentSlotIsDue | 7.高性能组件/3. 定时器/2207-timers/2207-timers/timewheel.c:131-134 | Everything in the near slot of the current tick is due now and not stuck. |
| TimeWheel.DueIsInSlot | 7.高性能组件/3. 定时器/2207-timers/2207-timers/timewheel.c:130-134 | A linked timer that is due now and not stuck is in the near slot of the current tick. |
| TimeWheel.LinkedIsNotDue | 7.高性能组件/3. 定时器/2207-timers/2207-timers/timewheel.c:129-139 | Between ticks a linked node is stuck or its deadline is still ahead. |
| TimeWheel.LinkKeepsLocated | 7.高性能组件/3. 定时器/2207-timers/2207-timers/timewheel.c:41-46 | Linking a node that is nowhere linked keeps every node in one place only. |
| TimeWheel.ClearKeepsLocated | 7.高性能组件/3. 定时器/2207-timers/2207-timers/timewheel.c:32-39 | Clearing a slot removes exactly its nodes, which are pairwise different, from the wheel. |
| TimeWheel.Wheel.UpdateFiresWhatIsDue | 7.高性能组件/3. 定时器/2207-timers/2207-timers/timewheel.c:141-148 | Among the firings since the last tick a timer appears if and only if it is due now, not stuck and not cancelled. |
| TimeWheel.OnTimeInNumbers | 7.高性能组件/3. 定时器/2207-timers/2207-timers/timewheel.c:48-64 | The same in plain numbers: the deadline is the tick of the addition plus the delay, and a timer is stuck exactly for delays in [2^8, 2^14), [2^14, 2^20), [2^20, 2^26) whose deadline divided by 2^8, 2^14, 2^20 is a multiple of 64. |
| TimeWheel.StuckExample | 7.高性能组件/3. 定时器/2207-timers/2207-timers/timewheel.c:55-56 | The boundary is real: at tick 100 a delay of 16300 goes to slot 0 of level 0 and never fires. Delays below 256 are not affected at any tick. |
| RedBlackShapes.RecolorMovesUp | 7.高性能组件/3. 定时器/2207-timers/2207-timers/rbtree.c:53-57 | Red uncle: after the three colour changes the only possible red-red edge is two levels up. |
| RedBlackShapes.StraightRotationRepairs | 7.高性能组件/3. 定时器/2207-timers/2207-timers/rbtree.c:65-67 | Black uncle, outer child: recolouring and one rotation restore balance and colours. |
| RedBlackShapes.BentRotationStraightens | 7.高性能组件/3. 定时器/2207-timers/2207-timers/rbtree.c:60-63 | Black uncle, inner child: one rotation gives the outer case and keeps balance. |
| RedBlackShapes.ShortHasSibling | 7.高性能组件/3. 定时器/2207-timers/2207-timers/rbtree.c:258-259 | A subtree short of a black node never has the sentinel as its sibling w. |
| RedBlackShapes.ShortageMovesUp | 7.高性能组件/3. 定时器/2207-timers/2207-timers/rbtree.c:268-270 | Black sibling with black children: painting it red moves the shortage one level up. |
| RedBlackShapes.RedSiblingTurnsLeft | 7.高性能组件/3. 定时器/2207-timers/2207-timers/rbtree.c:261-266 | Red sibling on the right: after the rotation the sibling is black and the shortage the same. |
| RedBlackShapes.RedSiblingTurnsRight | 7.高性能组件/3. 定时器/2207-timers/2207-timers/rbtree.c:290-295 | Its mirror image. |
| RedBlackShapes.NearRedTurnsLeft | 7.高性能组件/3. 定时器/2207-timers/2207-timers/rbtree.c:273-278 | Only the near child of the sibling red: after the rotation the far one is. |
| RedBlackShapes.NearRedTurnsRight | 7.高性能组件/3. 定时器/2207-timers/2207-timers/rbtree.c:302-307 | Its mirror image. |
| RedBlackShapes.FarRedRepairsLeft | 7.高性能组件/3. 定时器/2207-timers/2207-timers/rbtree.c:280-284 | Red far child: after the rotation the subtree has full black height and no red-red edge, and fits its context. |
| RedBlackShapes.FarRedRepairsRight | 7.高性能组件/3. 定时器/2207-timers/2207-timers/rbtree.c:309-313 | Its mirror image. |
| RedBlackShapes.DeletionEnds | 7.高性能组件/3. 定时器/2207-timers/2207-timers/rbtree.c:256-318 | At a red node or at the root, painting black ends the repair with a red-black tree. |
| RedBlackShapes.TransplantShort | 7.高性能组件/3. 定时器/2207-timers/2207-timers/rbtree.c:175-241 | With the leftmost node of the right subtree in the place of the deleted one, the tree is balanced but for the place that node left, by its colour. |
| RedBlackShapes.OrderWithout | 7.高性能组件/3. 定时器/2207-timers/2207-timers/rbtree.c:175-241 | The in-order sequence after that replacement is the old one without the deleted node. |
| RedBlackShapes.OnlyChildIsRedBlack | 7.高性能组件/3. 定时器/2207-timers/2207-timers/rbtree.c:184-186 | A root with at most one child may be replaced by that child, painted black. |
| RedBlackShapes.HeightBound | 1. Data_structure/rbtree.c:101-146 | 2^height is at most (n+1)^2: the height of a red-black tree of n nodes is at most 2 log2(n+1). |
| RedBlackLinks.LeftRotation | 7.高性能组件/3. 定时器/2207-timers/2207-timers/rbtree.c:322-349 | The assignments of a left rotation on left, right, parent and root represent the rotated tree, whose in-order sequence is the old one. |
| RedBlackLinks.RightRotation | 7.高性能组件/3. 定时器/2207-timers/2207-timers/rbtree.c:352-379 | The mirror image. |
| RedBlackLinks.RecolorPointers | 7.高性能组件/3. 定时器/2207-timers/2207-timers/rbtree.c:53-57 | The three colour assignments through parent pointers are the change of shape for a red uncle. |
| RedBlackLinks.BentRightPointers | 7.高性能组件/3. 定时器/2207-timers/2207-timers/rbtree.c:80-83 | The rotation at the parent for an inner left child, in pointers. |
| RedBlackLinks.BentLeftPointers | 7.高性能组件/3. 定时器/2207-timers/2207-timers/rbtree.c:60-63 | The rotation at the parent for an inner right child, in pointers. |
| RedBlackLinks.StraightRightPointers | 7.高性能组件/3. 定时器/2207-timers/2207-timers/rbtree.c:65-67 | The two colour assignments and the right rotation at the grandparent, in pointers. |
| RedBlackLinks.StraightLeftPointers | 7.高性能组件/3. 定时器/2207-timers/2207-timers/rbtree.c:85-87 | The two colour assignments and the left rotation at the grandparent, in pointers. |
| RedBlackLinks.SiblingFacts | 7.高性能组件/3. 定时器/2207-timers/2207-timers/rbtree.c:258-273 | What the deletion loop reads (parent, sibling, the colours of its children) is what the shape says, also when the short subtree is the sentinel. |
| RedBlackLinks.ShortageUpPointers | 7.高性能组件/3. 定时器/2207-timers/2207-timers/rbtree.c:268-270 | The assignment that moves the shortage up, in pointers. |
| RedBlackLinks.RedSiblingLeftPointers | 7.高性能组件/3. 定时器/2207-timers/2207-timers/rbtree.c:261-265 | Two colours and a rotation for a red right sibling, in pointers. |
| RedBlackLinks.RedSiblingRightPointers | 7.高性能组件/3. 定时器/2207-timers/2207-timers/rbtree.c:290-294 | The mirror image. |
| RedBlackLinks.NearRedLeftPointers | 7.高性能组件/3. 定时器/2207-timers/2207-timers/rbtree.c:273-277 | Two colours and a rotation at the sibling, in pointers. |
| RedBlackLinks.NearRedRightPointers | 7.高性能组件/3. 定时器/2207-timers/2207-timers/rbtree.c:302-306 | The mirror image. |
| RedBlackLinks.FarRedLeftPointers | 7.高性能组件/3. 定时器/2207-timers/2207-timers/rbtree.c:280-283 | Three colours and a rotation at the parent, in pointers. |
| RedBlackLinks.FarRedRightPointers | 7.高性能组件/3. 定时器/2207-timers/2207-timers/rbtree.c:309-312 | The mirror image. |
| RedBlackLinks.Transplant | 7.高性能组件/3. 定时器/2207-timers/2207-timers/rbtree.c:199-242 | All assignments that put the leftmost node of the right subtree in the place of a node, whether or not it is its direct child and whether or not the sentinel moves up, represent that change of shape. |
| RedBlackLinks.BypassSelf | 7.高性能组件/3. 定时器/2207-timers/2207-timers/rbtree.c:199-208 | The assignments that bypass a node with at most one child represent that change, the sentinel included. |
| RedBlackLinks.HangLeaf | 7.高性能组件/3. 定时器/2207-timers/2207-timers/rbtree.c:147-151 | The assignments that hang a red leaf represent that leaf in the hole. |
| RedBlackLinks.InsertionEnds | 7.高性能组件/3. 定时器/2207-timers/2207-timers/rbtree.c:92 | Painting the root black after the loop gives a red-black tree with the same order. |
| RedBlackLinks.RepairEnds | 7.高性能组件/3. 定时器/2207-timers/2207-timers/rbtree.c:256-318 | Painting the end point of the deletion loop black gives a red-black tree with the same order. |
| RedBlackRepair.Links.HangNode | 7.高性能组件/3. 定时器/2207-timers/2207-timers/rbtree.c:147-151 | Storing the node in the chosen link. |
| RedBlackRepair.Links.FixRedLeft | 7.高性能组件/3. 定时器/2207-timers/2207-timers/rbtree.c:50-69 | One round for a red parent that is a left child, in both trees (1. Data_structure/rbtree.c has it at 104-122): order kept, and either the repair is over or the red-red edge is nearer the root. |
| RedBlackRepair.Links.FixRedRight | 7.高性能组件/3. 定时器/2207-timers/2207-timers/rbtree.c:70-89 | The mirror image (there at 123-141). |
| RedBlackRepair.Links.MoveRedUp | 7.高性能组件/3. 定时器/2207-timers/2207-timers/rbtree.c:53-57 | The red-uncle branch. |
| RedBlackRepair.Links.RotateRedLeft | 7.高性能组件/3. 定时器/2207-timers/2207-timers/rbtree.c:59-68 | The black-uncle branch: the repair is over. |
| RedBlackRepair.Links.RotateRedRight | 7.高性能组件/3. 定时器/2207-timers/2207-timers/rbtree.c:79-88 | The mirror image. |
| RedBlackRepair.Links.LeftRotate | 7.高性能组件/3. 定时器/2207-timers/2207-timers/rbtree.c:322-349 | The assignments of both sources (the other at 1. Data_structure/rbtree.c:56-76) have the effect that LeftRotation gives a meaning to, whether the root is known by the root pointer or by its parent. |
| RedBlackRepair.Links.RightRotate | 7.高性能组件/3. 定时器/2207-timers/2207-timers/rbtree.c:352-379 | The mirror image (the other at 79-99). |
| RedBlackRepair.Links.FixShortLeft | 7.高性能组件/3. 定时器/2207-timers/2207-timers/rbtree.c:258-286 | One round for a short left child, in both trees (1. Data_structure/rbtree.c has it at 184-213): order kept, and either the loop ends or the shortage is nearer the root. |
| RedBlackRepair.Links.FixShortRight | 7.高性能组件/3. 定时器/2207-timers/2207-timers/rbtree.c:287-315 | The mirror image (there at 215-245). |
| RedBlackRepair.Links.TurnRedSiblingLeft | 7.高性能组件/3. 定时器/2207-timers/2207-timers/rbtree.c:261-266 | The red-sibling step. |
| RedBlackRepair.Links.TurnRedSiblingRight | 7.高性能组件/3. 定时器/2207-timers/2207-timers/rbtree.c:290-295 | The mirror image. |
| RedBlackRepair.Links.TurnNearRedLeft | 7.高性能组件/3. 定时器/2207-timers/2207-timers/rbtree.c:273-278 | The near-red step. |
| RedBlackRepair.Links.TurnNearRedRight | 7.高性能组件/3. 定时器/2207-timers/2207-timers/rbtree.c:302-307 | The mirror image. |
| RedBlackRepair.Links.SettleFarRedLeft | 7.高性能组件/3. 定时器/2207-timers/2207-timers/rbtree.c:280-284 | The far-red step: the shortage is gone and the loop ends at the root. |
| RedBlackRepair.Links.SettleFarRedRight | 7.高性能组件/3. 定时器/2207-timers/2207-timers/rbtree.c:309-313 | The mirror image. |
| RedBlackRepair.Links.SettleBlackSiblingLeft | 7.高性能组件/3. 定时器/2207-timers/2207-timers/rbtree.c:268-285 | The branches for a black sibling. |
| RedBlackRepair.Links.MoveShortUp | 7.高性能组件/3. 定时器/2207-timers/2207-timers/rbtree.c:268-270 | A black sibling with black children turns red: the shortage is one level up, the order kept. |
| RedBlackRepair.Links.SettleBlackSiblingRight | 7.高性能组件/3. 定时器/2207-timers/2207-timers/rbtree.c:297-314 | The mirror image. |
| RedBlackRepair.Links.Min | 7.高性能组件/3. 定时器/2207-timers/2207-timers/rbtree.h:74-82 | The first node of the in-order sequence of a subtree, at the end of its left spine. |
| RedBlackRepair.ParentOfRoot | 1. Data_structure/rbtree.c:66-67 | Where the root keeps the sentinel as its parent, the parent is the sentinel exactly at the root. |
| RedBlackRepair.SiblingsAreBelow | 1. Data_structure/rbtree.c:184-192 | The nodes at which the deletion loop rotates satisfy that test for the root exactly when they are the root. |
| NgxRbTree.BeforeInArc | 7.高性能组件/3. 定时器/2207-timers/2207-timers/rbtree.c:137-138 | Within an arc of fewer than 2^31 ticks the signed 32-bit comparison is the order of the arc, across the wrap. |
| NgxRbTree.OrderedInArc | 7.高性能组件/3. 定时器/2207-timers/2207-timers/rbtree.c:122-152 | If all keys lie within such an arc, a node hung where the comparison leads keeps the sequence ordered. |
| NgxRbTree.OrderedIsClose | 7.高性能组件/3. 定时器/2207-timers/2207-timers/rbtree.c:122-152 | An ordered sequence always lies in such an arc. |
| NgxRbTree.DescentKeepsOrdered | 7.高性能组件/3. 定时器/2207-timers/2207-timers/rbtree.c:122-152 | A node hung where the comparison leads keeps the sequence ordered if and only if the old keys and the new one lie within one arc of fewer than 2^31 ticks. |
| NgxRbTree.WideArcIsCyclic | 7.高性能组件/3. 定时器/2207-timers/2207-timers/rbtree.c:137-138 | Outside such an arc the comparison is no order: three keys each before the next, all the way round. |
| NgxRbTree.RemainsOrdered | 7.高性能组件/3. 定时器/2207-timers/2207-timers/rbtree.c:244-248 | Removing a node keeps the rest ordered, whatever its key is set to. |
| NgxRbTree.Tree.constructor | 7.高性能组件/3. 定时器/2207-timers/2207-timers/rbtree.h:40-44 | The initialised tree is valid and empty. |
| NgxRbTree.Tree.Insert | 7.高性能组件/3. 定时器/2207-timers/2207-timers/rbtree.c:23-93 | From any valid tree: the node is added to the in-order sequence, which is otherwise unchanged; links, colours and black heights are valid again; an ordered tree stays ordered if and only if all its keys and the new one lie within an arc of fewer than 2^31 ticks. |
| NgxRbTree.Tree.InsertFirst | 7.高性能组件/3. 定时器/2207-timers/2207-timers/rbtree.c:33-41 | Inserting into the empty tree. |
| NgxRbTree.Tree.InsertTimerValue | 7.高性能组件/3. 定时器/2207-timers/2207-timers/rbtree.c:121-152 | The descent ends, and the node hangs as a red leaf in the hole that the timer comparison leads to. |
| NgxRbTree.Tree.Rebalance | 7.高性能组件/3. 定时器/2207-timers/2207-timers/rbtree.c:48-92 | The loop ends and gives a red-black tree with the same in-order sequence. |
| NgxRbTree.Tree.Delete | 7.高性能组件/3. 定时器/2207-timers/2207-timers/rbtree.c:155-319 | From any valid tree and any node in it: exactly that node leaves the in-order sequence, the tree is a valid red-black tree again, its key is 0 and all other keys are unchanged; an ordered tree stays ordered. |
| NgxRbTree.Tree.ChooseSubst | 7.高性能组件/3. 定时器/2207-timers/2207-timers/rbtree.c:166-182 | The node to be bypassed is the node itself, or the leftmost node of its right subtree, and has at most one child, temp; it is the root only if it is the node itself. |
| NgxRbTree.Tree.DeleteRoot | 7.高性能组件/3. 定时器/2207-timers/2207-timers/rbtree.c:184-195 | A root with at most one child: that child becomes the black root. |
| NgxRbTree.Tree.Splice | 7.高性能组件/3. 定时器/2207-timers/2207-timers/rbtree.c:199-242 | After the assignments the tree is represented without the node, in order, and short of a black node exactly where a black node left. |
| NgxRbTree.Tree.SpliceDouble | 7.高性能组件/3. 定时器/2207-timers/2207-timers/rbtree.c:210-242 | The case of a deeper or direct successor. |
| NgxRbTree.Tree.SpliceSingle | 7.高性能组件/3. 定时器/2207-timers/2207-timers/rbtree.c:199-208 | The case of at most one child. |
| NgxRbTree.Tree.Bypass | 7.高性能组件/3. 定时器/2207-timers/2207-timers/rbtree.c:199-208 | The assignments put the only child of the node, or the sentinel, in its place. |
| NgxRbTree.Tree.Settle | 7.高性能组件/3. 定时器/2207-timers/2207-timers/rbtree.c:250-318 | A red node leaves nothing to repair; otherwise the loop repairs the shortage. |
| NgxRbTree.Tree.RepairDeletion | 7.高性能组件/3. 定时器/2207-timers/2207-timers/rbtree.c:254-318 | The loop ends and gives a red-black tree with the same in-order sequence. |
| NgxRbTree.Tree.Earliest | 7.高性能组件/3. 定时器/2207-timers/2207-timers/rbtree.h:74-82 | The leftmost node of an ordered tree: no deadline in it is before its own, across the wrap. |
| NgxRbTree.Tree.Next | 7.高性能组件/3. 定时器/2207-timers/2207-timers/rbtree.c:382-408 | The in-order successor of any node of the tree, or NULL for the last one. |
| NgxRbTree.Tree.NextAfter | 7.高性能组件/3. 定时器/2207-timers/2207-timers/rbtree.c:382-408 | The first node behind this one in order: the leftmost of its right subtree, or else where the climb ends. |
| NgxRbTree.Tree.ClimbRight | 7.高性能组件/3. 定时器/2207-timers/2207-timers/rbtree.c:393-407 | The climb ends at the first ancestor of which the node is in the left subtree, or at the root. |
| ClrsTree.Tree.Insert | 1. Data_structure/rbtree.c:149-179 | Refines a finite map: a key that is there already leaves the tree, and its value, untouched; any other key is added with its value, and the tree is valid and red-black again. |
| ClrsTree.Tree.Delete | 1. Data_structure/rbtree.c:251-287 | Refines a finite map: exactly the key that z held is removed, also when z takes over key and value of its successor and another node is unlinked; returns the unlinked node, which is no longer in the tree; the tree is valid and red-black again. |
| ClrsTree.Tree.Search | 1. Data_structure/rbtree.c:289-302 | Returns nil exactly when the key is not in the map, and otherwise the node with that key and the value of the map. |
| ClrsTree.Tree.HeightByKeys | 1. Data_structure/rbtree.c:101-287 | In every valid tree 2^height is at most (n+1)^2 for the n keys of the map: the height is at most 2 log2(n+1). |
| ClrsTree.Tree.Find | 1. Data_structure/rbtree.c:151-163 | The descent ends at the node with the key, or at the hole where the comparisons lead. |
| ClrsTree.Tree.InsertAt | 1. Data_structure/rbtree.c:165-178 | The new red leaf is linked below y and the tree repaired: one more node at its place in order. |
| ClrsTree.Tree.InsertFixup | 1. Data_structure/rbtree.c:101-146 | The loop ends and gives a red-black tree with the same in-order sequence. |
| ClrsTree.Tree.LoopGuard | 1. Data_structure/rbtree.c:103 | The guard is true exactly below a red parent: the sentinel above the root is black. |
| ClrsTree.Tree.DeleteFixup | 1. Data_structure/rbtree.c:181-249 | The loop ends and gives a red-black tree with the same in-order sequence. |
| ClrsTree.Tree.ChooseLeaver | 1. Data_structure/rbtree.c:256-260 | The node to be unlinked is z or its in-order successor, and has at most one child. |
| ClrsTree.Tree.TakeOut | 1. Data_structure/rbtree.c:262-275 | The child takes the place of the unlinked node: order kept but for it, and black heights but for its colour. |
| ClrsTree.Tree.Unlink | 1. Data_structure/rbtree.c:268-275 | The assignments that unlink y, the sentinel as the child included. |
| ClrsTree.Tree.Repair | 1. Data_structure/rbtree.c:282-284 | The repair loop is entered exactly for a black node, and the tree is red-black either way. |
| ClrsTree.Tree.Finish | 1. Data_structure/rbtree.c:277-284 | The lines from the copy on: z has key and value of the unlinked node, and the tree is red-black with the order that unlinking left. |
| ClrsTree.Tree.LeftOver | 1. Data_structure/rbtree.c:251-287 | What is left, as a map: the old map without the key of z, whichever node was unlinked. |
| ClrsTree.Tree.Successor | 1. Data_structure/rbtree.c:41-53 | The next node in order, or nil behind the last. |
| ClrsTree.Tree.constructor | 1. Data_structure/rbtree.c:317-325 | The created tree is valid and stands for the empty map. |
| ClrsTree.MapWith | 1. Data_structure/rbtree.c:149-179 | One more node in a sorted sequence adds exactly its key and value to the map. |
| ClrsTree.MapWithout | 1. Data_structure/rbtree.c:251-287 | One node less removes exactly its key. |
| ClrsTree.MapMoved | 1. Data_structure/rbtree.c:277-280 | When z takes over key and value of the node behind it, which leaves, only the old key of z is gone, and the sequence stays sorted. |
| ClrsTree.HoleSplits | 1. Data_structure/rbtree.c:154-163 | All keys before the hole the comparisons lead to are smaller, all behind it greater. |
| ClrsTree.SuccessorFocus | 1. Data_structure/rbtree.c:44-46 | The leftmost node of the right subtree is the next in order, and may take the focus of the deletion. |
| ClrsTree.UnlinkFacts | 1. Data_structure/rbtree.c:268-275 | The memory after the unlinking assignments represents the tree with the child in place of y. |
| ClrsTree.MapSize | 1. Data_structure/rbtree.c:149-287 | The map has as many keys as the tree has nodes. |
| DeadlockGraph.TaskGraph.CheckDeadLock | 7.高性能组件/4. 死锁检测/deadlock_success.c:308-322 | For every graph: deadlock is set if and only if some edge leads to a vertex from which the graph does not unfold as a tree; when it is not set the whole graph is acyclic; when every vertex has at most one outgoing edge it is set exactly when there is a cycle. A path is reported if and only if the flag is set, and every reported path is a walk in the graph. |
| DeadlockGraph.TaskGraph.SearchForCycle | 7.高性能组件/4. 死锁检测/deadlock_success.c:224-251 | From one vertex: the flag is set exactly when one of its edges leads to such a vertex. |
| DeadlockGraph.TaskGraph.SearchFrom | 7.高性能组件/4. 死锁检测/deadlock_success.c:235-248 | The search along one edge decides whether what is reachable from its target is a tree rooted there. |
| DeadlockGraph.TaskGraph.DFS | 7.高性能组件/4. 死锁检测/deadlock_success.c:194-221 | Ends, with the number of unvisited vertices as its measure; the path array stays within its bounds and holds a walk; the search has visited exactly the new part it explored, and flags it exactly when the edges looked at are not a tree. |
| DeadlockGraph.TaskGraph.ScanEdges | 7.高性能组件/4. 死锁检测/deadlock_success.c:209-216 | The loop over the edges of one vertex; the path is back where it was. |
| DeadlockGraph.TaskGraph.FollowEdge | 7.高性能组件/4. 死锁检测/deadlock_success.c:211-214 | One edge: its target is a registered vertex, and k is restored. |
| DeadlockGraph.TaskGraph.Enter | 7.高性能组件/4. 死锁检测/deadlock_success.c:206-207 | Marking and pushing a new vertex stays within the array. |
| DeadlockGraph.TaskGraph.ClearMarks | 7.高性能组件/4. 死锁检测/deadlock_success.c:235-240 | Leaves exactly the start marked. |
| DeadlockGraph.TaskGraph.ClearPath | 7.高性能组件/4. 死锁检测/deadlock_success.c:242-245 | Leaves the start alone on the path. |
| DeadlockGraph.TaskGraph.SearchVertex | 7.高性能组件/4. 死锁检测/deadlock_success.c:81-94 | The first vertex with this type and id, or -1 when there is none. |
| DeadlockGraph.TaskGraph.AddVertex | 7.高性能组件/4. 死锁检测/deadlock_success.c:96-106 | Appends a vertex without edges if no vertex has this type and id, and changes nothing otherwise. |
| DeadlockGraph.TaskGraph.AddEdge | 7.高性能组件/4. 死锁检测/deadlock_success.c:109-122 | Registers both ends and appends one edge; every edge target stays registered. |
| DeadlockGraph.TaskGraph.AppendEdge | 7.高性能组件/4. 死锁检测/deadlock_success.c:114-120 | Appends one edge at the end of one list. |
| DeadlockGraph.TaskGraph.VerifyEdge | 7.高性能组件/4. 死锁检测/deadlock_success.c:125-146 | True exactly when the vertex is registered and its own id or that of one of its edges is the id asked for (types are not compared). |
| DeadlockGraph.TaskGraph.RemoveEdge | 7.高性能组件/4. 死锁检测/deadlock_success.c:149-176 | Removes the first edge with the id of the target, if both ends are registered, and nothing else. |
| DeadlockGraph.TaskGraph.DropEdge | 7.高性能组件/4. 死锁检测/deadlock_success.c:157-175 | Along the list of one registered vertex: the first edge with that id is gone, and nothing else. |
| DeadlockGraph.TaskGraph.FindEdge | 7.高性能组件/4. 死锁检测/deadlock_success.c:159-172 | The position of the first edge with this id, if any. |
| DeadlockGraph.TaskGraph.constructor | 7.高性能组件/4. 死锁检测/deadlock_success.c:63-67 | The graph without vertices is valid. |
| DeadlockGraph.SearchDecides | 7.高性能组件/4. 死锁检测/graph.c:182-239 | A finished search from the target of an edge is flagged if and only if the graph does not unfold from there as a tree. |
| DeadlockGraph.EdgeToVisited | 7.高性能组件/4. 死锁检测/graph.c:185-193 | An edge to a visited vertex breaks the tree, and is flagged. |
| DeadlockGraph.EdgeToNew | 7.高性能组件/4. 死锁检测/graph.c:194-204 | An edge to a new vertex: the search below it extends the explored part, and the flags add up. |
| DeadlockGraph.TreesJoin | 7.高性能组件/4. 死锁检测/graph.c:194-204 | Two trees joined by one edge are a tree. |
| DeadlockGraph.TreeRestricts | 7.高性能组件/4. 死锁检测/graph.c:194-204 | And the joined tree is a tree in both parts. |
| DeadlockGraph.CycleIsSuspicious | 7.高性能组件/4. 死锁检测/deadlock_success.c:308-322 | No deadlock is missed: every cycle makes its vertices suspicious. |
| DeadlockGraph.SuspicionIsCycle | 7.高性能组件/4. 死锁检测/deadlock_success.c:308-322 | With single waits every suspicion is a cycle. |
| DeadlockGraph.SingleWaitExact | 7.高性能组件/4. 死锁检测/deadlock_success.c:308-322 | With single waits, suspicious if and only if cyclic. |
| DeadlockGraph.Verdict | 7.高性能组件/4. 死锁检测/deadlock_success.c:308-322 | For the graph of any registered lists: suspicious or acyclic, and exact with single waits. |
| DeadlockGraph.WalksAreForced | 7.高性能组件/4. 死锁检测/deadlock_success.c:194-221 | With single waits two walks from one vertex are prefixes of each other. |
| DeadlockGraph.MeetingWalksMakeCycle | 7.高性能组件/4. 死锁检测/deadlock_success.c:194-221 | With single waits two different predecessors reached from one vertex make a cycle. |
| DeadlockGraph.BrokenTreeHasCycle | 7.高性能组件/4. 死锁检测/deadlock_success.c:194-221 | With single waits, where the unfolding breaks there is a cycle. |
| DeadlockGraph.SelfLoopIsNoTree | 7.高性能组件/4. 死锁检测/deadlock_success.c:247 | An edge from a vertex to itself is flagged. |
| DeadlockGraph.FalseAlarm | 7.高性能组件/4. 死锁检测/deadlock_success.c:194-221 | Without single waits the alarm may be false: the diamond, which is the wait-for graph of registered lists of five threads, is flagged and has no cycle. |
| DeadlockGraph.DiamondIsAcyclic | 7.高性能组件/4. 死锁检测/deadlock_success.c:194-221 | The diamond has no cycle. |
| DeadlockGraph.WithVertexRegisters | 7.高性能组件/4. 死锁检测/deadlock_success.c:96-106 | Registering keeps all indices and edges, and leaves the source registered. |
| DeadlockGraph.WithEdgeAddsEdge | 7.高性能组件/4. 死锁检测/deadlock_success.c:109-122 | Appending to the list of a vertex adds exactly that edge to the graph. |
| DeadlockGraph.WithoutEdgeRemovesEdge | 7.高性能组件/4. 死锁检测/deadlock_success.c:149-176 | Removing from the list of a vertex removes exactly the first edge with that id from the graph, if any. |
| DeadlockGraph.WithoutEdgeRegistered | 7.高性能组件/4. 死锁检测/deadlock_success.c:149-176 | After a removal every edge target is still registered. |
| DeadlockGraph.RegisteredIsClosed | 7.高性能组件/4. 死锁检测/deadlock_success.c:211 | Every edge leads to a registered vertex: search_vertex never yields -1 in the search. |
| DeadlockGraph.MarkedBound | 7.高性能组件/4. 死锁检测/graph.c:182-204 | There are at most as many marks as vertices, which bounds the path. |
| DeadlockGraph.ThreadsMakeGraph | 7.高性能组件/4. 死锁检测/deadlock_success.c:96-122 | Every closed graph is the wait-for graph of some registered lists of threads. |
| TryCatch.Thread.Execute | 7.高性能组件/1.原子操作/trycatch_finally.c:61-139 | Every program of nested Try, Catch, Finally and Throw, run on the frame stack from an empty one: it ends, what ran is what the structured meaning says, in that order, and the stack is empty again. |
| TryCatch.ExpansionKeepsMeaning | 7.高性能组件/1.原子操作/trycatch_finally.c:61-139 | The expanded macros lead from the first to the last line with exactly the events of the structured meaning. |
| TryCatch.Simulate | 7.高性能组件/1.原子操作/trycatch_finally.c:61-139 | The same for any statement inside any surrounding code and stack: it ends normally behind its code with the stack it found, or at the saved point of the nearest enclosing Try with that frame popped and filled in; frames outside are untouched. |
| TryCatch.SimulateTry | 7.高性能组件/1.原子操作/trycatch_finally.c:61-86 | The same for a whole Try. |
| TryCatch.SimulateRaised | 7.高性能组件/1.原子操作/trycatch_finally.c:71-86 | After the body has thrown: the first matching Catch and then Finally, or Finally and then the rethrow. |
| TryCatch.SimulateCatches | 7.高性能组件/1.原子操作/trycatch_finally.c:71-74 | The chain of tests runs the first matching handler, outside the frame of its Try, or falls through with nothing changed. |
| TryCatch.SimulateHandler | 7.高性能组件/1.原子操作/trycatch_finally.c:72-74 | A handler that ends marks the exception handled; one that throws leaves its Try to the next one out. |
| TryCatch.SimulateEnd | 7.高性能组件/1.原子操作/trycatch_finally.c:77-86 | The block behind Finally and the rethrow test for every flag that can reach them. |
| TryCatch.SimulateFinally | 7.高性能组件/1.原子操作/trycatch_finally.c:77-84 | The Finally block runs, and its closing test never pops the stack a second time. |
| TryCatch.RunBody | 7.高性能组件/1.原子操作/trycatch_finally.c:61-73 | The body either ends with its frame still on top or arrives at the flag test with its frame popped and the exception in it. |
| TryCatch.EnterTry | 7.高性能组件/1.原子操作/trycatch_finally.c:61-68 | Opening a Try pushes one frame whose saved point is the flag test. |
| TryCatch.LeaveBlock | 7.高性能组件/1.原子操作/trycatch_finally.c:71-73 | Leaving a block pops the frame exactly when it is still entered, and jumps behind the chain. |
| TryCatch.TopLevelEndsNormally | 7.高性能组件/1.原子操作/trycatch_finally.c:101-139 | Outside every Try nothing is raised: an uncaught throw is reported and the program goes on. |
| TryCatch.FinallyRuns | 7.高性能组件/1.原子操作/trycatch_finally.c:77-86 | The Finally block runs exactly once in every way out of a Try but one, a handler that itself throws out; then it does not run. What a Finally block raises replaces what was pending. |
| TryCatch.FinallySkipped | 7.高性能组件/1.原子操作/trycatch_finally.c:77-86 | A concrete program whose Finally block does not run, because the handler of its Try throws to the Try around it. |
| TryCatch.Rethrown | 7.高性能组件/1.原子操作/trycatch_finally.c:83-86 | A Try with no matching Catch and no Finally is transparent to what its body raises. |
| TryLaws.BodyIsCaught | 7.高性能组件/1.原子操作/trycatch_finally.c:71-86 | If the body of a Try throws e and the i-th Catch is the first that names e, that handler runs and no other; if it throws the Try ends there, otherwise the Finally block runs and e is gone. |
| TryLaws.BodyIsNotCaught | 7.高性能组件/1.原子操作/trycatch_finally.c:77-86 | If the body throws e and no Catch names e, the Finally block runs and e goes on outward behind it, or is reported outside every Try; what the Finally block throws replaces it. |
| TryLaws.BodyEnds | 7.高性能组件/1.原子操作/trycatch_finally.c:61-86 | If the body throws nothing out, no Catch runs, and the Finally block does. |
| TryLaws.FirstMatch | 7.高性能组件/1.原子操作/trycatch_finally.c:71-74 | Of the clauses of a Try as a sequence, the handler chosen is that of the first with the same exception. |
| TryLaws.NoMatch | 7.高性能组件/1.原子操作/trycatch_finally.c:71-74 | If no clause has it, none is chosen. |
| TryLaws.ThrowLaw | 7.高性能组件/1.原子操作/trycatch_finally.c:101-139 | A throw inside a Try ends everything up to it; outside it is reported and execution goes on. |
| TryLaws.SeqLaw | 7.高性能组件/1.原子操作/trycatch_finally.c:61-86 | The second statement runs behind the first unless the first has thrown. |
| TryLaws.PastTheCatch | 7.高性能组件/1.原子操作/trycatch_finally.c:83-86 | A concrete program: an exception that the one Catch does not name is thrown again and reported. |
| TryLaws.FirstThrowWins | 7.高性能组件/1.原子操作/trycatch_finally.c:193-216 | The last program of the thread function, for any four exceptions: the first throw ends the body and only its handler runs. |
| TryLaws.NestedTries | 7.高性能组件/1.原子操作/trycatch_finally.c:233-247 | Test 1 of main, for any two exceptions: the inner Try goes on behind what it catches, and the outer one catches the next throw. |
| TryCatch.Thread.ThrowException | 7.高性能组件/1.原子操作/trycatch_finally.c:101-139 | Fills in and pops the top frame and jumps to its saved point; with no frame, reports. |
| TryCatch.Thread.Advance | 7.高性能组件/1.原子操作/trycatch_finally.c:61-86 | One line of the expansion. |
| BTree.BTree.Insert | 1. Data_structure/btree.c:115-135 | For every t >= 2, any valid tree and any key, also one that is there: the tree is valid again (t-1 to 2t-1 keys per non-root node, leaves at one depth, nodes linked once each) and its traversal is the old sorted one with the key put in. |
| BTree.BTree.InsertAll | 1. Data_structure/btree.c:362-374 | Any number of keys in any order: the traversal is sorted and is the old keys and the new ones, with multiplicities. |
| BTree.BTree.InsertNonfull | 1. Data_structure/btree.c:90-113 | Entered only with a node that has room; the key goes down to a leaf, at its place on every level, and only nodes of this subtree change. |
| BTree.BTree.InsertBelow | 1. Data_structure/btree.c:103-112 | The branch for inner nodes. |
| BTree.BTree.InsertLeaf | 1. Data_structure/btree.c:94-102 | The branch for leaves. |
| BTree.BTree.ChooseChild | 1. Data_structure/btree.c:104-109 | The child to go on in is the place of the key and is not full, a full one having been split. |
| BTree.BTree.InsertHalf | 1. Data_structure/btree.c:128-130 | The key goes into the half it belongs to. |
| BTree.BTree.SplitRoot | 1. Data_structure/btree.c:119-126 | A full root becomes two halves under a new root with one key; the traversal is unchanged. |
| BTree.BTree.SplitTop | 1. Data_structure/btree.c:126 | The split of the only child of the new root, as the tree represented. |
| BTree.BTree.AddRoot | 1. Data_structure/btree.c:121-124 | The new root above the old one. |
| BTree.BTree.InsertFull | 1. Data_structure/btree.c:119-130 | Insertion into a tree with a full root. |
| BTree.BTree.InsertRoomy | 1. Data_structure/btree.c:132-134 | Insertion into a tree whose root has room. |
| BTree.BTree.SplitChild | 1. Data_structure/btree.c:57-88 | The array assignments perform the split of the full child around its middle key, on x, y and the new node only. |
| BTree.BTree.SplitCells | 1. Data_structure/btree.c:60-87 | The three cells that a split writes hold the two halves and the parent with the middle key between them; no other cell is touched. |
| BTree.BTree.Halve | 1. Data_structure/btree.c:60-74 | The cells of a full node and of a new one hold its lower and its upper half. |
| BTree.BTree.FillUpper | 1. Data_structure/btree.c:63-73 | The upper keys, and children if there are any, go to the new node. |
| BTree.BTree.LinkUpper | 1. Data_structure/btree.c:76-86 | The parent makes room for one key and one child and stores them. |
| BTree.FindPlace | 1. Data_structure/btree.c:104 | The place of a key: all before are at most it, all behind greater. |
| BTree.Place | 1. Data_structure/btree.c:96-100 | The same, moving the greater keys up and storing the key. |
| BTree.BTree.CreateNode | 1. Data_structure/btree.c:24-35 | A new node with room for 2t-1 keys and 2t children. |
| BTree.BTree.constructor | 1. Data_structure/btree.c:48-54 | The created tree is valid and empty. |
| BTree.BTree.MergeChildren | 1. Data_structure/btree.c:193-227 | The array assignments merge two children of t-1 keys and the key between; a root left without keys gives way to the merged node; both destroyed nodes are gone. The write at line 220 is inside the array if and only if the node had at most 2t-2 keys. |
| BTree.BTree.MergeCells | 1. Data_structure/btree.c:195-221 | The cells that a merge writes hold the merged node and the parent without the key and the right child, whose cell is gone; no other cell is touched. |
| BTree.BTree.JoinInto | 1. Data_structure/btree.c:201-210 | The left sibling holds its own keys, the key between and those of the right one. |
| BTree.BTree.CloseGap | 1. Data_structure/btree.c:216-221 | Key idx and child idx+1 are gone from the parent; whether the write behind them fits. |
| BTree.MergeBelowFullParent | 1. Data_structure/btree.c:216-221 | The case is real: linked nodes, those that the keys 1 to 8 make for t = 2, that represent a valid tree whose root is full and whose first two children can only be merged. |
| BTree.BTree.RefillBelowFullParent | 1. Data_structure/btree.c:216-221 | In any memory that represents that tree, the steps before a deletion descends into the first child write outside the array. |
| BTree.BTree.BorrowFromNext | 1. Data_structure/btree.c:301-315 | The array assignments move a key from the right sibling through the parent to the child. |
| BTree.BTree.MoveDown | 1. Data_structure/btree.c:302-315 | On the three nodes. |
| BTree.BTree.BorrowFromPrev | 1. Data_structure/btree.c:317-334 | The array assignments move a key from the left sibling through the parent to the child. |
| BTree.BTree.MoveUp | 1. Data_structure/btree.c:319-333 | On the three nodes. |
| BTree.BTree.Refill | 1. Data_structure/btree.c:285-346 | Before descending into a child of t-1 keys there is always a legal case; afterwards the traversal of the subtree is unchanged, its leaves are at one depth, and the child to descend into has at least t keys, all those of the old child among them. |
| BTree.BTree.Siblings | 1. Data_structure/btree.c:287-292 | The siblings of the child, as far as there are any. |
| BTree.BTree.RicherRight | 1. Data_structure/btree.c:297-301 | Borrow from the right exactly when it has a key to spare and there is no left sibling or it has fewer keys. |
| BTree.BTree.Borrow | 1. Data_structure/btree.c:294-334 | The case of a sibling that can spare a key. |
| BTree.BTree.Join | 1. Data_structure/btree.c:336-345 | The case of none: the child is merged with its left sibling, or with the right one if there is no left. |
| BTreeShapes.MergeUndoesSplit | 1. Data_structure/btree.c:57-227 | Merging after a split restores every key and child. |
| BTreeShapes.SplitUndoesMerge | 1. Data_structure/btree.c:57-227 | Splitting after a merge of two smallest siblings restores them. |
| BTreeShapes.SplitKeepsText | 1. Data_structure/btree.c:57-88 | A split leaves the traversal unchanged. |
| BTreeShapes.SplitKeepsShape | 1. Data_structure/btree.c:57-88 | And the bounds on keys and the depth of leaves. |
| BTreeShapes.MergeKeepsText | 1. Data_structure/btree.c:193-227 | A merge leaves the traversal unchanged. |
| BTreeShapes.MergeKeepsShape | 1. Data_structure/btree.c:193-227 | And the shape, with one key less in the parent. |
| BTreeShapes.BorrowedNextKeepsText | 1. Data_structure/btree.c:301-315 | Borrowing from the next sibling leaves the traversal unchanged, and says what the child has gained. |
| BTreeShapes.BorrowedNextKeepsShape | 1. Data_structure/btree.c:301-315 | And the shape; the child has t keys. |
| BTreeShapes.BorrowedPrevKeepsText | 1. Data_structure/btree.c:317-334 | Borrowing from the previous sibling leaves the traversal unchanged, and says what the child has gained. |
| BTreeShapes.BorrowedPrevKeepsShape | 1. Data_structure/btree.c:317-334 | And the shape; the child has t keys. |
| BTreeShapes.BorrowedNextEnriches | 1. Data_structure/btree.c:301-315 | All that the descent needs after borrowing from next. |
| BTreeShapes.BorrowedPrevEnriches | 1. Data_structure/btree.c:317-334 | All that the descent needs after borrowing from prev. |
| BTreeShapes.MergeEnriches | 1. Data_structure/btree.c:336-345 | All that the descent needs after a merge, for either sibling. |
| BTreeShapes.CollapseEnriches | 1. Data_structure/btree.c:223-226 | And when the root has given way to the merged node. |
| BTreeShapes.TakesPutsIn | 1. Data_structure/btree.c:90-113 | A key that has gone down to a leaf at its place on every level has been put into the sorted traversal. |
| BTreeShapes.PutInSorts | 1. Data_structure/btree.c:90-113 | That keeps the sequence sorted and adds exactly that key, with multiplicity. |
| BTreeShapes.PlaceAfterSplit | 1. Data_structure/btree.c:107-108 | After the split the comparison with the middle key selects the place of the key, in a node that has room. |
| BTreeShapes.InOrderWeaves | 1. Data_structure/btree.c:137-147 | The traversal alternates the texts of the children and the keys. |
| BTreeShapes.WeaveAround | 1. Data_structure/btree.c:137-147 | The traversal around the text of any one child. |
| BTreeLinks.RegroupedDistinct | 1. Data_structure/btree.c:57-227 | When neighbouring siblings hand their children over among themselves or to new nodes, every node still occurs once. |
| BTreeLinks.RegroupedRep | 1. Data_structure/btree.c:57-227 | And the memory represents the regrouped tree if the touched cells do. |
| BTreeLinks.RepWithKid | 1. Data_structure/btree.c:111 | A child rewritten inside its own nodes leaves the rest of the tree represented. |
| BTreeLinks.DistinctWithKid | 1. Data_structure/btree.c:111 | And every node still occurs once. |
| AsyncLogging.AsyncLogging.Run | 7.高性能组件/7. 异步日志方案/log-src-20221008/log-src-20221008/muduo_log/AsyncLogging.cc:34-141 | Every interleaving of append with steps of the back-end: what is in the file and what is still pending is exactly everything appended, in order, if and only if no text was dropped; none is dropped as long as no iteration collects more than 25 buffers. Where every line is shorter than a buffer, it is everything appended if and only if no iteration has dropped buffers, that is, collected more than 25. |
| AsyncLogging.Overload | 7.高性能组件/7. 异步日志方案/log-src-20221008/log-src-20221008/muduo_log/AsyncLogging.cc:95-107 | A concrete overload: 26 lines that fill a buffer each, before the back-end comes to its first iteration, lose text; the file says that 24 buffers are dropped. |
| AsyncLogging.AsyncLogging.Append | 7.高性能组件/7. 异步日志方案/log-src-20221008/log-src-20221008/muduo_log/AsyncLogging.cc:34-58 | A line of less than 4000000 bytes goes behind all that was appended, a longer one is dropped; no step of the back-end is disturbed. |
| AsyncLogging.AsyncLogging.AppendHere | 7.高性能组件/7. 异步日志方案/log-src-20221008/log-src-20221008/muduo_log/AsyncLogging.cc:38-41 | The branch for a line that fits: it goes behind what the current buffer holds. |
| AsyncLogging.AsyncLogging.AppendBehind | 7.高性能组件/7. 异步日志方案/log-src-20221008/log-src-20221008/muduo_log/AsyncLogging.cc:42-57 | The branch for a line that does not fit: the full buffer is queued and a spare or a new one takes its place. |
| AsyncLogging.AsyncLogging.Collect | 7.高性能组件/7. 异步日志方案/log-src-20221008/log-src-20221008/muduo_log/AsyncLogging.cc:73-93 | The asserts at the head of the loop hold on every run; the buffers collected are those queued and the current one, and the front end has a current and a next buffer again. |
| AsyncLogging.AsyncLogging.Write | 7.高性能组件/7. 异步日志方案/log-src-20221008/log-src-20221008/muduo_log/AsyncLogging.cc:95-114 | Of more than 25 buffers only the first two are written, behind a notice with the number of the others; otherwise every buffer is written, in order; the front end is not touched. |
| AsyncLogging.AsyncLogging.WriteOut | 7.高性能组件/7. 异步日志方案/log-src-20221008/log-src-20221008/muduo_log/AsyncLogging.cc:97-114 | The file grows by the notice, if there is one, and the buffers that are kept, in order; the rest is accounted for as dropped. |
| AsyncLogging.AsyncLogging.WriteAll | 7.高性能组件/7. 异步日志方案/log-src-20221008/log-src-20221008/muduo_log/AsyncLogging.cc:109-113 | The loop writes all buffers in order. |
| AsyncLogging.AsyncLogging.Restock | 7.高性能组件/7. 异步日志方案/log-src-20221008/log-src-20221008/muduo_log/AsyncLogging.cc:115-138 | The written buffers always suffice for the spare ones that are missing, the drop to two included; both asserts hold. |
| AsyncLogging.AsyncLogging.Advance | 7.高性能组件/7. 异步日志方案/log-src-20221008/log-src-20221008/muduo_log/AsyncLogging.cc:71-139 | One step of the loop keeps the invariant, and says what it adds to the file. |
| AsyncLogging.AsyncLogging.Take | 7.高性能组件/7. 异步日志方案/log-src-20221008/log-src-20221008/muduo_log/AsyncLogging.cc:34-139 | One step of either side keeps the invariant. |
| AsyncLogging.AsyncLogging.AllThere | 7.高性能组件/7. 异步日志方案/log-src-20221008/log-src-20221008/muduo_log/AsyncLogging.cc:34-141 | The same in any state; and without a loss the file holds everything appended if and only if nothing is pending. |
| AsyncLogging.AsyncLogging.constructor | 7.高性能组件/7. 异步日志方案/log-src-20221008/log-src-20221008/muduo_log/AsyncLogging.cc:13-69 | The state in which both sides start satisfies the invariant. |
| AsyncLogging.NothingLost | 7.高性能组件/7. 异步日志方案/log-src-20221008/log-src-20221008/muduo_log/AsyncLogging.cc:97-107 | What is kept is all there was if and only if all that was dropped held no text. |
| AsyncLogging.TextsSplit | 7.高性能组件/7. 异步日志方案/log-src-20221008/log-src-20221008/muduo_log/AsyncLogging.cc:106-112 | The text of a queue is that of its first buffers and that of the others. |
| LogStream.FixedBuffer.Append | 7.高性能组件/7. 异步日志方案/log-src-20221008/log-src-20221008/muduo_log/LogStream.h:38-46 | If more bytes are free than the text has, all of it is added behind what the buffer holds; otherwise the buffer stays as it was. |
| LogStream.FixedBuffer.Reset | 7.高性能组件/7. 异步日志方案/log-src-20221008/log-src-20221008/muduo_log/LogStream.h:56 | The buffer is empty. |
| LogStream.FixedBuffer.constructor | 7.高性能组件/7. 异步日志方案/log-src-20221008/log-src-20221008/muduo_log/LogStream.h:27-31 | A new buffer is empty. |
| LogStream.Convert | 7.高性能组件/7. 异步日志方案/log-src-20221008/log-src-20221008/muduo_log/LogStream.cc:44-66 | For every 64-bit value, the minimum included: writes its decimal numeral and a terminating zero, at most 20 characters, and nothing else. |
| LogStream.WriteSigned | 7.高性能组件/7. 异步日志方案/log-src-20221008/log-src-20221008/muduo_log/LogStream.cc:47-61 | The digits and the sign that the loop and the test behind it write are the decimal numeral backwards. |
| LogStream.WriteDigits | 7.高性能组件/7. 异步日志方案/log-src-20221008/log-src-20221008/muduo_log/LogStream.cc:48-56 | The loop with truncating division and negative remainders writes the digits of the absolute value, the last one first. |
| LogStream.Reverse | 7.高性能组件/7. 异步日志方案/log-src-20221008/log-src-20221008/muduo_log/LogStream.cc:63 | The stretch is reversed and the rest untouched. |
| LogStream.ConvertHex | 7.高性能组件/7. 异步日志方案/log-src-20221008/log-src-20221008/muduo_log/LogStream.cc:68-84 | For every unsigned 64-bit value: writes its hexadecimal numeral, at most 16 digits, and a terminating zero. |
| LogStream.FormatInteger | 7.高性能组件/7. 异步日志方案/log-src-20221008/log-src-20221008/muduo_log/LogStream.cc:235-243 | Appends all of the decimal numeral if 32 bytes are free, and nothing otherwise; never writes outside the buffer. |
| LogStream.FormatPointer | 7.高性能组件/7. 异步日志方案/log-src-20221008/log-src-20221008/muduo_log/LogStream.cc:293-305 | Appends 0x and the hexadecimal numeral if 32 bytes are free, and nothing otherwise. |
| LogStream.DecimalReadsBack | 7.高性能组件/7. 异步日志方案/log-src-20221008/log-src-20221008/muduo_log/LogStream.cc:44-66 | Reading the text of a value gives the value back; there is no superfluous zero and no negative zero. |
| LogStream.DecimalIsUnique | 7.高性能组件/7. 异步日志方案/log-src-20221008/log-src-20221008/muduo_log/LogStream.cc:44-66 | Writing the value of a text of that form gives the text back. |
| LogStream.NumeralReadsBack | 7.高性能组件/7. 异步日志方案/log-src-20221008/log-src-20221008/muduo_log/LogStream.cc:68-84 | The same for unsigned numerals of any base up to 16. |
| LogStream.NumeralIsUnique | 7.高性能组件/7. 异步日志方案/log-src-20221008/log-src-20221008/muduo_log/LogStream.cc:68-84 | And back. |
| LogStream.SomeNumerals | 7.高性能组件/7. 异步日志方案/log-src-20221008/log-src-20221008/muduo_log/LogStream.cc:34-84 | Some numerals digit by digit, so that digits and their order are fixed. |
| LogStream.DecimalFits | 7.高性能组件/7. 异步日志方案/log-src-20221008/log-src-20221008/muduo_log/LogStream.cc:225-232 | Every 64-bit value has at most 20 characters. |
| LogStream.HexFits | 7.高性能组件/7. 异步日志方案/log-src-20221008/log-src-20221008/muduo_log/LogStream.cc:68-84 | Every unsigned 64-bit value has at most 16 hexadecimal digits. |
| LogStream.TruncatedDigits | 7.高性能组件/7. 异步日志方案/log-src-20221008/log-src-20221008/muduo_log/LogStream.cc:53-54 | Truncating division takes the same digits off a number and its negative. |
| LogStream.RemainderDigit | 7.高性能组件/7. 异步日志方案/log-src-20221008/log-src-20221008/muduo_log/LogStream.cc:37-38 | Indexing the digit table from its middle by a remainder of either sign gives the digit. |
| LogStream.OneDigit | 7.高性能组件/7. 异步日志方案/log-src-20221008/log-src-20221008/muduo_log/LogStream.cc:51-56 | One turn of the loop moves one digit from what is to be written to what is. |
| MinHeap.MinHeap.Push | 7.高性能组件/3. 定时器/2207-timers/2207-timers/minheap.c:13-19 | With memory: the entry is added, and knows its place; heap order and back-indices hold for all. Without: nothing changes and -1 is returned. |
| MinHeap.MinHeap.Pop | 7.高性能组件/3. 定时器/2207-timers/2207-timers/minheap.c:21-31 | Returns null exactly for the empty heap; otherwise removes one entry that is no later than any, whose index becomes -1; heap order and back-indices hold for the rest. |
| MinHeap.MinHeap.Top | 7.高性能组件/3. 定时器/2207-timers/2207-timers/minheap.c:11 | The first entry is no later than any. |
| MinHeap.MinHeap.Erase | 7.高性能组件/3. 定时器/2207-timers/2207-timers/minheap.c:38-57 | Removes exactly the entry, wherever it is, also as the last or the only one; its index becomes -1; -1 is returned exactly for an entry that is in no heap. |
| MinHeap.MinHeap.Adjust | 7.高性能组件/3. 定时器/2207-timers/2207-timers/minheap.c:59-73 | After the time of one entry has changed, restores heap order with the same entries; an entry in no heap is pushed. |
| MinHeap.MinHeap.Reschedule | 7.高性能组件/3. 定时器/2207-timers/2207-timers/minheap.c:59-73 | Changing the time of any entry to any value and adjusting gives a heap with the same entries. |
| MinHeap.MinHeap.Reserve | 7.高性能组件/3. 定时器/2207-timers/2207-timers/minheap.c:75-89 | Afterwards there is room, or nothing has changed and -1 is returned. New room is 8 at first and then doubled, or what is asked for if that is more; exactly that where the doubling wraps a 32-bit word. |
| MinHeap.MinHeap.ShiftUp | 7.高性能组件/3. 定时器/2207-timers/2207-timers/minheap.c:103-113 | Moves the hole up until the entry fits: heap order, back-indices, and the same entries. |
| MinHeap.MinHeap.ShiftUpUnconditional | 7.高性能组件/3. 定时器/2207-timers/2207-timers/minheap.c:91-101 | The same when the parent is known to be later; it is entered with a real parent only. |
| MinHeap.MinHeap.ShiftDown | 7.高性能组件/3. 定时器/2207-timers/2207-timers/minheap.c:115-128 | Moves the hole down until the entry fits, never reading behind the last entry. |
| MinHeap.MinHeap.RefitUp | 7.高性能组件/3. 定时器/2207-timers/2207-timers/minheap.c:49-50 | Erasing, the upward branch: one direction suffices. |
| MinHeap.MinHeap.RefitDown | 7.高性能组件/3. 定时器/2207-timers/2207-timers/minheap.c:51-52 | Erasing, the downward branch: one direction suffices, and the write behind the last entry harms nothing. |
| MinHeap.MinHeap.Pull | 7.高性能组件/3. 定时器/2207-timers/2207-timers/minheap.c:108-109 | One assignment of the loops: the entry that moves learns its new index. |
| MinHeap.MinHeap.constructor | 7.高性能组件/3. 定时器/2207-timers/2207-timers/minheap.c:6 | The new heap is empty and valid. |
| MinHeap.HoleMovesUp | 7.高性能组件/3. 定时器/2207-timers/2207-timers/minheap.c:106-111 | A parent later than the entry may move into the hole: all other order is kept. |
| MinHeap.HoleMovesDown | 7.高性能组件/3. 定时器/2207-timers/2207-timers/minheap.c:118-126 | The earlier child may move into the hole if it is earlier than the entry. |
| MinHeap.HoleFilled | 7.高性能组件/3. 定时器/2207-timers/2207-timers/minheap.c:112 | Between a parent no later and children no earlier the entry fits the hole. |
| MinHeap.EarlyAbove | 7.高性能组件/3. 定时器/2207-timers/2207-timers/minheap.c:44-50 | An entry earlier than the parent of the hole is earlier than all below it: it need not be moved down as well. |
| MinHeap.PickChild | 7.高性能组件/3. 定时器/2207-timers/2207-timers/minheap.c:120 | The index arithmetic picks the earlier child, also when there is one child only. |
| MinHeap.LastOff | 7.高性能组件/3. 定时器/2207-timers/2207-timers/minheap.c:42 | Taking the last entry off leaves a heap with a hole for it, and exactly one entry less. |
| MinHeap.LastStays | 7.高性能组件/3. 定时器/2207-timers/2207-timers/minheap.c:49-52 | Erasing the last entry itself takes the downward branch. |
| MinHeap.FirstIsEarliest | 7.高性能组件/3. 定时器/2207-timers/2207-timers/minheap.c:11 | In heap order no entry is earlier than the first. |
| MinHeap.IndicesFit | 7.高性能组件/3. 定时器/2207-timers/2207-timers/minheap.c:115-128 | No index that is computed wraps a 32-bit word, exactly for heaps of up to 2^31 - 2 entries. |
| SkipList.SkipList.Insert | 7.高性能组件/3. 定时器/2207-timers/2207-timers/skiplist.c:55-84 | For every score and level 1..32: the node is linked before all others of its score on exactly its levels; every level is sorted and a part of the level below, pointers above the level are null, and the length is counted. |
| SkipList.SkipList.Prepare | 7.高性能组件/3. 定时器/2207-timers/2207-timers/skiplist.c:59-76 | For each level that the new node will have, the last node with a smaller score, the header on levels used for the first time. |
| SkipList.SkipList.DeleteHead | 7.高性能组件/3. 定时器/2207-timers/2207-timers/skiplist.c:92-105 | Removes exactly the first node from every level it is on; nothing happens to an empty list. |
| SkipList.SkipList.Delete | 7.高性能组件/3. 定时器/2207-timers/2207-timers/skiplist.c:119-137 | Removes and frees the first node with the score of the given one, if there is any, from every level it is on, and nothing else. |
| SkipList.SkipList.DeleteNode | 7.高性能组件/3. 定时器/2207-timers/2207-timers/skiplist.c:107-117 | Unlinks the node from every level it is on and gives up levels that become empty. |
| SkipList.SkipList.Min | 7.高性能组件/3. 定时器/2207-timers/2207-timers/skiplist.c:86-90 | The first node, no greater than any, or null for the empty list. |
| SkipList.SkipList.Search | 7.高性能组件/3. 定时器/2207-timers/2207-timers/skiplist.c:59-67 | On every level the last node with a smaller score. |
| SkipList.SkipList.WalkLevel | 7.高性能组件/3. 定时器/2207-timers/2207-timers/skiplist.c:61-66 | On one level, from where the level above ended. |
| SkipList.SkipList.Walk | 7.高性能组件/3. 定时器/2207-timers/2207-timers/skiplist.c:61-65 | The inner loop ends there. |
| SkipList.SkipList.Raise | 7.高性能组件/3. 定时器/2207-timers/2207-timers/skiplist.c:70-75 | Levels used for the first time start at the header. |
| SkipList.SkipList.LinkAll | 7.高性能组件/3. 定时器/2207-timers/2207-timers/skiplist.c:77-80 | The loop links the node in on each of its levels. |
| SkipList.SkipList.UnlinkAll | 7.高性能组件/3. 定时器/2207-timers/2207-timers/skiplist.c:109-113 | The loop unlinks the node from each of its levels, and skips the others. |
| SkipList.SkipList.UnlinkFirst | 7.高性能组件/3. 定时器/2207-timers/2207-timers/skiplist.c:97-101 | The same from the highest level down, for the first node. |
| SkipList.SkipList.LowerLevel | 7.高性能组件/3. 定时器/2207-timers/2207-timers/skiplist.c:102-103 | No level in use is empty but the lowest. |
| SkipList.SkipList.constructor | 7.高性能组件/3. 定时器/2207-timers/2207-timers/skiplist.c:17-29 | The created list is valid and empty. |
| SkipList.RowIsSublist | 7.高性能组件/3. 定时器/2207-timers/2207-timers/skiplist.c:77-80 | The list of each level is a part of the one below, in the same order. |
| SkipList.AboveIsNull | 7.高性能组件/3. 定时器/2207-timers/2207-timers/skiplist.c:70-75 | Above the level in use the pointers of the header are null. |
| SkipList.DeletesFirst | 7.高性能组件/3. 定时器/2207-timers/2207-timers/skiplist.c:132-134 | The node removed for a given one has its score, and is that node if and only if no other node of that score stands before it. |
| SkipList.CutIsFirst | 7.高性能组件/3. 定时器/2207-timers/2207-timers/skiplist.c:119-137 | At the place where zslDelete looks is the first node of the score, or there is none of that score anywhere. |
| SkipList.DeletesAnother | 7.高性能组件/3. 定时器/2207-timers/2207-timers/skiplist.c:132-134 | The other case is real: of two nodes of one score, asking for the second deletes the first. |
| SkipList.LinkIn | 7.高性能组件/3. 定时器/2207-timers/2207-timers/skiplist.c:78-79 | The two assignments link a node in behind another on one level. |
| SkipList.LinkOut | 7.高性能组件/3. 定时器/2207-timers/2207-timers/skiplist.c:110-112 | The assignment unlinks a node on one level. |
| SkipList.LinkStep | 7.高性能组件/3. 定时器/2207-timers/2207-timers/skiplist.c:77-80 | One turn of the linking loop: this level has the node, the others are as they were. |
| SkipList.UnlinkStep | 7.高性能组件/3. 定时器/2207-timers/2207-timers/skiplist.c:109-113 | One turn of the unlinking loops. |
| SkipList.EmptyTop | 7.高性能组件/3. 定时器/2207-timers/2207-timers/skiplist.c:102-103 | The header points nowhere on the highest level exactly when that level is empty. |
| Calendar.DateOfDay | 7.高性能组件/7. 异步日志方案/log-src-20221008/log-src-20221008/muduo_log/Date.cc:20-42 | Decoding the number of any date with a non-negative shifted year gives the date. |
| Calendar.DayOfDate | 7.高性能组件/7. 异步日志方案/log-src-20221008/log-src-20221008/muduo_log/Date.cc:20-42 | Decoding any number from -32044 on gives a date that exists, with that number. |
| Calendar.TooEarly | 7.高性能组件/7. 异步日志方案/log-src-20221008/log-src-20221008/muduo_log/Date.cc:29-42 | Smaller numbers decode to dates that do not exist. |
| Calendar.NextDayIsNext | 7.高性能组件/7. 异步日志方案/log-src-20221008/log-src-20221008/muduo_log/Date.cc:20-27 | Consecutive dates, leap-year rule included, have consecutive numbers. |
| Calendar.DaysCount | 7.高性能组件/7. 异步日志方案/log-src-20221008/log-src-20221008/muduo_log/Date.cc:20-27 | The date n days later has a number greater by n. |
| Calendar.Located | 7.高性能组件/7. 异步日志方案/log-src-20221008/log-src-20221008/muduo_log/Date.cc:23-26 | The number of a date splits into century, year of the century and day of the year. |
| Calendar.Decoded | 7.高性能组件/7. 异步日志方案/log-src-20221008/log-src-20221008/muduo_log/Date.cc:31-41 | The divisions recover exactly that century, year and month. |
| Calendar.CenturyFound | 7.高性能组件/7. 异步日志方案/log-src-20221008/log-src-20221008/muduo_log/Date.cc:32-33 | Every day number lies in the century that the first division finds. |
| Calendar.YearFound | 7.高性能组件/7. 异步日志方案/log-src-20221008/log-src-20221008/muduo_log/Date.cc:34-35 | And in the year that the second finds. |
| Calendar.MonthFound | 7.高性能组件/7. 异步日志方案/log-src-20221008/log-src-20221008/muduo_log/Date.cc:36-38 | And in the month that the third finds. |
| Calendar.IntermediatesFit | 7.高性能组件/7. 异步日志方案/log-src-20221008/log-src-20221008/muduo_log/Date.cc:31-41 | On 32-bit int no result on the way through the decoding overflows, exactly up to day number 2^29 - 1 - 32044. |
| Calendar.DatesFit | 7.高性能组件/7. 异步日志方案/log-src-20221008/log-src-20221008/muduo_log/Date.cc:23-26 | On 32-bit int no result on the way through the encoding overflows, exactly up to 15 December 5874689. |
| Calendar.EpochDay | 7.高性能组件/7. 异步日志方案/log-src-20221008/log-src-20221008/muduo_log/Date.cc:44 | The epoch has day number 2440588. |
| Calendar.DateOfDayNumber | 7.高性能组件/7. 异步日志方案/log-src-20221008/log-src-20221008/muduo_log/Date.cc:71-74 | The fields form a date that exists exactly from day number -32044 on, and then one with that number. |
| Calendar.WeekDays | 7.高性能组件/7. 异步日志方案/log-src-20221008/log-src-20221008/muduo_log/Date.h:93-96 | Counted from the first of January 1970 as weekday 4, the weekday of day number n is (4 + n - 2440588) mod 7 exactly from day number -1 on; before it the remainder is negative, but for multiples of seven. |
| Calendar.EpochIsThursday | 7.高性能组件/7. 异步日志方案/log-src-20221008/log-src-20221008/muduo_log/Date.h:93-96 | The first of January 1970 is a Thursday. |
| Calendar.FillHMS | 7.高性能组件/7. 异步日志方案/log-src-20221008/log-src-20221008/muduo_log/TimeZone.cc:75-81 | Hours, minutes and seconds in range that add up. |
| Calendar.SplitDays | 7.高性能组件/7. 异步日志方案/log-src-20221008/log-src-20221008/muduo_log/TimeZone.cc:325-331 | Days and seconds of the day for times before the epoch too, despite truncating division. |
| Calendar.ToUtcTime | 7.高性能组件/7. 异步日志方案/log-src-20221008/log-src-20221008/muduo_log/TimeZone.cc:320-346 | The fields are valid exactly from the first representable second on; then fromUtcTime gives the second back, the weekday is that of the day counted from a Thursday, 1 January 1970 (from day number -1 on; the negative remainder before), and tm_yday is the days since the first of January, but one less in the year -4800. Calendar.UtcRange says up to which second 32-bit int suffices. |
| Calendar.UtcRange | 7.高性能组件/7. 异步日志方案/log-src-20221008/log-src-20221008/muduo_log/TimeZone.cc:325-343 | Neither cast loses anything and no int on the way overflows, exactly up to the last second of the last day that can be decoded. |
| Calendar.SinceNewYear | 7.高性能组件/7. 异步日志方案/log-src-20221008/log-src-20221008/muduo_log/TimeZone.cc:342-343 | The distance of a month from the first of January is the length of the months between, but one less in the year -4800, whose January has a negative shifted year. |
| Calendar.YearDay | 7.高性能组件/7. 异步日志方案/log-src-20221008/log-src-20221008/muduo_log/TimeZone.cc:339-344 | The same for any date. |
| Calendar.InSeconds | 7.高性能组件/7. 异步日志方案/log-src-20221008/log-src-20221008/muduo_log/TimeZone.cc:348-361 | The seconds of a time are days from the epoch and seconds of the day. |
| Calendar.Stamped | 7.高性能组件/7. 异步日志方案/log-src-20221008/log-src-20221008/muduo_log/TimeZone.cc:320-361 | From the day number and the second of the day back to the second. |
| Calendar.OneSecondOneTime | 7.高性能组件/7. 异步日志方案/log-src-20221008/log-src-20221008/muduo_log/TimeZone.cc:348-361 | Two valid times have the same second if and only if they have the same date and time of day. |
| Calendar.SecondZero | 7.高性能组件/7. 异步日志方案/log-src-20221008/log-src-20221008/muduo_log/TimeZone.cc:320-361 | Second 0 has the fields of midnight, 1 January 1970, with the offsets of struct tm. |

## Left out

- btree_delete_key as a whole (`btree.c:229-283`, 348): replacing a key by the child's own last or first key is right only above leaves, and the merge case goes on with a node that a collapse of the root has freed.
- BTree.BTree.Refill: covers the steps before the descent (`btree.c:285-346`); `node->key` at line 330 is read as `node->keys`, and keys left behind in slots that are no longer counted are not part of the contents.
- BTree.BTree.MergeChildren: where the write at line 220 would fall outside the array the model drops it and reports it as `fits == false`.
- NgxRbTree.Tree.Delete: the parent field of the root may be left dangling by the code and is unconstrained; the tree's own code does not read it before it tests for the root.
- ngx_rbtree_insert_value (`rbtree.c:96-118`): the same descent with a plain comparison.
- MinHeap.MinHeap.Push: the count of entries is unbounded (`MinHeap.IndicesFit` says up to which count the 32-bit indices do not wrap); whether realloc succeeds is a parameter.
- SkipList.SkipList.DeleteHead: the code does not free the removed node, so the model keeps its score; random levels are a parameter.
- Node identity in the trees and the skip list: nodes are numbers in a memory and fresh numbers are never reused, so reuse of freed memory by malloc is not modelled.
- TimeWheel.Wheel.LinkClear, TimeWheel.Wheel.Link: a slot's linked list is a sequence; head and tail pointers are not modelled.
- TimerRuns.Run: a new node's cancel flag counts as clear, though `add_timer` leaves it unset, and `del_timer` on a node that has been freed does nothing; the calls that a callback run at once makes come with the call, as a finite tree, so that one which never stops adding timers of delay zero is not modelled; `TimerRuns.ListInTurn` gives the order within the list of a tick, and nothing is said about that list's own order; the lock is held or released as the code does, and calls come between updates or inside callbacks.
- TryCatch.Thread.Execute: a Try is named by its place in the code, so one that is entered again from inside itself by recursion is not modelled, nor are loops; neither are message texts, file names and line numbers.
- AsyncLogging.AsyncLogging.Run: buffers are texts, so which buffer object is reused is not followed; the buffer object with its array is modelled on its own in `LogStream.FixedBuffer`. After `stop()` the back end may end with a pending log unwritten: the contract says what is in the file and what is pending.
- LogStream.FixedBuffer: floating-point formatting, `formatSI` and `formatIEC`.
- DeadlockGraph.TaskGraph.AddVertex: asks for room in the vertex array of 100, which the code does not check.
- DeadlockGraph.TaskGraph.AddEdge: asks for the same room, for the vertices that are new.
- The lock hooks `lock_before`, `lock_after` and `unlock_after` as a protocol.
- Calendar.ToUtcTime: in unbounded integers; the exact ranges in which 32-bit int and the casts make no difference are stated by `Calendar.UtcRange`, `Calendar.IntermediatesFit` and `Calendar.DatesFit`. Time-zone files and local time.
- Clocks, memory exhaustion other than in the heap, printing, locks and waiting as such.
- The expiry loops of `rbt-timer.h`, `mh-timer.h` and `skl-timer.c`: they compare deadlines with a plain greater-than.
- The unfinished trees of `1. Data_structure/rbtree.h` and `btree.h`, `tcp.c`, `mmpool.c`, the thread pools, log rolling, and the demonstrations of the other chapters.
