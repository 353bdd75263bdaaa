# Luvit's trees, resolver table and handle lifetimes

Luvit keeps its C side in `src/`. This project models the parts of it whose correctness rests on
invariants that no single function shows, and proves those invariants.

**The trees of `src/tree.h`.** Nodes are objects with the link fields of `RB_ENTRY` and `SPLAY_ENTRY`,
changed in place. A ghost tree over node identities says what the links hold, and a context (the way from
a subtree up to the root) says where an algorithm stands; `RedBlackLinks.At` and `SplayLinks.At` tie
both to the heap. On top of that: insertion and deletion with their colour repair, searching, iteration over
parent links, and top-down splaying with its two hanging trees. The public operations are proved against the
sorted sequence of the nodes, and whole runs of them against a plain set of keys (`OrderedSet`).

- `cmp` is any function that is a strict weak order; only the sign of its result is used. What `cmp` looks
  at in an element is its `key`, and lookups take the key rather than a dummy element that carries it.
- The macros spell out each mirror image. Here a pair is one operation with a `Side`:
  `Left` for lines 414-429, 458-490 and 219-228, `Right` for lines 430-446, 491-524 and 229-239.
- Large invariants are written `forall k :: Unfold(k) ==> ...` (see `Unfolding.dfy`). That is the invariant
  itself; the form only keeps the verifier from looking inside it where nothing in there matters.

**The resolver table of `src/luv_dns.c`.** `ResolverModel` is a state machine over (socket table, closing
watchers, timer) with theorems about all its runs. `Resolver` is the table as the source has it, on the
red-black tree above; every callback is proved to perform one step of the machine, and a sequence of inputs
the run that these inputs make. `ResolverLaws` follows single tasks and counts closes and frees. What c-ares and libuv may do is `ResolverModel.Legal`. Two asserts of the source can fail, and it is proved exactly when:

- line 73 (timer tick with an empty table): at some point of a run a tick would fail it if and only if the task
  of a first socket could not be created by then, because the timer is started (line 145) before the task is
  (line 148), and nothing stops it; the very next tick may be the one, unless a task is created before it;
- line 169 (closed socket without a task): if and only if a socket is closed that is not in the table, and c-ares
  closing a socket whose task could not be created is such a case;
- line 144 never fails, whether tasks can be created or not.

**Lifetimes and dispatch, `src/utils.c`, `src/luv_handle.c`, `src/luv_stream.c`.** `Lifetime` has the Lua
registry as slots tagged with their owner, and a stream handle with its requests, their completions (whose
callbacks may submit, read, stop and close in turn), and the close path. `LifetimeModel` says what the same
actions and deliveries make of a `Book` of references and requests, and every run of the handle is proved to
end in the book of its events. `LifetimeLaws` says what a book means: what each action and each bare delivery
changes, and that a callback is its actions performed one by one, its request released after them. `LifetimeLoop` has any number of handles on one registry. Two things differ from what one would
hope:

- The comment at `src/utils.h:62-68` says the creating coroutine's slot is released when the handle is closed.
  The code releases it the first time the reference count drops to zero (`src/utils.c:257-262`), so that a
  read that starts and stops on an otherwise idle handle already lets the coroutine go. The model follows the code.
- `luv_write` and `luv_shutdown` do not look at what `uv_write` and `uv_shutdown` answer. When libuv refuses a
  request, its reference and registry slots have been taken and nobody gives them back. So counts and
  slots come back to their base if and only if nothing was refused, and even closing the handle leaves
  the slots of refused requests behind.

`LuaStack` is `luv_emit_event` and `luv_acall` as stack arithmetic.

Each module stands in the file of its name. `dafny verify dfyconfig.toml` checks the whole project.

## Model

| member | source | states |
|---|---|---|
| `Ordering.RankCuts` | src/tree.h:634-642 | in a strictly increasing sequence the rank of a key separates the keys below it from all others |
| `RedBlackTheory.HeightBound` | src/tree.h:53-61 | a red-black tree of height h with n elements has 2^h <= (n+1)^2, the header's 2lg(n+1) |
| `RedBlackTheory.BlackHeightBounds` | src/tree.h:53-58 | equal black counts and no red-red pair force 2^blackheight <= n+1 and height <= 2 * blackheight (+ 1 under a red root) |
| `RedBlackTheory.RBHeightUnique` | src/tree.h:55-56 | a tree has only one black height |
| `RedBlackTheory.DepthHeight` | src/tree.h:60-61 | no place in a tree lies deeper than the tree is high, which bounds every walk up |
| `RedBlackTheory.InorderOnce` | src/tree.h:312-318 | a linked tree of distinct nodes lists every node exactly once |
| `RedBlackTheory.InorderSize` | src/tree.h:312-318 | the in-order sequence is as long as the node set is large |
| `RedBlackTheory.RotatedInorder` | src/tree.h:342-380 | a rotation keeps the in-order sequence and the node set |
| `RedBlackTheory.PlugFits` | src/tree.h:53-58 | filling a hole that fits with a subtree of the right black height gives a red-black tree |
| `RedBlackTheory.FitsOf` | src/tree.h:53-58 | conversely, at every node of a red-black tree subtree and hole fit with one common black height |
| `RedBlackTheory.LeftmostFacts` | src/tree.h:541-544 | the node reached by walking left is the first in order, and splicing it out removes it and nothing else |
| `RedBlackLinks.RotateLinks` | src/tree.h:342-380 | all link fields of the rotated nodes, the inner subtree's root and the parent after the pointer moves, including the root pointer |
| `RedBlackLinks.Rotate` | src/tree.h:342-380 | the pointer moves turn links holding a tree into links holding the rotated tree, parent links included, the rest of the whole tree untouched |
| `RedBlackLinks.SetBlackRed` | src/tree.h:333-336 | the two colours change and nothing else does |
| `RedBlackInsert.RedRedFacts` | src/tree.h:411-415 | a red-red pair always has a black grandparent |
| `RedBlackInsert.FlippedFacts` | src/tree.h:416-421 | with a red uncle, swapping colours leaves the one possible violation two levels higher and keeps the order |
| `RedBlackInsert.RaisedFacts` | src/tree.h:428-429 | with a black uncle, painting and rotating the grandparent ends the violation with all black heights as before |
| `RedBlackInsert.RotatePair` | src/tree.h:422-429 | both rotation cases: afterwards no violation is left, order and nodes are kept |
| `RedBlackInsert.InsertColor` | src/tree.h:407-449 | the repair loop ends after no more iterations than the new node lies deep, always finds the grandparent it needs, and leaves a red-black tree with the same in-order sequence |
| `RedBlackTable.FoundMeans` | src/tree.h:628-644 | Found is the one element with an equal key, null exactly if there is none |
| `RedBlackTable.NextFoundMeans` | src/tree.h:646-665 | NextFound is the least element not below the key, null exactly if all are below |
| `RedBlackTable.Find` | src/tree.h:628-644 | answers Found, visiting s nodes with 2^s <= (n+1)^2, and leaves the tree valid |
| `RedBlackTable.NFind` | src/tree.h:646-665 | answers NextFound, visiting s nodes with 2^s <= (n+1)^2 |
| `RedBlackTable.MinMax` | src/tree.h:711-724 | answers the first or the last element of the sequence, null for the empty tree; 2^s <= (n+1)^2 for the s nodes visited |
| `RedBlackTable.Attach` | src/tree.h:615-623 | where the search ended, the new node hangs red and childless, everything else as before |
| `RedBlackTable.Insert` | src/tree.h:597-626 | an element with an equal key, possibly the argument itself, is returned and no link or colour changes; otherwise the sequence gains exactly the new element at its place; valid afterwards; 2^s <= (n+1)^2 for the s nodes visited, and no more iterations of the repair than that |
| `RedBlackTable.InsertedSorted` | src/tree.h:605-620 | hanging the new node where the search ended puts it in front of the first larger key, and the sequence stays strictly increasing |
| `RedBlackRemove.SiblingFacts` | src/tree.h:458-464 | while a path is one black node short the sibling is never NULL, and a red one has two children and a black parent |
| `RedBlackRemove.LoweredFacts` | src/tree.h:460-464 | the red-sibling rotation keeps "one short, all else in order", goes one level deeper, and leaves a red parent with a black sibling |
| `RedBlackRemove.PassedUp` | src/tree.h:465-471 | with black nephews, painting the sibling red makes the parent's tree the one that is short |
| `RedBlackRemove.RestoredFacts` | src/tree.h:483-487 | with a red far nephew, recolouring and one rotation give every path its black node back |
| `RedBlackRemove.StraightenSibling` | src/tree.h:473-482 | with only the near nephew red, that nephew becomes the black sibling with a red far child |
| `RedBlackRemove.MoveShortage` | src/tree.h:456-525 | the repair loop ends although the red-sibling case moves down, after no more iterations than the hole lies deep; it keeps the invariant and stops at the root or at a red node |
| `RedBlackRemove.RemoveColor` | src/tree.h:451-528 | afterwards the tree is red-black, with the same in-order sequence and nodes |
| `RedBlackRemove.SuccessorContents` | src/tree.h:540-570 | with the successor in the removed node's place, exactly the removed node is gone |
| `RedBlackRemove.SuccessorFacts` | src/tree.h:544-558 | what is short afterwards is the successor's old place, and which node is its parent when the successor was adjacent |
| `RedBlackRemove.TakeOver` | src/tree.h:559-570 | the successor takes over links and colour of the removed node, no key moves |
| `RedBlackRemove.Remove` | src/tree.h:530-595 | for any node of a valid tree: valid afterwards, the sequence is the old one without exactly that node, which is returned; walk and repair take at most 2h steps, where 2^h <= (n+1)^2 |
| `RedBlackIterate.Step` | src/tree.h:667-709 | RB_NEXT and RB_PREV answer the neighbour in the in-order sequence, by links alone; 2^s <= (n+1)^2 for the s links followed |
| `RedBlackIterate.ThereAndBack` | src/tree.h:667-709 | the step one way meets the neighbour there, and the step back from it meets the start |
| `RedBlackIterate.ForEach` | src/tree.h:738-756 | the forward loop visits the sequence, the reverse loop its mirror image; both end |
| `RedBlackIterate.ForEachSafe` | src/tree.h:748-751 | whatever subset the body removes: every original element is visited once, in order, and exactly the removed ones are gone |
| `RedBlackIterate.KeptIn` | src/tree.h:748-751 | what is left is exactly what was there and not removed |
| `RedBlackIterate.RemoveEach` | src/tree.h:748-751 | removing every element in the loop visits all of them and empties the tree |
| `RedBlackRuns.FindAnswer` | src/tree.h:628-665 | on the set of keys, the answers of find and nfind are the member with an equal key and the least member not below the key |
| `RedBlackRuns.RemoveAnswer` | src/tree.h:530-595 | taking one element out of the sequence takes exactly its key out of the set |
| `RedBlackRuns.Run` | src/tree.h:530-665 | any run of insert, remove, find and nfind from any valid tree is a run of the plain ordered set, from a set without equal members, so that its answers are the only ones |
| `RedBlackRuns.RunFromEmpty` | src/tree.h:306-308 | and so is any run from RB_INIT, starting with the empty set |
| `OrderedSet.OneAnswer` | src/tree.h:128-207 | the ordered set leaves no choice: a red-black tree and a splay tree given the same insertions, removals and lookups answer the same |
| `OrderedSet.Membership` | src/tree.h:530-665 | for every key: it is found after an insertion if and only if it was before or equals the new one, after a removal if and only if it was before and does not equal the removed one; the answer is whether the key was there, and the size changes by one exactly then |
| `OrderedSet.SortedUnequal` | src/tree.h:605-614 | a strictly increasing sequence has no two equal members, which is what makes runs determined |
| `OrderedSet.RunsAgree` | src/tree.h:597-665 | a run of the ordered set is determined by its first state and its operations, so that no other answers would do |
| `SplayTheory.RotatedFacts` | src/tree.h:88-98 | rotating keeps sequence, nodes and size |
| `SplayTheory.LinkTotal` | src/tree.h:100-110 | linking the root to a hanging tree keeps the sequence of left tree, middle tree and right tree |
| `SplayTheory.AssembledFacts` | src/tree.h:112-117 | assembling gives one tree with that sequence, the middle root on top and the rest on its two sides |
| `SplayLinks.Rotate` | src/tree.h:88-98 | the pointer moves perform the rotation, the hanging trees untouched |
| `SplayLinks.Link` | src/tree.h:100-110 | the pointer moves hang the root at the open end of the left or right tree |
| `SplayLinks.Assemble` | src/tree.h:112-117 | the pointer moves assemble the three trees, also when one or both hanging trees are empty |
| `SplayTree.LinkBounds` | src/tree.h:218-239 | what is linked left is below the sought key, what is linked right above it |
| `SplayTree.Splay` | src/tree.h:209-242 | ends, keeps sequence and nodes, and leaves everything left of the root below the key and everything right of it above |
| `SplayTree.SplayedRoot` | src/tree.h:160-162 | so the root is the sought key, or else the next one above or the next one below it in the sequence |
| `SplayTree.SplayedLookup` | src/tree.h:128-137 | one comparison at the root decides whether the key is in the tree at all |
| `SplayTree.Find` | src/tree.h:128-137 | answers the element with an equal key, then at the root, or null exactly if there is none; the sequence stays |
| `SplayTree.CutBefore` | src/tree.h:173-177 | after splaying at an absent key below the root's, the new element belongs right before the root |
| `SplayTree.CutBehind` | src/tree.h:177-181 | and above the root's, right behind it |
| `SplayTree.Insert` | src/tree.h:164-186 | an equal element is returned and the sequence stays; otherwise the sequence gains exactly the new element at its place |
| `SplayTree.NoneAbove` | src/tree.h:199-202 | splaying the left part again leaves its root without a right child, so that hanging the right part there loses nothing |
| `SplayTree.Remove` | src/tree.h:188-207 | the element with an equal key, if any, is taken out and nothing else; the answer is the argument, not the element taken out |
| `SplayTree.Next` | src/tree.h:139-151 | answers the next element of the sequence, keeping the sequence while the tree changes shape |
| `SplayRuns.SplayMinMax` | src/tree.h:244-278 | brings the least or the greatest element to the root, keeping the sequence |
| `SplayRuns.MinMax` | src/tree.h:287-290 | answers the first or last element, null for the empty tree |
| `SplayRuns.ForEach` | src/tree.h:292-295 | visits the sequence, each element once, and ends although every step restructures the tree |
| `SplayRuns.Run` | src/tree.h:128-207 | any run of insert, remove and find from any valid splay tree is a run of the plain ordered set, from a set without equal members |
| `SplayRuns.RunFromEmpty` | src/tree.h:72-74 | and so is any run from SPLAY_INIT |
| `Resolver.CompareSocketsOrders` | src/luv_dns.c:59-64 | the comparison of sockets is a strict weak order under which only equal sockets are equal |
| `Resolver.Resolver.SockState` | src/luv_dns.c:126-180 | on the tree, the callback performs one step of the state machine, or fails the assert on line 169 and has changed nothing |
| `Resolver.Resolver.Open` | src/luv_dns.c:138-164 | afterwards the timer is on and the socket polled for the new mask, by its old task or a new one, or nothing is entered if none could be created; nothing starts closing or is freed; the assert on line 144 holds |
| `Resolver.Resolver.Close` | src/luv_dns.c:165-179 | fails if and only if the socket is not in the table; else its task, still allocated, moves from the table to the closing watchers, nothing is freed, and the timer runs exactly if the table is not empty |
| `Resolver.Resolver.InsertTask` | src/luv_dns.c:103-123 | the table gains exactly one entry, for a newly allocated task |
| `Resolver.Resolver.Poll` | src/luv_dns.c:78-95 | keeps the state, the timer being active in any case |
| `Resolver.Resolver.Timeout` | src/luv_dns.c:70-75 | fails exactly if the table is empty |
| `Resolver.Resolver.PollClosed` | src/luv_dns.c:98-101 | frees one closing task, once; table and timer stay |
| `Resolver.Drive` | src/luv_dns.c:70-180 | whatever arrives in whatever order, what the resolver does is the legal run of the state machine that consists of these inputs, one event each unless it cannot happen, ending in the state reached or in the first assert that fails |
| `Resolver.Deliver` | src/luv_dns.c:70-180 | one input performs the one event it amounts to, or none if it cannot happen |
| `Resolver.DriveFromInit` | src/luv_dns.c:70-180 | the inputs alone decide which sockets are in the table, what they are polled for, whether the timer is on, how many tasks are closing and freed, and at which line the program stops, if it does; each reported close is closing or freed, and all callbacks free one if and only if each comes after its close; when tasks can be created, it stops at line 169 if and only if c-ares closes a socket it does not have open, and otherwise the table is the current interest and the timer exact |
| `ResolverModel.StepInv` | src/luv_dns.c:126-180 | every step keeps "table not empty implies timer active" and the account of tasks; which assert fails exactly when |
| `ResolverModel.RunInv` | src/luv_dns.c:142-146 | in no run whatever does the assert on line 144 fail |
| `ResolverModel.TimerExactness` | src/luv_dns.c:142-155 | the timer is active exactly while the table is non-empty throughout a run, if and only if no creation of a task fails while the table is empty |
| `ResolverModel.TimeoutAssert` | src/luv_dns.c:72-75 | a tick of the timer fails the assert if and only if the timer is not exact |
| `ResolverModel.TickExactness` | src/luv_dns.c:72-75 | at some point of a run a tick would fail the assert if and only if a first task could not be created in it |
| `ResolverModel.TimeoutStops` | src/luv_dns.c:72-75 | a run that fails it has had such a failure |
| `ResolverModel.FirstTaskFailsStops` | src/luv_dns.c:142-154 | after any such failure the timer may tick next, and that fails it |
| `ResolverModel.FirstTaskFailsWitness` | src/luv_dns.c:142-154 | a run of two events that fails it |
| `ResolverModel.InterestExactness` | src/luv_dns.c:134-179 | the table holds exactly the sockets of interest, with the masks last reported, throughout a run, if and only if no creation of a task fails in it |
| `ResolverModel.NoAssertFires` | src/luv_dns.c:72-180 | without failing creations no assert fires in any run in which c-ares closes only what it opened |
| `ResolverModel.TaskFailsStops` | src/luv_dns.c:149-170 | after a failed creation, closing that socket stops the program |
| `ResolverModel.FollowsReactions` | src/luv_dns.c:127-180 | a run made of inputs shows what a state machine without task identities makes of them: masks, timer, how many tasks are closing and freed, and which assert fails when |
| `ResolverModel.ReactionsInterest` | src/luv_dns.c:127-180 | when tasks can be created, the masks are the latest interest with an exact timer, or line 169 has failed, if and only if a socket is closed that is not open |
| `ResolverLaws.TaskLaw` | src/luv_dns.c:98-180 | one event takes a task from malloc to the table, from the table to the closing watchers, or from there to free, and leaves every other task where it is; only the callback of a closed watcher frees |
| `ResolverLaws.RunFrees` | src/luv_dns.c:98-101 | a run frees once for each such callback in it |
| `ResolverLaws.KeptUntilClosed` | src/luv_dns.c:98-179 | in no run is a task freed before the callback for its own watcher, and once closing it stays so until then |
| `ResolverLaws.ClosingUntilClosed` | src/luv_dns.c:165-179 | the task of a socket reported closed is closing from then on until that callback |
| `ResolverLaws.ReactionsClosing` | src/luv_dns.c:98-179 | closing and freed tasks at the end add up to the closes reported; frees never outnumber the callbacks, and match them if and only if each comes after its close |
| `Lifetime.Registry.Ref` | src/utils.c:189-207 | luaL_ref hands out a slot not in use, whether from the free list or new |
| `Lifetime.Registry.Unref` | src/utils.c:142-147 | luaL_unref gives back a slot that must be in use; no slot is lost or released twice |
| `Lifetime.Stream.constructor` | src/utils.c:183-213 | a new handle is weak and holds a slot only for the coroutine it was created in, whatever else is in the registry |
| `Lifetime.Stream.HandleRef` | src/utils.c:241-250 | the first reference takes the userdata slot, any other only counts |
| `Lifetime.Stream.HandleUnref` | src/utils.c:253-266 | the last reference gives back userdata and coroutine slot, any other only counts; its assert holds |
| `Lifetime.Stream.GetLua` | src/utils.c:270-276 | with a positive count, which every callback of a live request or read establishes, the second assert holds too, and the handle's slot keeps its own userdata, which is pushed |
| `Lifetime.Stream.IoCtxUnref` | src/utils.c:142-147 | exactly the request's two slots leave the registry |
| `Lifetime.Stream.Submit` | src/luv_stream.c:126-232 | an accepted write or shutdown takes one reference, a data slot (write) and a callback slot (if there is one) |
| `Lifetime.Stream.SubmitInVain` | src/luv_stream.c:126-232 | a refused one takes the same and never gives it back; it loses slots exactly if it had any |
| `Lifetime.Stream.AfterRequest` | src/luv_stream.c:72-124 | the completed request is gone: its slots before the callback runs, its reference as the last step of all; the callback closes the handle exactly if the request had one and the script closes; unless the count ends at zero, userdata and coroutine slots are untouched |
| `Lifetime.Stream.DoReadStop` | src/luv_stream.c:188-193 | one read-start less and one reference dropped, with all that follows if it was the last |
| `Lifetime.Stream.DoClose` | src/luv_handle.c:84-94 | afterwards the handle is closing; the first close takes one reference, any other changes nothing at all; reads and requests stay |
| `Lifetime.Stream.Do` | src/luv_stream.c:126-232 | an action sets closing exactly if it is a close, adds one request with the slots asked for exactly if it is an accepted write or shutdown, and moves the read-starts exactly if it starts or stops reading |
| `Lifetime.Stream.CallBack` | src/luv_stream.c:76-116 | a request's callback, if it has one, performs its actions while the request still counts: the count stays positive, so the userdata and coroutine slots stay as they were |
| `Lifetime.Stream.OnClose` | src/luv_handle.c:61-82 | whatever the count, the handle ends without userdata or coroutine slot and with count zero; no assert fails |
| `Lifetime.Stream.Accounts` | src/utils.c:98-147 | what belongs to the handle in the registry is exactly its own slots, those of incomplete requests and those of refused ones |
| `Lifetime.Stream.Baseline` | src/luv_stream.c:72-142 | while the handle is open: once every request has completed and reading has stopped, count, userdata slot and registry are back at their base, each if and only if libuv has refused nothing |
| `Lifetime.Stream.AfterClose` | src/luv_handle.c:61-82 | after the close only slots of refused requests are left of the handle, and none if and only if no refused request held one |
| `Lifetime.Stream.CoroutineHeld` | src/utils.c:253-266 | while the handle is open, the coroutine's slot is held if and only if the count has not come back to zero so far |
| `Lifetime.Stream.RunScript` | src/luv_stream.c:126-232 | any sequence of actions inside a callback leads to the book of those actions, and to closing exactly if it contains a close; while a request is incomplete, userdata and coroutine slots stay |
| `Lifetime.Stream.Deliver` | src/luv_stream.c:72-124 | each completion, read and close callback leads to the book of that delivery |
| `Lifetime.Stream.Run` | src/luv_stream.c:72-232 | every interleaving of actions, completions, reads and the close, with nested actions in callbacks, fails no assert, ends with the references, incomplete requests and refusals that the events make, and leaves what belongs to others in the registry alone |
| `Lifetime.Life` | src/luv_handle.c:61-94 | from creation: the count is the one the events make; the handle is closing if and only if a close was performed, and has ended, without count and slots, if and only if the close callback came; then the registry is what it was before if and only if libuv has refused no write and no shutdown with a callback along the way |
| `Lifetime.Stream.Undisturbed` | src/utils.c:241-266 | whatever happens in the registry to slots that do not belong to the handle, the handle stays in order |
| `Lifetime.OwnApart` | src/utils.c:241-266 | what one handle changes in the registry is no part of another's |
| `LifetimeLoop.MainLoop` | src/luv_stream.c:72-232 | any number of handles on one registry, in any interleaving with each other and with others that ref and unref: each ends as its own events alone would have it, and nothing of a closed one is left if and only if libuv has refused it no request that held a slot |
| `LifetimeLoop.Alone` | src/luv_stream.c:72-232 | the books of interleaved handles, one by one, are those of each handle's own events |
| `LifetimeLoop.DeliveredTo` | src/luv_stream.c:72-232 | the events of a handle are those delivered to it after it was created, in order, and no others |
| `LifetimeModel.RunRefusals` | src/luv_stream.c:126-232 | the account of refused requests grows in a run if and only if libuv refuses one in it, and slots are lost if and only if it refuses a write, or a shutdown with a callback |
| `LifetimeModel.ReadRoundTrip` | src/luv_stream.c:177-193 | starting and stopping a read leaves everything as it was, except that an idle handle has now come back to zero |
| `LifetimeModel.RequestRoundTrip` | src/luv_stream.c:72-142 | so does an accepted request that completes |
| `LifetimeModel.RefusalRemains` | src/luv_stream.c:210-232 | a refused request leaves one reference behind, and slots unless it is a shutdown without callback |
| `LifetimeLaws.AcceptedLaw` | src/luv_stream.c:126-232 | an accepted write adds one request with data and, if given, a callback, a shutdown only the latter, and one reference; nothing else changes |
| `LifetimeLaws.ClosingAcceptsNothing` | src/luv_stream.c:126-232 | libuv accepts no write or shutdown on a closing handle: the book knows no such step |
| `LifetimeLaws.ReadStartLaw` | src/luv_stream.c:177-182 | one read-start and one reference more, nothing else |
| `LifetimeLaws.ReadStopLaw` | src/luv_stream.c:188-193 | one read-start and one reference less, nothing else |
| `LifetimeLaws.CloseLaw` | src/luv_handle.c:84-94 | after a close the handle is closing, with one reference more the first time; nothing else changes |
| `LifetimeLaws.CompletionLaw` | src/luv_stream.c:118-123 | a completion without callback takes away its request and one reference and nothing else |
| `LifetimeLaws.CompletionMeans` | src/luv_stream.c:72-124 | a completion whose request has a callback is the actions of the callback one by one, whatever they are, and then the completion without one |
| `LifetimeLaws.CompletionSilent` | src/luv_stream.c:107-123 | without a callback nothing is performed |
| `LifetimeLaws.StillCounts` | src/luv_stream.c:107-123 | while a callback runs its request stays among those counted, and that its slots are released already changes nothing for the actions |
| `LifetimeLaws.ReadMeans` | src/luv_stream.c:34-55 | a read callback is its actions one by one |
| `LifetimeLaws.ClosedMeans` | src/luv_handle.c:61-82 | a close callback is its actions one by one, and then the end of the handle |
| `LifetimeLaws.ClosedLaw` | src/luv_handle.c:61-82 | a close callback without actions ends the handle with nothing counted, however many reads had been left started |
| `LifetimeLaws.DeadLaw` | src/luv_handle.c:72-81 | nothing happens to a handle that has ended |
| `LifetimeLaws.ClosingLaw` | src/luv_handle.c:61-94 | after any events the handle is closing if and only if a close was among the actions performed, and has ended if and only if a close callback came while it was closing with no request incomplete |
| `LifetimeModel.CoroutineKeptWhile` | src/utils.c:253-266 | after any steps, no drop has reached zero if and only if the count has stayed positive since the first |
| `Lifetime.CoroutineReleasedEarly` | src/utils.h:62-68 | a handle created in a coroutine, after one read that starts and stops and nothing else: open, not closing, and the coroutine's slot released |
| `LifetimeModel.CountedTake` | src/utils.c:241-250 | taking a reference keeps count, userdata slot, coroutine's slot and steps in their relation to the book |
| `LifetimeModel.CountedDrop` | src/utils.c:253-266 | so does dropping one: the userdata slot goes with the last, and the coroutine's with it |
| `LuaStack.ACall` | src/utils.c:27-51 | on the main thread and from a coroutine alike, eventSource is called with source, function and arguments in order; both stacks are left without them |
| `LuaStack.FetchHandler` | src/luv_handle.c:34-41 | the userdata under the arguments gives way to what its environment holds under the event's own name, on top of them, or nil |
| `LuaStack.EmitEvent` | src/luv_handle.c:34-52 | for any number of arguments: exactly userdata and arguments leave the stack; there is one call, of eventSource with name, handler and arguments, if and only if the environment holds a function under that name |

## Left out

- RB_AUGMENT, which does nothing by default, and the two `_FROM` loops and RB_FOREACH_REVERSE_SAFE, which start or run the loops above elsewhere.
- The amortised bound of the splay tree (`src/tree.h:49-51`).
- Any width of `int`: `cmp` gives an unbounded integer of which only the sign is used, and `refCount` does not overflow.
- SplayRuns.SplayMinMax: does not cover an argument of 0, for which the loop of the source would not end; the source calls it with -1 and 1 only (`src/tree.h:280-290`).
- SplayTree.Next: is stated for an element that is in the tree, as in SPLAY_FOREACH.
- ResolverModel.Legal: c-ares may call back in any order with any sockets, but malloc hands out memory that is not in use, closed watchers do not poll, a stopped timer does not fire, and each close is called back once. A call of c-ares from inside a callback arrives as the next event.
- Resolver.Resolver.StartPoll: `uv_poll_start` is taken to succeed, as `src/luv_dns.c:159-160` assumes.
- The DNS reply callbacks, getaddrinfo and address checks of `src/luv_dns.c`.
- Lifetime.Registry.Ref: which slot luaL_ref picks is modelled only as a free list that is used before a new slot.
- Lifetime.Stream.Run: an accepted request completes once and before the close callback, a refused one never; completions and callbacks that cannot happen are passed over. Two kinds of action are passed over although Lua code could try them: a read-stop without its read-start, which is outside the protocol, and any action on a handle whose close callback has run, where the source uses the null `lhandle->handle`.
- Lifetime.Stream.IoCtxAdd: one value per request, which is what writes store; the data table's contents are not modelled.
- Error objects and messages, connect, listen and accept, the pushing of buffers in `luv_on_read`, the garbage-collection finaliser of `src/luv.c`, metatables.
- LuaStack.ACall: what Lua code returns is given by the environment, an error it raises past eventSource is not modelled.
- Timers, UDP, pipes, processes, TTYs and file system watchers, which use the same reference counting, and the TLS, JSON, HTTP and zlib bindings.
