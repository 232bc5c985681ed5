# A Dafny model of the Mach IPC capability system

This project models the capability system of the kernel's `ipc/` directory in Dafny and proves what its comments
promise. A task's *space* maps port names to *rights*; ports queue messages; messages carry rights from space to
space; ports die, and everyone who holds a name must come to see it. The five parts, each built on the one before:

1. **The unassembled splay tree** (`SplayShape`, `SplayPrim`, `SplayTraverse`, `SplayTree`). Heap nodes with child
   pointers. Top-down splaying cuts a tree into a left spine with a hole, a middle and a right spine with a hole;
   the tree stays cut between calls, with the last name looked up cached. Traversal inverts the pointers on the
   path to the current entry and may delete that entry.
2. **The name space** (`SpaceView`, `NameCycles`, `SpaceGrow`, `EntryTable`, `EntryTree`, `GrowTable`, `TableSizes`, `Space`,
   `ReverseHash`, `GlobalHash`, `ReverseTables`, `IpcSpace`). An array with a free list threaded through it, an
   overflow tree, collision bits and counters together denote one map from names to rights (`View.RightOf`).
   Every operation on the objects is proved to change the view, and through it the map, as it should; where the code
   drops the space lock, other threads act on the space (`IpcSpace.Meanwhile`). The reverse hash, half of it linear
   probing in the same table and half global buckets, is the inverse of that map on pure send rights.
3. **Message queues and port sets** (`Mqueue`, `MessageQueues`, `MessageRuns`, `LinkedQueue`). The classes in
   `MessageQueues` follow the code; `Mqueue` gives each operation as a function on values, and `MessageRuns` is
   the transition system of all of them, one action for each region under the port or queue lock.
4. **Rights and port lifetime** (`Rights`, `References`, `RightOps`, `RightsWorld`, `WorldSteps`, `RequestTables`,
   `Circular`, `CircularRuns`). `RightOps` works on the packed bits of an entry and the counts of its port; `Rights`
   gives each operation's effect on values, and `References` says what that means: which references go and which
   rights come; `RightsWorld` puts all spaces and ports together and follows every run, and `WorldSteps` says what
   each step of it does. `RequestTables` is a port's table of dead-name requests; `CircularRuns` interleaves the
   check for circular messages with other threads.
5. **Message headers** (`Header`, `HeaderNames`, `FastHeader`). Copyin and copyout of two ports against the deaths of
   both, the two names' entries in the space, and the optimized cases against the general path.

A predicate named `Valid`, `Sound` or `Growing` is an invariant wrapped in a quantifier over an always-true marker
(`InsideTree`, `InsideSpace`, ...). It is equivalent to the invariant it wraps; a lemma named `Look` unwraps it.
Keeping it wrapped keeps the proofs of callers small.

## What turned out not to hold

- **A hidden name.** Slot 0 of the table heads the free list and carries generation 255, so `ipc_entry_lookup`
  never finds the name with index 0 and that generation, though `ipc_entry_alloc_name` will put it into the tree
  (`SpaceView.HiddenIsLost`). For every other name the lookup is exact (`SpaceView.LookupExact`).
- **A lost wakeup.** A woken sender whose message is circular destroys it and returns without taking the place in
  the queue it was woken for, and nobody wakes the next sender. `MessageRuns.LostWakeup` is a run that ends
  with a sender blocked on an empty queue; `MessageRuns.NextRoused` says that this step, and no other, loses a wakeup.
- **A shortage with room.** When `ipc_entry_grow_table` has grown the table and finds that growing again would save
  memory, it asks for memory again, and if refused reports a shortage, though the slots it has just made are free
  (`IpcSpaces.ShortWithRoom`). `IpcSpaces.IpcSpace.Alloc` and `IpcSpaces.IpcSpace.AllocName` say that a shortage has
  no other cause than a refused request, and that a thread alone is left with room only in this case.
- **Sizes round the word.** The room for a message is the receive buffer less the trailer, in an unsigned word. A
  buffer smaller than the trailer therefore counts as almost a whole word (`Mqueue.TrailerWraps`).
  `Mqueue.SuccessFits`: success means that message and trailer fit, exactly when the trailer does or the message is
  that large.
- **A leaked send right and a stale request.** Giving up a receive right with `ipc_right_delta` turns a send right in
  the same entry into a dead name without decrementing `ip_srights` or cancelling the entry's dead-name request,
  because the port is about to be destroyed. With a port-destroyed backup registered it is not destroyed.
  `RightsWorld.GivenUpConserves`: send rights are conserved exactly when the entry has no send right, or the port no
  backup that takes the receive right. `RightsWorld.GivenUpRequests`: in the same case a request of the entry stays
  registered with the living port under a name that is already dead. `RightsWorld.LeakHappens` is a world with both.
- **Timestamps round the word.** `IP_TIMESTAMP_ORDER` is the order of two deaths only when they are fewer than 2^31
  apart (`Headers.StampsExact`). `Headers.CopyinSerializes` and `Headers.CopyoutSerializes` say exactly when a
  misjudged comparison breaks the atomicity of a header.
- **A no-senders notification lost on copyout.** When the reply port and then the destination die between the two
  looks of the header copyout, the destination's name is given as if it had been alive at the first look, but its
  last send right goes with the dead port: the no-senders request is not answered as for a live one. The names on
  copyout are still those of one instant (`Headers.NamesExact`), the outcome as a whole is not
  (`Headers.NoSendersLost`); `Headers.CopyoutSerializes` says exactly when it is.
- **A pointer to an entry that moves.** The header copyin gives the reply's entry back and then looks at the
  destination's through the pointer it has. If the reply is in the table and the destination in the tree under the
  same index, the destination's entry may have moved into the slot and its node be gone (`HeaderNames.PointerLost`).
  `HeaderNames.SecondLookSafe`: the pointer is good exactly in all other cases, so always for names of different index.
- **Two names of one port.** The copyin of a header is not atomic when both names denote the same port and it dies
  between the two copyins (`Headers.OnePortMisjudged`). The comment at ipc/ipc_kmsg.c:1560-1561 allows for this case
  but the comparison of equal timestamps does not detect it. The copyout handles it.

## Model

| member | source | states |
|---|---|---|
| `MachPort.OrderOfNames` | ipc/port.h:86-102 | names are ordered first by index, then by generation, as the splay tree assumes |
| `MachPort.MakeOfParts` | ipc/port.h:100-102 | a name is made of its index and generation and nothing else |
| `SplayPrim.PrimLookup` | ipc/ipc_splay.c:179-270 | the descent ends; left spine, middle and right spine hold the tree's entries in the same order; the middle's root is the sought name or a neighbour with no child on the sought side; everything left is below the name and everything right above it |
| `SplayPrim.DescendLeft` | ipc/ipc_splay.c:226-247 | one turn of the loop to the left rewrites the three parts on the heap exactly as the pure `DescendedLeft`, with its zig-zig, zig-zag and zig cases, keeping the entries in order and the parts around the name |
| `SplayPrim.DescendRight` | ipc/ipc_splay.c:248-260 | the mirror image to the right |
| `SplayPrim.PrimAssemble` | ipc/ipc_splay.c:282-297 | the holes are filled and the parts hung under the middle: the pointers represent the assembled tree |
| `SplayPrim.AssembledOrder` | ipc/ipc_splay.c:282-297 | the assembled tree has the entries of left, middle and right in order |
| `SplayPrim.BstAssembled` | ipc/ipc_splay.c:282-297 | and is a search tree again |
| `SplayTrees.SplayTree.Lookup` | ipc/ipc_splay.c:347-376 | returns the entry of the name exactly when there is one, whether the cached name matches or the tree is splayed; the entries stay |
| `SplayTrees.SplayTree.Insert` | ipc/ipc_splay.c:386-437 | the entries gain the new one in its place in name order |
| `SplayTrees.SplayTree.Delete` | ipc/ipc_splay.c:450-509 | the entries lose exactly the given one |
| `SplayTrees.SplayTree.SplitOff` | ipc/ipc_splay.c:521-591 | the entries below the name go to one tree and the others stay, in order, none lost |
| `SplayTrees.SplayTree.Join` | ipc/ipc_splay.c:601-661 | joins a tree of smaller names in front: the inverse of the split |
| `SplayTrees.SplayTree.Bounds` | ipc/ipc_splay.c:687-754 | returns the greatest name at or below and the least at or above the given one, or the boundary values |
| `SplayTrees.SplayTree.Pick` | ipc/ipc_splay.c:319-338 | finds some entry exactly when the tree is not empty |
| `SplayTrees.SplayTree.TraverseStart` | ipc/ipc_splay.c:776-806 | stands on the first entry, the path above it inverted |
| `SplayTrees.SplayTree.TraverseNext` | ipc/ipc_splay.c:808-948 | passes the current entry, or deletes it, and stands on its successor |
| `SplayTrees.SplayTree.TraverseFinish` | ipc/ipc_splay.c:950-964 | every inverted pointer is restored and the tree is valid |
| `SplayTrees.SplayTree.Traverse` | ipc/ipc_splay.c:776-964 | for any choice of deletions a whole traversal visits every entry once in name order, ends, and leaves a search tree of exactly the undeleted entries |
| `SplayTraverse.Advance` | ipc/ipc_splay.c:808-948 | one step on the inverted path: what is passed and what is to come, for each of the deletion cases |
| `SplayTraverse.DeleteFull` | ipc/ipc_splay.c:868-886 | deleting an entry with two subtrees keeps the order of the others |
| `TableSizes.Fill` | ipc/ipc_table.c:111-150 | the table holds the sizes from the first large enough one on, in order; they are strictly increasing, at least the minimum and at most a bound linear in their number |
| `TableSizes.BytesClosed` | ipc/ipc_table.c:124-149 | the sizes in closed form: powers of two up to the first that is a page or more, then periods of fifteen steps of one page, two, four, and eight from then on |
| `TableSizes.Init` | ipc/ipc_table.c:152-190 | both tables hold those sizes; for pages of 16 bytes to 64 kilobytes the entry sizes increase strictly but for the last two, which are equal, and keep MACH_PORT_DEAD out of the table; those of the dead-name request tables increase strictly up to the last, which is 0 |
| `TableSizes.NextSize` | ipc/ipc_table.h:93-101 | at every level the next size is larger, or equal only at the end |
| `SpaceView.CreatedInv` | ipc/ipc_space.c:142-226 | a new space satisfies the invariant and denotes nothing |
| `EntryTables.EntryTable.constructor` | ipc/ipc_space.c:165-178 | the initial loop links all slots but the first, in order |
| `SpaceView.LookupExact` | ipc/ipc_entry.c:146-176 | the lookup by generation, collision bit, table and tree finds exactly the right the name denotes, but for one hidden name |
| `SpaceView.HiddenIsLost` | ipc/ipc_entry.c:155-165 | that name can be allocated and given a right, and is then never found |
| `SpaceView.GotInv` | ipc/ipc_entry.c:190-241 | taking the first free slot keeps the free list exact and every name's right |
| `SpaceView.IssuedFresh` | ipc/ipc_entry.c:212-234 | an issued name is neither null nor dead and denoted nothing |
| `NameCycles.IssuedAgain` | ipc/ipc_entry.c:212-234 | a slot that is issued and given back over and over issues the same name again exactly every 256 times |
| `SpaceView.TookSlotInv` | ipc/ipc_entry.c:343-365 | unlinking a slot from the middle of the free list keeps the list exact and every right |
| `EntryTables.Unlink` | ipc/ipc_entry.c:343-365 | the search along the list reaches its target and unlinks just that slot |
| `SpaceView.PlantedInv` | ipc/ipc_entry.c:427-451 | a new tree entry keeps the collision bits and both counters exact |
| `SpaceView.FreedSlotInv` | ipc/ipc_entry.c:543-547 | a slot given up goes to the head of the free list |
| `SpaceView.MigratedInv` | ipc/ipc_entry.c:496-542 | a tree entry that moves into the freed slot keeps its name's right; collision bit and counters stay exact |
| `SpaceView.UprootedInv` | ipc/ipc_entry.c:548-573 | a tree entry given up leaves collision bit and counters exact |
| `SpaceView.SlotSetInv` | ipc/ipc_right.c:2086-2210 | a right written into a table entry changes what its own name denotes and no other |
| `SpaceView.TreeSetInv` | ipc/ipc_right.c:2086-2210 | and into a tree entry likewise |
| `EntryTrees.EntryTree.Collides` | ipc/ipc_entry.c:115-135 | the bounds of a name tell whether the tree holds a name of its index |
| `EntryTrees.EntryTree.TakeIndex` | ipc/ipc_entry.c:496-541 | two splits isolate the names of an index; one is taken out, the rest rejoined, and whether more remain is told |
| `SpaceGrow.AbsorbedGrowing` | ipc/ipc_entry.c:786-835 | one step of the growth traversal, moving an entry into the table or setting a collision bit, keeps the growth invariant |
| `SpaceGrow.AbsorbedRights` | ipc/ipc_entry.c:786-835 | and every name's right |
| `SpaceGrow.GrowthDone` | ipc/ipc_entry.c:749-883 | after the traversal, the recount and the threading of unused new slots the space is consistent again, denotes the same, and its free list has gained exactly the unused new slots in order |
| `GrowTables.Transfer` | ipc/ipc_entry.c:784-836 | the loop that moves entries from the tree into the larger table |
| `GrowTables.CountIndices` | ipc/ipc_entry.c:838-857 | the recount is the number of distinct indices in the tree below the next size |
| `GrowTables.MoveIn` | ipc/ipc_entry.c:749-864 | the tree is split three ways, traversed and rejoined, losing exactly the moved entries |
| `GrowTables.ThreadFree` | ipc/ipc_entry.c:866-883 | the unused slots of the new part are put in front of the free list |
| `Spaces.Space.GrowOnce` | ipc/ipc_entry.c:656-883 | one growth of the objects: the same map of names, the next size, the free list longer by the unused new slots |
| `ReverseHash.Lookup` | ipc/ipc_hash.c:409-448 | the probe ends, and finds an index of the object exactly when one is hashed |
| `ReverseHash.Insert` | ipc/ipc_hash.c:458-492 | adds the index, with no hole on any entry's probe path |
| `ReverseHash.Delete` | ipc/ipc_hash.c:502-583 | removes the index; every other hashed entry stays reachable from its home slot, none lost or duplicated, for any hash function |
| `ReverseHash.HoleMoves` | ipc/ipc_hash.c:554-582 | moving a displaced entry into the hole keeps every probe path whole but for the new hole |
| `GlobalHash.GlobalTable.Lookup` | ipc/ipc_hash.c:239-282 | finds a member of the space and object exactly when there is one; moving it to the front changes no membership |
| `GlobalHash.GlobalTable.Insert` | ipc/ipc_hash.c:292-319 | adds one member |
| `GlobalHash.GlobalTable.Delete` | ipc/ipc_hash.c:329-364 | removes one member |
| `GlobalHash.ToFrontKeeps` | ipc/ipc_hash.c:262-277 | moving to the front is a permutation |
| `ReverseTable.Reverse.Lookup` | ipc/ipc_hash.c:126-142 | local and global lookup together find a name of the object exactly when one is hashed |
| `ReverseTable.Reverse.RehashOld` | ipc/ipc_entry.c:723-740 | after growth the old entries are hashed in the larger table, and only they |
| `ReverseTable.Reverse.RehashMoved` | ipc/ipc_entry.c:818-831 | entries moved into the table change from the global to the local hash |
| `IpcSpaces.IpcSpace.constructor` | ipc/ipc_space.c:142-226 | a new space denotes nothing and its inverse is empty |
| `IpcSpaces.IpcSpace.ReverseLookup` | ipc/ipc_hash.c:126-142 | the reverse lookup returns a name whose right is a pure send right for the object, exactly when the space has one |
| `IpcSpaces.IpcSpace.Lookup` | ipc/ipc_entry.c:146-176 | finds the entry of a name exactly when it denotes a right, for every name but the hidden one |
| `IpcSpaces.IpcSpace.StoreSlot` | ipc/ipc_hash.c:153-197 | a right written into a table entry, with the hash calls, changes one name and keeps the inverse exact |
| `IpcSpaces.IpcSpace.StoreTree` | ipc/ipc_hash.c:153-197 | and into a tree entry, with the count of hashed tree entries |
| `IpcSpaces.IpcSpace.DeallocSlot` | ipc/ipc_entry.c:474-547 | a given-up slot is freed or taken over by a colliding tree entry; every right and the inverse stay |
| `IpcSpaces.IpcSpace.DeallocTree` | ipc/ipc_entry.c:548-574 | a given-up tree entry goes; every right and the inverse stay |
| `IpcSpaces.IpcSpace.Expand` | ipc/ipc_entry.c:656-890 | one growth, with both rehashes, keeps the map of names and its inverse |
| `IpcSpaces.IpcSpace.Grow` | ipc/ipc_entry.c:592-911 | whatever other threads do to the space at each drop of its lock: the space is consistent again with its inverse, the table larger or the call waited for another, no space reported exactly when the table has its largest size, a shortage exactly when a request for memory is refused; alone, it keeps the map, grows once for each request met, and stops when growing more would save nothing |
| `IpcSpaces.IpcSpace.Get` | ipc/ipc_entry.c:190-241 | gives a fresh name for a slot exactly when the free list is not empty |
| `IpcSpaces.IpcSpace.Alloc` | ipc/ipc_entry.c:257-281 | ends, though others may take each slot it made room for; gives a name fresh in the space as it was when last locked, without asking for memory if there is a free slot; reports no space only when table and free list are exhausted, and a shortage exactly when a request is refused, having found no free slot |
| `IpcSpaces.IpcSpace.AllocName` | ipc/ipc_entry.c:298-463 | ends, with other threads at each drop of the lock; finds or makes the entry of the given name in the space as it was when last locked without touching another; a name with an entry, or a free slot, needs no memory and never fails; any other fails exactly when a request for memory is refused, and gets a tree entry only where a larger table would not save memory |
| `IpcSpaces.ShortWithRoom` | ipc/ipc_entry.c:886-909 | from any space of that form, growth refused its second request reports a shortage and leaves a free slot |
| `IpcSpaces.TightSpace` | ipc/ipc_entry.c:886-909 | and there is such a space |
| `IpcSpaces.IpcSpace.Rewrite` | ipc/ipc_entry.c:146-176 | looking a name up and writing a right into its entry, or giving the entry back, changes what that name denotes and no other, and the inverse with it; exactly when the name is found |
| `IpcSpaces.IpcSpace.Meanwhile` | ipc/ipc_entry.c:457-461 | any number of such deeds, new names and growths by others leaves the space and its inverse consistent; a table being grown stays |
| `IpcSpaces.IpcSpace.Rename` | ipc/ipc_object.c:889-920 | a rename moves the right from the old name to the new one, in the map and in the inverse, and touches no other; or nothing changes and the result says why: no memory exactly when a request is refused, and never if the new name has an entry or a free slot |
| `LinkedQueues.LinkedQueue.Enqueue` | ipc/ipc_kmsg.h:273-289 | the circular doubly linked queue gains an element at its end |
| `LinkedQueues.LinkedQueue.Rmqueue` | ipc/ipc_thread.c:123-148 | an element leaves the middle of the queue, its links reset |
| `LinkedQueues.LinkedQueue.Dequeue` | ipc/ipc_kmsg.c:166-178 | the first element leaves the queue, if there is one |
| `LinkedQueues.LinkedQueue.Next` | ipc/ipc_kmsg.c:219-233 | the element after a given one, or none at the end of the ring |
| `LinkedQueues.BridgedRing` | ipc/ipc_thread.c:133-147 | what remains when neighbours are linked past an element is a ring |
| `MessageQueues.IpcPort.Deliver` | ipc/ipc_mqueue.c:451-619 | an accepted message goes to the first receiver whose buffer and options take it, each before it being told, as its own sizes and format say, that it is too large; or it is queued and nobody is left waiting |
| `MessageQueues.IpcPort.Send` | ipc/ipc_mqueue.c:347-620 | the loop body of the send: at a live port a message with room, or forced, is counted and queued or handed over, unless it is circular; without room its sender waits; at a dead port nothing happens |
| `MessageQueues.IpcPort.Move` | ipc/ipc_mqueue.c:121-272 | the port's messages, in order, leave one queue for another or go to its waiting receivers |
| `MessageQueues.IpcPort.Join` | ipc/ipc_pset.c:184-210 | a port enters a set: its messages move, its waiting receivers are told |
| `MessageQueues.IpcPort.Depart` | ipc/ipc_pset.c:222-242 | a port leaves a set with its own messages and no others |
| `MessageQueues.IpcPort.Finish` | ipc/ipc_mqueue.c:1139-1162 | a receiver gives back the place in the queue; the first blocked sender is woken exactly when there is room by then |
| `MessageQueues.IpcPort.SetQlimit` | ipc/ipc_port.c:397-427 | the limit is set, and as many senders woken, in order, as it makes room for or as there are |
| `MessageQueues.MessageQueue.Changed` | ipc/ipc_mqueue.c:282-293 | every waiting receiver is told and leaves |
| `MessageQueues.MessageQueue.Receive` | ipc/ipc_mqueue.c:897-1024 | the first message is taken, and numbered by its port, or left with its size told, by formats, sizes and options alone; with none the receiver waits; no other port changes |
| `MessageQueues.Awake` | ipc/ipc_mqueue.c:1037-1075 | a woken receiver has been handed the message exactly when it takes it, though it is told only a verdict |
| `MessageQueues.IpcPort.Die` | ipc/ipc_port.c:744-761 | a dying port wakes all its blocked senders |
| `Mqueue.DeliveredKeeps` | ipc/ipc_mqueue.c:451-619 | a delivery keeps the order of the port's messages, their numbering and the count |
| `Mqueue.MovedKeeps` | ipc/ipc_mqueue.c:121-272 | moving a port's messages keeps send order and consecutive numbers |
| `Mqueue.SubmittedKeeps` | ipc/ipc_mqueue.c:347-620 | so does a send |
| `Mqueue.ResumedRoused` | ipc/ipc_mqueue.c:347-449 | a woken sender that looks again keeps enough senders awake exactly when it does not waste its wakeup |
| `Mqueue.FinishedRoused` | ipc/ipc_mqueue.c:1139-1162 | freeing a place wakes a sender if one is blocked |
| `Mqueue.LimitedRoused` | ipc/ipc_port.c:397-427 | raising the limit wakes as many as it makes room for |
| `Mqueue.TooLargeTells` | ipc/ipc_mqueue.c:548-607 | a receiver is told that a message is too large exactly when it does not take it |
| `Mqueue.JudgeFair` | ipc/ipc_mqueue.c:897-1003 | what a receiver is told and whether it is handed the message, for each pair of formats: between new ones, success exactly when message and trailer fit the buffer, too large otherwise, and handed over then exactly without MACH_RCV_LARGE |
| `Mqueue.SuccessFits` | ipc/ipc_mqueue.c:956-968 | success means that they fit, if and only if the trailer fits or the message is near a whole word in size |
| `Mqueue.TrailerWraps` | ipc/ipc_mqueue.c:956-968 | a message, a buffer and a trailer for which it does not |
| `MessageRuns.NextInv` | ipc/ipc_mqueue.c:121-1167 | each of the seventeen steps keeps: no queue with both messages and receivers, every message in the queue of its port, send order, consecutive numbers, exact counts |
| `MessageRuns.RunInv` | ipc/ipc_mqueue.c:121-1167 | so does every run |
| `MessageRuns.Accepted` | ipc/ipc_mqueue.c:313-623 | in every run the accepted messages of a live port are, in send order, those received followed by those queued, each once and in one queue only; received ones are numbered consecutively, across port-set moves |
| `MessageRuns.SentHas` | ipc/ipc_mqueue.c:347-449 | a message to a live port is accepted at once if there is room or it is forced, and else its sender waits |
| `MessageRuns.NextHas` | ipc/ipc_mqueue.c:121-1167 | in a step a live port loses a message, accepted or waiting, if and only if its sender is interrupted or times out without room |
| `MessageRuns.NeverLost` | ipc/ipc_mqueue.c:313-623 | so in every run each message sent is accepted or waiting as long as its port lives, unless its own sender has withdrawn it since |
| `MessageRuns.Accounted` | ipc/ipc_mqueue.c:313-623 | and with the order of acceptance: it has been received, is queued, waits, or was withdrawn |
| `MessageRuns.ReceiveDoes` | ipc/ipc_mqueue.c:897-1024 | a receive takes the first message and numbers it, exactly when the receiver takes it |
| `MessageRuns.FinishDoes` | ipc/ipc_mqueue.c:1139-1162 | a receiver that is done frees a place and wakes the first sender if there is room |
| `MessageRuns.MemberDoes` | ipc/ipc_pset.c:184-242 | ports enter and leave sets |
| `MessageRuns.LeaveDoes` | ipc/ipc_mqueue.c:1081-1107 | a receiver that stops waiting leaves its queue, and no other does |
| `MessageRuns.SetDoes` | ipc/ipc_port.c:397-427 | limits and sequence numbers are set, and the messages of a dead port go one by one |
| `MessageRuns.DestroyDoes` | ipc/ipc_port.c:744-761 | a destroyed port is dead and its senders are woken to see it |
| `MessageRuns.ChangedDoes` | ipc/ipc_mqueue.c:282-293 | a destroyed set, or a port whose receiver goes, has no receivers left waiting |
| `MessageRuns.NextRoused` | ipc/ipc_mqueue.c:347-449 | a step keeps enough senders awake if and only if it is not a woken sender that leaves its place unused while others sleep |
| `MessageRuns.RunRoused` | ipc/ipc_mqueue.c:1139-1162 | in every run without circular messages a port has no sender blocked, or at least as many woken as there are places free |
| `MessageRuns.LostWakeup` | ipc/ipc_mqueue.c:442-449 | a run with one circular message that ends with a sender asleep and the queue empty |
| `Circular.LinkCloses` | ipc/ipc_port.c:846-969 | a new link closes a cycle exactly when its end already leads back to its start |
| `Circular.OneEnd` | ipc/ipc_port.c:878-895 | following the links from anywhere ends in the same place, so the walk decides |
| `Circular.CheckCircularity` | ipc/ipc_port.c:846-969 | the walk ends; it answers true exactly when the link would close a cycle, and makes the link exactly when not |
| `Circular.Arrive` | ipc/ipc_right.c:2166-2203 | a receive right copied out takes its link away and keeps the rest acyclic |
| `Circular.Die` | ipc/ipc_port.c:671-828 | so does a dying port |
| `Circular.NeverCyclic` | ipc/ipc_port.c:846-969 | over every run of such steps no port is in transit to itself |
| `CircularRuns.QuickSafe` | ipc/ipc_port.c:862-876 | a link to a port that is not in transit closes no cycle, so it may be made without the walk |
| `CircularRuns.FinishExact` | ipc/ipc_port.c:878-969 | whatever links others made and took away during the walk, its answer is exact when it ends: true if and only if the link would close a cycle then |
| `CircularRuns.NeverLockedTwice` | ipc/ipc_port.c:878-895 | the walk never comes to a port it has locked |
| `CircularRuns.WalkBounded` | ipc/ipc_port.c:878-895 | it can always go on, and locks at most one port more than are in transit |
| `CircularRuns.NeverCyclicAmong` | ipc/ipc_port.c:846-969 | over every interleaving of one walk with quick links, arrivals and deaths no port is in transit to itself |
| `Rights.CopyinKeeps` | ipc/ipc_right.c:1543-1875 | every copyin keeps the entry sane, the counts balanced, the right hash call made and the request handed out when its entry goes |
| `Rights.CopyinTwoKeeps` | ipc/ipc_right.c:1976-2060 | so does the copyin of two send rights |
| `Rights.CopyoutKeeps` | ipc/ipc_right.c:2086-2210 | and each kind of copyout, pegged at one below the largest count |
| `Rights.DeallocKeeps` | ipc/ipc_right.c:843-1019 | and dealloc |
| `Rights.SendDeltaKeeps` | ipc/ipc_right.c:1274-1350 | and delta of a send right: live send rights keep a user reference spare |
| `Rights.DeadDeltaKeeps` | ipc/ipc_right.c:1218-1272 | and of a dead name, up to the full 16 bits |
| `Rights.OnceDeltaKeeps` | ipc/ipc_right.c:1174-1216 | and of a send-once right |
| `Rights.DestroyKeeps` | ipc/ipc_right.c:698-825 | and destroy, of every kind of entry |
| `Rights.NotifiedKeeps` | ipc/ipc_right.c:328-346 | and an immediate dead-name notification, which refuses to overflow |
| `Rights.DiedSane` | ipc/ipc_right.c:494-563 | turning an entry of a dead port into a dead name keeps user references within their bits, with the one for its request |
| `Rights.ReceiveDeltaKeeps` | ipc/ipc_right.c:1085-1172 | giving up a receive right balances the counts if and only if the entry has no send right |
| `Rights.OpKeeps` | ipc/ipc_right.c:494-2060 | all operations on an entry together |
| `References.FoundRefs` | ipc/ipc_right.c:494-563 | an entry found with its port dead has its references and one for its request, if any, as a dead name |
| `References.DeallocRefs` | ipc/ipc_right.c:843-1019 | dealloc takes exactly one reference from any entry that has one, as it is found, and the right with the last of them; it fails on all others |
| `References.DeallocRun` | ipc/ipc_right.c:843-1019 | an entry with n references is given up by n deallocs, and by no fewer |
| `References.SendDeltaRefs` | ipc/ipc_right.c:1274-1350 | a delta adds exactly that many references to a live send right; each error, if and only if its condition, and then nothing changes |
| `References.DeadDeltaRefs` | ipc/ipc_right.c:1218-1272 | so it does to a dead name, one the entry has become included |
| `References.OnceDeltaRefs` | ipc/ipc_right.c:1174-1216 | of a send-once right, given up into a notification or kept |
| `References.NotifiedRefs` | ipc/ipc_right.c:328-346 | an immediate notification adds one reference exactly when there is room |
| `References.DestroyRefs` | ipc/ipc_right.c:698-825 | destroy takes all |
| `References.ReceiveDeltaRefs` | ipc/ipc_right.c:1085-1172 | a receive right given up leaves the references of the send right, and one for its request, in a dead name |
| `References.CopyinYields` | ipc/ipc_right.c:1543-1875 | a copyin gives a right exactly when the entry has the one its disposition asks for and the port lives, and a dead name exactly when that is found and accepted |
| `References.CopyinCarries` | ipc/ipc_right.c:1543-1875 | it carries away one right of that kind, or none |
| `References.CopyinLeaves` | ipc/ipc_right.c:1543-1875 | a move takes one reference or the receive right, anything else nothing |
| `References.CopyinTwoRefs` | ipc/ipc_right.c:1976-2060 | two send rights for two references, exactly when there are two and the port lives |
| `References.SendOutRefs` | ipc/ipc_right.c:2117-2164 | a send right copied out adds one reference, or none at the largest count, where it is refused unless overflow is allowed |
| `References.ReceiveOutRefs` | ipc/ipc_right.c:2166-2203 | a receive right copied out joins the send right in the entry and its references |
| `RightOps.Unpacked` | ipc/ipc_entry.h:135-149 | the packed bits give back type and user references |
| `RightOps.Check` | ipc/ipc_right.c:494-563 | on the bits: the entry of a dead port becomes a dead name, generation and collision bits untouched |
| `RightOps.Copyin` | ipc/ipc_right.c:1543-1875 | on the bits, counts and hash: the effect of `Rights.CopiedIn`, whatever the entry, disposition and state of the port |
| `RightOps.CopyinUndo` | ipc/ipc_right.c:1887-1958 | leaves the entry exactly as turning the untouched one into a dead name would |
| `RightOps.CopyinTwo` | ipc/ipc_right.c:1976-2060 | the effect of `Rights.CopiedInTwo` |
| `RightOps.CopyoutSend` | ipc/ipc_right.c:2117-2164 | the effect of `Rights.SendCopiedOut`, with overflow pegged or refused |
| `RightOps.CopyoutOnce` | ipc/ipc_right.c:2106-2115 | the effect of `Rights.OnceCopiedOut` |
| `RightOps.CopyoutReceive` | ipc/ipc_right.c:2166-2203 | the effect of `Rights.ReceiveCopiedOut` on the entry; the port gets its receiver and name, and the old destination is given back |
| `RightOps.QuickCopyout` | ipc/ipc_kmsg.c:2943-2988 | the quick copyout of a send right has the effect of the general one with overflow allowed |
| `RightOps.Dealloc` | ipc/ipc_right.c:843-1019 | on the bits: one user reference fewer exactly when there is one, the effect and result of `Rights.Dealloced`, with the no-senders request taken at the last send right |
| `RightOps.DeltaSend` | ipc/ipc_right.c:1274-1350 | on the bits: that many user references more, the effect and result of `Rights.SendDelta` |
| `RightOps.DeltaDead` | ipc/ipc_right.c:1218-1272 | the effect and result of `Rights.DeadDelta` |
| `RightOps.DeltaOnce` | ipc/ipc_right.c:1174-1216 | the effect and result of `Rights.OnceDelta` |
| `RightsWorld.OperatedInv` | ipc/ipc_right.c:494-2060 | every operation on an entry keeps, over all spaces and ports, the conservation of rights and the shape of the world |
| `RightsWorld.SentOutInv` | ipc/ipc_object.c:622-689 | a send right copied out into the entry there is, or a new one, keeps them |
| `RightsWorld.OnceOutInv` | ipc/ipc_object.c:622-689 | a send-once right likewise |
| `RightsWorld.ReceivedOutInv` | ipc/ipc_object.c:622-689 | a receive right likewise, the port naming its new holder |
| `RightsWorld.AdjustInv` | ipc/ipc_port.c:1020-1203 | rights made, copied and released in the kernel keep them |
| `RightsWorld.BornInv` | ipc/ipc_port.c:549-571 | a new port keeps them |
| `RightsWorld.RegisteredInv` | ipc/ipc_right.c:228-346 | registering a dead-name request, in place of any before it, keeps them |
| `RightsWorld.CancelledInv` | ipc/ipc_port.c:289-316 | cancelling one keeps them |
| `RequestTables.RequestTable.Dnrequest` | ipc/ipc_port.c:133-164 | registers in a slot that was not in use, exactly when the free list is not empty |
| `RequestTables.RequestTable.Dncancel` | ipc/ipc_port.c:289-316 | gives the registered right back; the slot is the next to be used |
| `RequestTables.RequestTable.Switch` | ipc/ipc_right.c:271-300 | a request that replaces another takes its slot and cannot fail, as the code relies on |
| `RequestTables.RequestTable.Dnrename` | ipc/ipc_port.h:289-302 | changes the name of one request |
| `RequestTables.RequestTable.Dngrow` | ipc/ipc_port.c:182-279 | a larger table has the requests in their slots and the new slots, threaded downwards, in front of the free list |
| `RequestTables.RequestTable.Fire` | ipc/ipc_port.c:791-822 | the loop at a port's death answers the requests in slot order |
| `RequestTables.AskingExact` | ipc/ipc_port.c:791-822 | the answered slots are exactly those registered, each once |
| `RequestTables.AnswersExact` | ipc/ipc_port.c:791-822 | and each is answered with the name and right registered there |
| `RightsWorld.PdInv` | ipc/ipc_port.c:330-345 | a port-destroyed request keeps them |
| `RightsWorld.NsInv` | ipc/ipc_port.c:359-386 | a no-senders request keeps them |
| `RightsWorld.KilledInv` | ipc/ipc_port.c:671-828 | the death of a port answers every request registered with it, also one whose entry is dead already, and restores the invariant |
| `RightsWorld.PortDestroyedInv` | ipc/ipc_port.c:671-828 | destroying a port, or giving its receive right to a backup, keeps them |
| `RightsWorld.EntryDestroyedInv` | ipc/ipc_right.c:698-825 | destroying an entry of any kind, and its port with a receive right, keeps them |
| `RightsWorld.EntryDestroyedExact` | ipc/ipc_right.c:698-825 | that entry goes and no other; the port dies exactly when the entry had its receive right and no backup takes it |
| `RightsWorld.GivenUpInv` | ipc/ipc_right.c:1085-1172 | giving up a receive right, in the order of the code, keeps the invariant unless a backup takes it from an entry that also has a send right |
| `RightsWorld.GivenUpConserves` | ipc/ipc_right.c:1085-1172 | it conserves send rights if and only if no backup takes it from such an entry |
| `RightsWorld.LeakGap` | ipc/ipc_right.c:1120-1141 | in that case the live port counts one send right too many |
| `RightsWorld.GivenUpRequests` | ipc/ipc_right.c:1117-1157 | requests and entries match afterwards if and only if that does not happen to an entry with a request |
| `RightsWorld.LeakHappens` | ipc/ipc_right.c:1117-1157 | a consistent world in which both go wrong |
| `RightsWorld.RenamedInv` | ipc/ipc_right.c:2228-2352 | renaming an entry, with its request and receive right, keeps them |
| `RightsWorld.RenamedExact` | ipc/ipc_right.c:2228-2352 | the new name has the old one's right, or the dead name it has become, the old name none, and no other name changes |
| `RightsWorld.NextInv` | ipc/ipc_right.c:494-2352 | each of the eighteen kinds of step keeps the invariant |
| `RightsWorld.RunInv` | ipc/ipc_right.c:494-2352 | in every run ip_srights is the number of entries with a send right and naked send rights, and ip_sorights that of entries, naked rights and registered requests, for every live port; no naked count is negative; user references stay in bounds; a space has one name for a port, alive or dead |
| `RightsWorld.StartInv` | ipc/ipc_init.c:126-172 | the invariant holds before anything is allocated, so runs from there have it |
| `RightsWorld.NextSolvent` | ipc/ipc_right.c:494-2352 | no step uses a naked right that is not there |
| `RightsWorld.CountsPositive` | ipc/ipc_right.c:1684-1737 | so the asserts of the code that ip_srights and ip_sorights are positive, before it decrements them for an entry, hold |
| `WorldSteps.OperatedExact` | ipc/ipc_right.c:494-2060 | over all spaces, an operation changes its own entry, as said of one entry, and no other, and no port lives or dies |
| `WorldSteps.DeallocStep` | ipc/ipc_right.c:843-1019 | a dealloc takes one reference of the entry as it is found |
| `WorldSteps.SentOutExact` | ipc/ipc_object.c:622-689 | a send right copied out is in its entry, with one reference more unless pegged, and naked no longer |
| `WorldSteps.OnceOutExact` | ipc/ipc_object.c:622-689 | a send-once right likewise |
| `WorldSteps.ReceivedOutExact` | ipc/ipc_object.c:622-689 | a receive right likewise, its port naming that entry |
| `WorldSteps.BornExact` | ipc/ipc_port.c:549-571 | a new port is alive with its receive right in the one new entry; no other entry, port or request changes |
| `WorldSteps.RegisteredExact` | ipc/ipc_right.c:228-346 | the request is registered under its name and port, the one before it given back, no other changed |
| `WorldSteps.CancelledExact` | ipc/ipc_port.c:289-316 | a cancelled request is gone and its right given back |
| `WorldSteps.PdSetExact` | ipc/ipc_port.c:330-345 | a port-destroyed request replaces the one before it, which is given back |
| `WorldSteps.NsSetExact` | ipc/ipc_port.c:359-386 | a no-senders request likewise |
| `WorldSteps.KilledExact` | ipc/ipc_port.c:671-828 | a dying port gives back every right registered with it, for each port as many as there were, and has no request left |
| `WorldSteps.PortDestroyedExact` | ipc/ipc_port.c:671-828 | a port lives on exactly when a backup takes it, which is told |
| `WorldSteps.GivenUpExact` | ipc/ipc_right.c:1085-1172 | giving up a receive right leaves a dead name for the send right and no other change of entries; the port lives on exactly with a backup |
| `WorldSteps.CountsExact` | ipc/ipc_port.c:1020-1203 | rights made and released in the kernel are counted, and the last send right takes the no-senders request |
| `Headers.StampsExact` | ipc/ipc_port.h:251-258 | the comparison of timestamps is the order of two deaths exactly by their distance round the word |
| `Headers.StampsNear` | ipc/ipc_port.h:251-258 | and is the true order below 2^31 |
| `Headers.CheckExact` | ipc/ipc_right.c:1452-1516 | the check before a copyin says exactly whether it would succeed, dead names allowed |
| `Headers.UndoIsDeath` | ipc/ipc_right.c:1887-1958 | undoing a copyin equals turning the untouched entry into a dead name |
| `Headers.AtOnceExact` | ipc/ipc_kmsg.c:1525-1690 | when the copyin of a header succeeds at one instant, by the rights the entries have and the ports that live, and that otherwise neither entry loses anything |
| `Headers.AtOnceRights` | ipc/ipc_kmsg.c:1525-1690 | and that success takes from each entry what its disposition says, one right of the kind asked for going into the message, with the counts of a port that lives on |
| `Headers.CopyinSerializes` | ipc/ipc_kmsg.c:1525-1690 | for any deaths and any timing, the outcome, both entries, the ports that result and the notifications are those of the whole copyin at one instant, if and only if the timestamps are not misjudged |
| `Headers.DistinctPortsSerialize` | ipc/ipc_kmsg.c:1525-1690 | so always for two ports, if fewer than 2^31 ports die during the call |
| `Headers.OnePortMisjudged` | ipc/ipc_kmsg.c:1560-1650 | not so for two names of one port |
| `Headers.OutAtOnceNames` | ipc/ipc_kmsg.c:2823-2897 | the copyout at one instant gives the destination's name exactly when its receive right is here and it lives, dead exactly when it is dead, and the reply port's name exactly when that lives |
| `Headers.OutAtOnceRights` | ipc/ipc_object.c:788-873 | and uses up one right of the destination, or hands it back, takes the no-senders request exactly with the last send right, and leaves the reply right in the entry |
| `Headers.DeliveredNames` | ipc/ipc_kmsg.c:2823-2897 | the code gives the destination's name exactly when its receive right is here |
| `Headers.NamesExact` | ipc/ipc_kmsg.c:2823-2897 | the names given on copyout are those of one instant, if and only if the timestamps are not misjudged |
| `Headers.CopyoutSerializes` | ipc/ipc_kmsg.c:2823-2897 | names, reply entry, what becomes of both rights and the notifications are those of one instant, if and only if the timestamps are not misjudged and no dead destination is named as if alive whose last send right would have sent a no-senders notification |
| `Headers.NearDeathsSerialize` | ipc/ipc_kmsg.c:2862-2897 | if the deaths are fewer than 2^31 apart, for one port or two, the names always are, and the rest fails only for that notification |
| `Headers.NoSendersLost` | ipc/ipc_object.c:788-873 | two deaths and a timing for which it does |
| `HeaderNames.ClearedSits` | ipc/ipc_entry.c:495-531 | giving an entry back moves the entry of another name exactly when that is in the tree and picked to take over the slot |
| `HeaderNames.SecondLookSafe` | ipc/ipc_kmsg.c:1673-1686 | after both copyins and the return of the reply entry the destination's entry is sure to be where it was found, if and only if not: same index, reply in the table, destination in the tree |
| `HeaderNames.DistinctIndicesSafe` | ipc/ipc_kmsg.c:1673-1686 | so it is for names of different index |
| `HeaderNames.PointerLost` | ipc/ipc_kmsg.c:1673-1686 | a consistent space in which it can move |
| `FastHeaders.CopyinAsync` | ipc/ipc_kmsg.c:1060-1122 | the optimized copyin of an asynchronous message is taken exactly for a live port with a send right in the name's slot; it puts that port into the header, counts one send right and nothing else, which is what the general path would do; otherwise it changes nothing |
| `FastHeaders.CopyinRequest` | ipc/ipc_kmsg.c:1124-1226 | so does that of a request, with a send-once right counted at the reply port, also when both names, or both ports, are the same |
| `FastHeaders.CopyinReply` | ipc/ipc_kmsg.c:1228-1303 | and that of a reply: its name then denotes nothing, every other name what it did, its slot freed just as by the general dealloc |
| `FastHeaders.CopyoutAsync` | ipc/ipc_kmsg.c:2440-2479 | the optimized copyout of an asynchronous message gives the port's own name exactly where its receive right is, a receive right for it if the table says so, and uses up one send right, with the no-senders request at the last; that is the general path, but for a local port without a type, which it clears; equal if and only if that field was null |
| `FastHeaders.CopyoutRequest` | ipc/ipc_kmsg.c:2481-2578 | so does that of a request, taken exactly with a free slot, two live ports and the lock; the reply right has a fresh name, every other name denotes what it did, as by entry and right copyout |
| `FastHeaders.CopyoutReply` | ipc/ipc_kmsg.c:2580-2612 | and that of a reply: the send-once right is used up exactly where the receive right is, and goes back unused elsewhere |
| `FastHeaders.PairExact` | ipc/ipc_kmsg.c:1525-1690 | the general path, from where the fast one succeeds, has that outcome and no other |

## Left out

- Locks, reference counts and memory: each region under a lock is one step; whether a request for memory is met and a lock attempt succeeds is a parameter.
- ipc_space_destroy, ipc_right_clean and dead spaces: operations are modelled on active spaces.
- ipc_right_info, ipc_right_lookup_write and the system-call wrappers in mach_port.c and mach_msg.c: they only add easy members.
- MACH_IPC_COMPAT and msg-accepted requests: they double every case without a new kind of property.
- Scatter lists, message bodies, out-of-line memory and the notify arguments of the header operations.
- ipc_entry_grow_table with a target size other than ITS_SIZE_NONE.
- ipc_pset_move as one step: a port moves from set to set by a removal followed by an addition, and runs contain both.
- The same-name cases of the header copyin other than copy-send with make-send-once.
- What the header copyin does once its pointer to the destination's entry is bad: it reads freed memory, and Headers assumes the entries stay put.
- MachPort.Name: a name is a natural number below 2^32, with the generation kept unshifted.
- Rights and RightsWorld: operations over all spaces are on values; update in place is modelled for one entry and its port in RightOps, and for one space in IpcSpace.
- Mqueue and MessageRuns: runs are on values; update in place is modelled in MessageQueues, with queues as sequences, and the linked queues themselves in LinkedQueue.
- RequestTables and RightsWorld: a run has requests as a map from entry to port and send-once right; slots, the free list and growth are in RequestTables for one port.
- RequestTables.RequestTable.Dngrow: starts where the code has the memory and no other thread has grown the table.
- IpcSpaces.IpcSpace.Alloc: waits bounds how often the call finds the table being grown by others who then fail; nothing in the code does.
- IpcSpaces.IpcSpace.AllocName: the same bound.
- CircularRuns: one walk at a time, as ipc_port_multiple_lock ensures; the circular flag of RightsWorld.PortDestroyed is any value, so its results hold for whatever the check answers.
- TableSizes.Init: the page size is at most 64 kilobytes, so that the stated maximum holds.
- Headers.CopyinSerializes: assumes, as the locks ensure, that a port whose receive right is in the locked space does not die during the call.
- Wrap-around of make-send counts, rights counts and message counts: these are unbounded. Sequence numbers wrap at a word, as in the code.
