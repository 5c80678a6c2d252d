# A verified model of the Open5GS core library and of three UERANSIM pieces

The project models, in Dafny, the stateful data structures and codecs that the
Open5GS network functions are built on (`open5gs/lib/core`), and three small
arithmetic and bit-level parts of the UERANSIM user equipment. Code that changes
things in place is a class with the source's fields and methods; each method is
proved against a specification, and the specification's own properties are
proved as lemmas beside it.

| file | what it holds |
|---|---|
| `TreeShape.dfy`, `TreeHeap.dfy`, `RbTree.dfy` | the red-black tree with parent links: shapes, what linked nodes represent, the operations |
| `List.dfy` | the intrusive doubly linked list |
| `TimerQueue.dfy`, `TimerMgr.dfy` | timers as a schedule, and the manager that keeps them in the tree |
| `QueueProtocol.dfy`, `BlockingQueue.dfy` | the blocking queue as a protocol of many threads, and the ring buffer that refines it |
| `HashModel.dfy`, `HashOrder.dfy`, `HashTable.dfy` | the chained hash table: what it represents, in which order it is walked, the operations |
| `Pool.dfy` | the fixed-size pool on a ring |
| `TlvModel.dfy`, `TlvTree.dfy`, `Tlv.dfy` | type-length-value messages: bytes, linked nodes, the operations |
| `GetoptModel.dfy`, `Getopt.dfy` | the permuting option parser |
| `CalendarTime.dfy` | seconds from broken-down time, NTP stamps |
| `NasCount.dfy` | the 24-bit NAS COUNT (section 4.4.3.1 of 3GPP TS 24.501) |
| `BitBuffer.dfy` | the bit stream, most significant bit first |
| `LargeSum.dfy` | decimal addition for UE identities |
| `Common.dfy` | what several of these share |

How the main models are built:

* **Tree.** Nodes are heap objects. A ghost tree says what they form, and a
  context (the path from the root to a hole) says where a loop is. Insertion
  carries "red below red at the hole", deletion "one black node short at the
  hole"; that the sibling is never NULL follows from the latter. Left and right
  cases are written out separately, as in the source.
* **Timers.** The schedule is a sequence of entries ordered by timeout and then
  by start. A callback is a list of starts and stops; the clock is a parameter.
* **Queue.** Every critical section is one atomic step. Threads may be woken for
  no reason, `pthread_cond_signal` picks any parked thread, and a timeout may be
  reported even to a thread that a signal has already chosen, which POSIX allows.
* **Hash table.** Ghost chains list the entries of each bucket and a directory
  says which entry holds which key. The hash function is a parameter.
* **TLV.** `Bytes` and `Parsed` are independent definitions of the two directions;
  nodes come from a pool whose ring is modelled too.

## Findings

Each has its exact condition, for all inputs, and a concrete case where the
property fails.

* **Reading past a TLV block** (`ogs-tlv.c:222-262, 461-508`). The parser reads an
  element's header before it looks at the block's length. It stays inside the
  block exactly if every element that starts in it, and that the pool has a node
  for, has its whole header there; an empty block is read past its end too.
  Otherwise it reads at most one header too far (`TlvModel.NoOverRead`,
  `OverReadBound`, `CutHeader`). `TlvMessages.TlvPool.ParseBlock` reads exactly that
  far, and accepted blocks are never read past their end (`AcceptedReadsInside`).
* **TLV round trip.** Rendering cuts types, lengths and instances to their field
  widths without a check. Parsing recovers a message exactly if every field fits
  (`TlvModel.RoundTripExact`); type 256 comes back as 0 in mode T1_L1 (`TypeCut`).
* **Lost wakeup in the queue** (`ogs-queue.c:131-143, 226-238`). If a timed wait
  reports a timeout although a signal has chosen its thread, the call returns
  without passing the signal on. In a run no wakeup is ever lost exactly if, at
  each such step, no thread of that side stays parked or the other woken threads
  suffice (`QueueProtocol.NoLostWakeups`). For the callers: no run of a new queue
  loses a wakeup exactly if no call is timed or there are at most two threads
  (`PromptExactly`); with three, an element can lie there while a popper stays
  parked and nobody is woken (`WakeupCanBeLost`).
* **Errors from untimed calls** (`ogs-queue.c:123-156, 218-249`). A call waits once and
  does not loop. While it waits, its wait is spoiled exactly by being woken for no
  reason or by a broadcast while there is nothing for it, or by another thread
  that takes the last element, or free slot, before it has the mutex
  (`QueueProtocol.SpoiledExactly`); it fails exactly if its wait is spoiled when it
  resumes (`SpoiledReturns`).
* **Option groups after a refused option** (`ogs-getopt.c:132-137`). The refusal
  leaves `subopt` as it was while the cursor goes on, so the next call looks as
  far into the next group as it had come in the refused one. If the next argument
  that is not skipped is a group, the call reads inside it, or the zero that ends
  it, exactly if the group has as many options as had been returned, and it reads
  an option exactly if it has more; at the end of the arguments, at `--` and at a
  plain argument that is not skipped it reads nothing (`GetoptModel.AfterRefusal`).
  After `-ab` with `b` refused, the option of `-c` is missed: the terminating zero
  is refused in its place (`RefusedInGroup`). After `-abc` with `c` refused, `-d` is
  read behind its zero (`ReadBeyond`).
* **NAS COUNT estimate.** It is the sender's count exactly if that is at most 255
  after the last one accepted; with 255 messages lost in a row it is the old
  count again (`NasCounts.EstimateExact`, `OneTooMany`).
* **NTP stamps.** A stamp survives the way to UNIX time and back exactly if it is
  not from before 1970, and a time exactly if it is later than one second before
  1970 and before the overflow of 2036 (`CalendarTime.StampReturns`, `TimeReturns`;
  `LostBefore1970`, `LostAfter2036`).

## Model

| member | source | states |
|---|---|---|
| RbTrees.RbTree.Delete | open5gs/lib/core/ogs-rbtree.c:323-372 | deleting any node leaves a red-black tree with right parent links, over the old in-order sequence without exactly that node; no NULL is followed |
| RbTrees.RbTree.DeleteColor | open5gs/lib/core/ogs-rbtree.c:212-321 | from a tree one black node short at the hole, the loop ends with a red-black tree of the same order |
| TreeShape.SiblingExists | open5gs/lib/core/ogs-rbtree.c:219-222 | the sibling of a short black subtree exists and has the black height to lend, so its colour may be read unchecked |
| RbTrees.RbTree.InsertColor | open5gs/lib/core/ogs-rbtree.c:92-210 | after linking a red leaf at any empty link, the fix-up restores every red-black property and the order is the old one with the leaf at that place |
| TreeShape.Grandparent | open5gs/lib/core/ogs-rbtree.c:99-101 | a red parent is never the root and its parent is black, so the assertion on the grandparent holds |
| RbTrees.RbTree.RotateLeft | open5gs/lib/core/ogs-rbtree.c:55-77 | the five link updates of the rotation, on the nodes' fields |
| RbTrees.RbTree.TurnLeft | open5gs/lib/core/ogs-rbtree.c:55-77 | rotating anywhere in a tree leaves the tree with that subtree rotated, in the same order |
| RbTrees.RbTree.LinkNode | open5gs/lib/core/ogs-rbtree.h:52-61 | storing a red leaf through the address of an empty link hangs it into the tree there |
| RbTrees.RbTree.Next | open5gs/lib/core/ogs-rbtree.c:400-416 | the node after a node in the in-order sequence, NULL after the last one and for a node outside any tree |
| RbTrees.RbTree.Prev | open5gs/lib/core/ogs-rbtree.c:418-434 | the node before it in the same sequence, so it undoes `Next` |
| RbTrees.RbTree.First | open5gs/lib/core/ogs-rbtree.c:374-384 | the first of the in-order sequence |
| RbTrees.RbTree.Last | open5gs/lib/core/ogs-rbtree.c:386-396 | the last of it |
| RbTrees.RbTree.Count | open5gs/lib/core/ogs-rbtree.h:106-113 | counting by stepping through gives the number of nodes |
| TreeShape.HeightBound | open5gs/lib/core/ogs-rbtree.c:92-372 | a red-black tree of n nodes is at most 2 log2(n + 1) high |
| Lists.List.InsertSorted | open5gs/lib/core/ogs-list.h:178-193 | the node is linked, both ways, before the first element it compares less than, or at the end |
| Lists.InsertKeepsOrder | open5gs/lib/core/ogs-list.h:175-193 | inserting by ranks keeps a list sorted, the new node behind its equals |
| Lists.List.Remove | open5gs/lib/core/ogs-list.h:127-142 | the list is linked both ways without exactly that element |
| Lists.List.InsertPrev | open5gs/lib/core/ogs-list.h:144-157 | the list is linked both ways with the node just before the given one |
| TimerManager.TimerMgr.FindLink | open5gs/lib/core/ogs-timer.c:40-49 | the descent ends at the empty link behind every timer due no later, after at most 2 log2(n + 1) steps |
| TimerManager.TimerMgr.AddTimerNode | open5gs/lib/core/ogs-timer.c:30-53 | the tree then lists the schedule with the new entry behind all entries due no later |
| TimerManager.TimerMgr.Start | open5gs/lib/core/ogs-timer.c:109-124 | a timer is in the tree exactly if `running` is set; the schedule has the timer once, with its new timeout |
| TimerManager.TimerMgr.Stop | open5gs/lib/core/ogs-timer.c:126-138 | the schedule without the timer, whether it was running or not |
| TimerManager.TimerMgr.Delete | open5gs/lib/core/ogs-timer.c:97-107 | a deleted timer is stopped and given back |
| TimerManager.TimerMgr.Next | open5gs/lib/core/ogs-timer.c:140-158 | the time until the first timer is due, none if it is due, for ever if there is none |
| TimerManager.TimerMgr.Expire | open5gs/lib/core/ogs-timer.c:160-189 | the timers fired are the due ones of the schedule at the call; the schedule afterwards is what stopping each and running its callback, in turn, makes of it |
| TimerQueue.DueInOrder | open5gs/lib/core/ogs-timer.c:170-179 | the batch is exactly the due timers, each once, by timeout and ties in start order |
| TimerQueue.ExpiryRound | open5gs/lib/core/ogs-timer.c:181-188 | a fired timer runs afterwards exactly if its own callback re-armed it last, then with that timeout; what no callback names is as it was |
| TimerQueue.RunOrderly | open5gs/lib/core/ogs-timer.c:97-189 | in every run of starts, stops and expiries the schedule is in strict firing order with one entry a timer |
| QueueProtocol.EveryRun | open5gs/lib/core/ogs-queue.c:113-307 | in every interleaving the queue is bounded, first in first out, its waiter counters count the waiting threads, and nobody is parked once termination is complete |
| QueueProtocol.NoLostWakeups | open5gs/lib/core/ogs-queue.c:113-265 | no wakeup is lost in any state of a run exactly if no late timeout takes one that is needed |
| QueueProtocol.LateExactly | open5gs/lib/core/ogs-queue.c:130-143 | a timeout reported to a woken thread keeps the invariant exactly if nobody of its side is parked or the other woken ones suffice |
| QueueProtocol.UntimedRun | open5gs/lib/core/ogs-queue.c:134-138 | if every call waits for ever or not at all, no wakeup is lost in any interleaving |
| QueueProtocol.WakeupCanBeLost | open5gs/lib/core/ogs-queue.c:226-238 | with three threads, a run from a new queue ends with an element lying there, a popper parked and nobody woken to take it |
| QueueProtocol.PromptExactly | open5gs/lib/core/ogs-queue.c:113-265 | no run of a new queue loses a wakeup exactly if no call is timed or there are at most two threads |
| QueueProtocol.ParkedForAReason | open5gs/lib/core/ogs-queue.c:218-239 | while no wakeup is lost, a thread that stays parked with nobody woken on its side has nothing to take |
| QueueProtocol.LogsGrow | open5gs/lib/core/ogs-queue.c:158-162 | over a run, what was popped and what is left is what was pushed, in push order |
| QueueProtocol.NextHonest | open5gs/lib/core/ogs-queue.c:158-170 | a call reports success exactly when its own element went in or came out in that step |
| QueueProtocol.ClosedForEver | open5gs/lib/core/ogs-queue.c:295-307 | once a termination has completed, nobody is parked and nobody parks again, in every continuation |
| QueueProtocol.CallsReturn | open5gs/lib/core/ogs-queue.c:240-249 | from then on every call returns within three own steps: one is always enabled, each brings it nearer, and other threads do not hold it up |
| QueueProtocol.ParksExactly | open5gs/lib/core/ogs-queue.c:123-138 | a step parks a thread exactly if it enters, finds nothing there, has a timeout other than 0, and the queue is not terminated; its wait is timed exactly for a positive timeout |
| QueueProtocol.ReportsExactly | open5gs/lib/core/ogs-queue.c:123-170 | which result ends a call, each with its exact condition: `OGS_RETRY` for a try that finds nothing, the timeout after an expired wait, `OGS_DONE` or `OGS_ERROR` when turned away, success otherwise |
| QueueProtocol.ExpiresExactly | open5gs/lib/core/ogs-queue.c:130-143 | a wait expires exactly by a timeout, and only if it is timed |
| QueueProtocol.TriesNeverWait | open5gs/lib/core/ogs-queue.c:183-186 | calls with the timeout 0 never wait, in any interleaving |
| BlockingQueue.Queue.CallStep | open5gs/lib/core/ogs-queue.c:117-119 | the test of the flag before the lock is the protocol's step |
| QueueProtocol.OwnStep | open5gs/lib/core/ogs-queue.c:113-307 | in any state, a thread that is neither idle nor parked has a step of its own to take |
| QueueProtocol.SpoiledExactly | open5gs/lib/core/ogs-queue.c:128-146 | a wait without a timeout is spoiled by a step exactly if that wakes it in vain, or takes the last element or slot from it |
| QueueProtocol.SpoiledReturns | open5gs/lib/core/ogs-queue.c:145-170 | when it resumes it comes back with `OGS_ERROR`, or `OGS_DONE` after a termination, exactly if its wait is spoiled, and with success otherwise |
| QueueProtocol.ErrorHasCause | open5gs/lib/core/ogs-queue.c:217-249 | over a run, a call without a timeout fails only if its wait is spoiled in the run |
| BlockingQueue.Queue.PushEnter | open5gs/lib/core/ogs-queue.c:121-171 | from the lock to the unlock or the wait, the protocol's step; a full queue gives `OGS_RETRY` for timeout 0, a wait, timed exactly for a positive timeout, if it is not terminated, and leaves the elements; otherwise the element is the last one |
| BlockingQueue.Queue.PushResume | open5gs/lib/core/ogs-queue.c:139-171 | from the end of the wait to the unlock, the protocol's step: the timeout is reported and nothing changes, a full queue turns the call away, otherwise the element is the last one; one waiter less |
| BlockingQueue.Queue.PopEnter | open5gs/lib/core/ogs-queue.c:215-265 | the same for pops: `OGS_RETRY`, wait or turn away on an empty queue, otherwise the first element |
| BlockingQueue.Queue.PopResume | open5gs/lib/core/ogs-queue.c:234-265 | the same for a pop after its wait |
| BlockingQueue.Queue.GiveUpStep | open5gs/lib/core/ogs-queue.c:146-155 | after the unlock, a call that found nothing to do returns `OGS_DONE` or `OGS_ERROR` by the flag |
| BlockingQueue.Queue.InterruptAll | open5gs/lib/core/ogs-queue.c:282-293 | waking everybody is the protocol's step |
| BlockingQueue.Queue.TermFlag | open5gs/lib/core/ogs-queue.c:297-304 | the first critical section of a termination is the protocol's step |
| BlockingQueue.Queue.TermBroadcast | open5gs/lib/core/ogs-queue.c:306-306 | so is the second, the broadcast |
| HashTables.HashTable.Set | open5gs/lib/core/ogs-hash.c:325-353 | the table stands for the map with the binding set or removed; a deleted entry goes to the front of the free list and a new one is taken from there; the buckets double exactly if there are more entries than `max`; `max + 1` stays a power of two and the load at most `max` |
| HashTables.HashTable.Get | open5gs/lib/core/ogs-hash.c:309-323 | the value bound to the key, or none |
| HashTables.HashTable.GetOrSet | open5gs/lib/core/ogs-hash.c:355-375 | an existing binding is kept and returned, a missing one made, with a recycled entry if there is one; the buckets double exactly on overload |
| HashTables.HashTable.ExpandArray | open5gs/lib/core/ogs-hash.c:187-203 | relinking the chains while the table's own iterator walks them keeps every key, hash and value, and a valid table of twice the buckets |
| HashTables.HashTable.CheckLoad | open5gs/lib/core/ogs-hash.c:346-349 | the buckets double exactly if there are more entries than `max`, and the map is as before |
| HashTables.HashTable.Next | open5gs/lib/core/ogs-hash.c:123-136 | the entries an iterator has ahead come in order, one a call, until there is none |
| HashTables.HashTable.Clear | open5gs/lib/core/ogs-hash.c:383-391 | deleting under the cursor ends with an empty table, and the free list gets every former entry, the last one met first |
| HashTables.HashTable.Do | open5gs/lib/core/ogs-hash.c:401-424 | true exactly if the callback accepts every binding; it sees the entries in order up to the first it refuses |
| HashTables.HashTable.Count | open5gs/lib/core/ogs-hash.c:377-381 | the count is the size of the map |
| HashOrder.OrderExact | open5gs/lib/core/ogs-hash.c:123-151 | a walk meets each live entry exactly once, and with them every key |
| HashOrder.OrderIsLive | open5gs/lib/core/ogs-hash.c:123-151 | an entry is met exactly if it holds a binding |
| HashModel.MaskIsRemainder | open5gs/lib/core/ogs-hash.c:282-283 | masking with one less than a power of two is the remainder by it |
| HashModel.BucketIsRemainder | open5gs/lib/core/ogs-hash.c:282-283 | the bucket of a hash is its remainder by the number of buckets |
| Pools.Pool.Alloc | open5gs/lib/core/ogs-pool.h:132-141 | the node that has waited longest becomes live, or NULL when none waits; live nodes and `avail` add up to the size |
| Pools.Pool.Free | open5gs/lib/core/ogs-pool.h:143-150 | a live node becomes the last to wait |
| Pools.Pool.Find | open5gs/lib/core/ogs-pool.h:152-154 | the node with an index if it is live, otherwise NULL |
| Pools.ReissuedLast | open5gs/lib/core/ogs-pool.h:132-150 | in any run, a node given back is issued again only after every node waiting at that moment, in their order |
| Pools.RunKeeps | open5gs/lib/core/ogs-pool.h:132-150 | over any run the nodes are split into live and waiting ones, each waiting once |
| Pools.RandomIds | open5gs/lib/core/ogs-pool.h:186-197 | whatever the random numbers, the ids are a rearrangement of 1 to the size |
| Pools.AnyArrangement | open5gs/lib/core/ogs-pool.h:186-197 | every arrangement of the ids comes out for some random numbers |
| Pools.ShuffledOnce | open5gs/lib/core/ogs-pool.h:191-196 | two runs give the same arrangement exactly if they choose the same place at every step, so none is favoured |
| Pools.IdsOnce | open5gs/lib/core/ogs-pool.h:186-209 | so each id occurs exactly once |
| TlvModel.RoundTripExact | open5gs/lib/core/ogs-tlv.c:167-262 | for a message of one mode and any depth, parsing its bytes and then each embedded value recovers it exactly if every field fits its header |
| TlvModel.WireRendered | open5gs/lib/core/ogs-tlv.c:167-220 | where each field of a rendered element stands in each mode, the high octet first and cut to its width, and then the value and the next elements |
| TlvModel.WireParsed | open5gs/lib/core/ogs-tlv.c:222-262 | every element of an accepted block has the type, length, instance and value that stand at its start, the high octet first |
| TlvModel.OneElement | open5gs/lib/core/ogs-tlv.c:187-220 | type 1, instance 0 and value 9 in mode T1_L2_I1 are the octets 1, 0, 1, 0, 9, both ways |
| TlvMessages.TlvPool.FrontOnWire | open5gs/lib/core/ogs-tlv.c:405-436 | what is rendered first of a message is what the fields of its first node say |
| TlvModel.TypeCut | open5gs/lib/core/ogs-tlv.c:167-185 | a message of type 256 in mode T1_L1 comes back as type 0 |
| TlvModel.RenderAgain | open5gs/lib/core/ogs-tlv.c:439-520 | a block that is accepted renders to itself again, with the spare half of each instance octet cleared |
| TlvModel.RendersToItself | open5gs/lib/core/ogs-tlv.c:439-520 | in the modes without an instance it renders to the identical octets |
| TlvModel.AcceptedIsWhole | open5gs/lib/core/ogs-tlv.c:475-517 | only non-empty blocks that the elements fill exactly are accepted |
| TlvModel.NoOverRead | open5gs/lib/core/ogs-tlv.c:222-262 | with any number of free nodes, the parser never reads past the block exactly if the headers of the elements that start in it, as far as there are nodes, are inside |
| TlvModel.OverReadBound | open5gs/lib/core/ogs-tlv.c:475-508 | in any case it reads at most one header past the end |
| TlvModel.CutHeader | open5gs/lib/core/ogs-tlv.c:461-461 | a block of one octet in mode T1_L1 is read to the second octet, if there is a node |
| TlvModel.CutValue | open5gs/lib/core/ogs-tlv.c:510-517 | a block whose last value is cut off is refused without being read past its end |
| TlvModel.AcceptedReadsInside | open5gs/lib/core/ogs-tlv.c:439-520 | an accepted block, so any rendered message whose fields fit, is never read past its end, whatever lies behind it |
| TlvTree.AddFull | open5gs/lib/core/ogs-tlv.c:331-339 | hanging a node behind the tail known to the head of a node's list keeps all links, heads and tails of the whole message right |
| TlvTree.AddedLast | open5gs/lib/core/ogs-tlv.c:331-339 | the list of the given node has got the new node as its last element |
| TlvTree.EmbeddedLast | open5gs/lib/core/ogs-tlv.c:393-400 | the list a node embeds has got the new node as its last element |
| TlvTree.Climb | open5gs/lib/core/ogs-tlv.c:292-304 | the `parent` of the head of a node's list is one level up, and there is none exactly at the top |
| TlvMessages.TlvPool.Add | open5gs/lib/core/ogs-tlv.c:306-341 | the message with one element more at the end of the list of any of its nodes, or a new message; the new node has the given fields, other nodes are untouched |
| TlvMessages.TlvPool.Embed | open5gs/lib/core/ogs-tlv.c:367-403 | the message with one element more at the end of the list a node embeds; the new node has the given fields |
| TlvMessages.TlvPool.FindRoot | open5gs/lib/core/ogs-tlv.c:292-304 | from any node of a built message, the head of the top list |
| TlvMessages.TlvPool.CalcLength | open5gs/lib/core/ogs-tlv.c:112-149 | the size of the message; every node that embeds a list, at every depth, then holds that list's size, nothing else is written, and a built message stays one |
| TlvMessages.TlvPool.Render | open5gs/lib/core/ogs-tlv.c:405-436 | writes exactly the bytes of the message, as many as the calculated length and no others; its bound check never fails; a built message stays one |
| TlvMessages.TlvPool.ParseBlock | open5gs/lib/core/ogs-tlv.c:439-520 | new nodes for the elements exactly if the block is whole elements and the pool suffices, otherwise NULL and the pool as it was; the first node has the fields at the front of the block; how far the memory is read |
| TlvMessages.TlvPool.ParseEmbedded | open5gs/lib/core/ogs-tlv.c:522-527 | the value of a leaf parsed in its turn, in the memory it is in; the whole message with the new list in its place is linked right and can be freed as one; on failure the pool is as it was |
| TlvMessages.TlvPool.FreeAll | open5gs/lib/core/ogs-tlv.c:68-81 | every node of a message, at every depth, goes back to the pool once |
| Getopts.Getopt.Next | open5gs/lib/core/ogs-getopt.c:103-171 | one call returns the first option from the cursor on, `optopt` and `optarg` with it; the arguments behind the cursor and those it used are as specified, and `argv` is rearranged accordingly |
| Getopts.Getopt.Permute | open5gs/lib/core/ogs-getopt.c:81-88 | the skipped argument is moved behind the ones used |
| Getopts.Getopt.ParseAll | open5gs/lib/core/ogs-getopt.c:103-171 | the caller's loop ends, keeps `argv` a permutation, finds what a scan from left to right finds, and leaves exactly the plain arguments in their order; with one option `c:`, the arguments `-c` and f give `c` with f |
| GetoptModel.StepScans | open5gs/lib/core/ogs-getopt.c:116-126 | a call finds the first thing the scan finds, and rearranges so that the scan finds the rest |
| GetoptModel.ScanLeavesPlain | open5gs/lib/core/ogs-getopt.c:103-171 | a scan without a fault leaves the arguments that are neither options nor taken by one, in their order |
| GetoptModel.Colons | open5gs/lib/core/ogs-getopt.c:90-101 | behind the first occurrence of an option no colon means a flag, one colon a required and two an optional argument |
| GetoptModel.UnknownExactly | open5gs/lib/core/ogs-getopt.c:93-97 | an option is unknown exactly if it is the colon or does not occur before the end of the string |
| GetoptModel.ArgumentTaken | open5gs/lib/core/ogs-getopt.c:146-160 | a required argument is the rest of the group or else the next argument, whatever it is; without one the option is refused |
| GetoptModel.OptionalTaken | open5gs/lib/core/ogs-getopt.c:161-168 | an optional argument is the rest of the group, never the next argument |
| GetoptModel.FlagTaken | open5gs/lib/core/ogs-getopt.c:138-145 | a flag takes nothing, and a group that starts with one is the flag and the others in a group of their own |
| GetoptModel.PlainScanned | open5gs/lib/core/ogs-getopt.c:65-79 | arguments without a hyphen, a lone hyphen and long options are plain, and `--` ends the options |
| GetoptModel.AfterRefusal | open5gs/lib/core/ogs-getopt.c:132-137 | after an invalid option, exactly when the next call reads inside an argument or its terminating zero, and exactly when it reads an option, in terms of the arguments behind the refused one |
| GetoptModel.ZeroRefused | open5gs/lib/core/ogs-getopt.c:127-137 | a call refuses the terminating zero as an option exactly if it is not at an option |
| GetoptModel.RefusedInGroup | open5gs/lib/core/ogs-getopt.c:132-137 | after `-ab` with `b` unknown the option of `-c` is missed and a zero refused instead |
| GetoptModel.ReadBeyond | open5gs/lib/core/ogs-getopt.c:132-137 | after `-abc` with `c` unknown the next call reads behind the zero of `-d` |
| GetoptModel.RefusedAtEnd | open5gs/lib/core/ogs-getopt.c:111-126 | at the end, before `--`, and before a plain argument that stops the parser, the next call is a plain end |
| CalendarTime.ClosedForm | open5gs/lib/core/ogs-time.c:142-151 | for every date from 1970 on, the closed form that starts years in March is the sum of the lengths of the years and months |
| CalendarTime.CalendarIs | open5gs/lib/core/ogs-time.c:136-149 | the lengths of the twelve months and the leap years that are counted |
| CalendarTime.KnownInstants | open5gs/lib/core/ogs-time.c:132-160 | the epoch, an instant of a leap day, the last second of 31 bits, and one of the year 2100 |
| CalendarTime.FromLt | open5gs/lib/core/ogs-time.c:132-160 | for every date and time from 1970 on the microseconds since 1970; of the dates of the calendar, of any year, an error exactly for those before 1970 |
| CalendarTime.BeforeEpoch | open5gs/lib/core/ogs-time.c:149-156 | the closed form is negative for every date before 1970, also where division rounds towards zero |
| CalendarTime.StrictlyIncreasing | open5gs/lib/core/ogs-time.c:132-160 | of two valid times the later one gives the larger result, and only it |
| CalendarTime.StampReturns | open5gs/lib/core/ogs-time.c:193-202 | an NTP stamp comes back exactly if it is not from before 1970 |
| CalendarTime.TimeReturns | open5gs/lib/core/ogs-time.c:193-202 | a time comes back in whole seconds exactly if it is after the second before 1970 and before the overflow in 2036 |
| CalendarTime.OffsetIsEpoch | open5gs/lib/core/ogs-time.c:170-182 | the NTP offset is what the closed form counts back to 1 January 1900 |
| CalendarTime.EpochShift | open5gs/lib/core/ogs-time.c:193-202 | seconds since 1970 are stamped 2208988800 later, and the other way round |
| CalendarTime.LostBefore1970 | open5gs/lib/core/ogs-time.c:195-196 | the first and the last stamp before 1970 both come back as 1970 |
| CalendarTime.LostAfter2036 | open5gs/lib/core/ogs-time.c:199-202 | the first second that overflows comes back as 1970 |
| NasCounts.EstimateExact | UERANSIM/src/ue/types.hpp:441-451 | the estimate from the sequence number is the sender's count exactly if that is at most 255 after the last one, around the modulus |
| NasCounts.NasSecurityContext.EstimatedDownlinkCount | UERANSIM/src/ue/types.hpp:441-451 | the method returns it, without changing the context |
| NasCounts.RunFollowed | UERANSIM/src/ue/types.hpp:435-451 | if at most 254 messages in a row are lost, every estimate of a run is the sender's count |
| NasCounts.OneTooMany | UERANSIM/src/ue/types.hpp:441-451 | with 255 lost the estimate is the old count again |
| NasCounts.NasSecurityContext.CountOnEncrypt | UERANSIM/src/ue/types.hpp:453-458 | the next 24-bit number, around the modulus |
| NasCounts.NasSecurityContext.RollbackCountOnEncrypt | UERANSIM/src/ue/types.hpp:460-475 | the 24-bit number before, so it undoes an encryption's count |
| NasCounts.RunCounts | UERANSIM/src/ue/types.hpp:453-475 | over any run the count is the start plus encryptions less rollbacks, modulo 2^24 |
| BitBuffers.BitBuffer.WriteAll | UERANSIM/src/utils/bit_buffer.hpp:86-124 | any list of fields and alignments leaves its stream of bits from the index on, and changes no other bit |
| BitBuffers.BitBuffer.ReadAll | UERANSIM/src/utils/bit_buffer.hpp:46-72 | reading the same widths from there gives each value modulo two to its width, and changes nothing |
| BitBuffers.StreamReadBack | UERANSIM/src/utils/bit_buffer.hpp:46-106 | the same round trip on streams of bits, whatever follows them |
| BitBuffers.BitBuffer.WrittenOctets | UERANSIM/src/utils/bit_buffer.hpp:111-114 | the number of octets that have a bit before the index |
| BitBuffers.BitBuffer.Write | UERANSIM/src/utils/bit_buffer.hpp:74-84 | exactly one bit of the buffer changes; the octet changes by the weight of the bit, 128 for the first |
| BitBuffers.BitBuffer.WriteBits | UERANSIM/src/utils/bit_buffer.hpp:86-106 | the digits of the value overwrite the bits from the index on; whole octets then stand for the value modulo two to the width, the most significant first |
| BitBuffers.BitBuffer.Read | UERANSIM/src/utils/bit_buffer.hpp:38-44 | the next bit, the most significant one of an octet first |
| BitBuffers.BitBuffer.ReadBits | UERANSIM/src/utils/bit_buffer.hpp:46-72 | the number the bits stand for, which for whole octets is the number the octets stand for |
| BitBuffers.OctetValue | UERANSIM/src/utils/bit_buffer.hpp:38-58 | the bits of an octet, read in order, are its value |
| BitBuffers.OctetsWritten | UERANSIM/src/utils/bit_buffer.hpp:86-106 | eight bits at an octet boundary are that octet, and sixteen the two octets with the first one weighing 256 |
| BitBuffers.BitsFromTheLeft | UERANSIM/src/utils/bit_buffer.hpp:74-84 | setting the first bit of a zero octet makes 0x80, setting the last one 0x01 |
| LargeSums.LargeSum | UERANSIM/src/ue.cpp:315-343 | the numeral of the exact sum with as many digits as the longer number, or the exception exactly if it needs more |
| LargeSums.OnlySum | UERANSIM/src/ue.cpp:315-343 | there is only one such result: the sum padded with zeros |
| LargeSums.NumeralOrder | UERANSIM/src/ue.cpp:326-338 | numerals of one length stand for numbers in the order of the strings |
| LargeSums.DigitOrder | UERANSIM/src/ue.cpp:329-330 | digits are ordered as characters are, from 0 to 9 |
| LargeSums.TenDigits | UERANSIM/src/ue.cpp:326-338 | the numeral 1234567890 stands for that number |
| LargeSums.SmallSums | UERANSIM/src/ue.cpp:326-342 | 12 and 1 make 13, 19 and 1 make 20, and 99 and 1 overflow |
| LargeSums.ToString | UERANSIM/src/ue.cpp:345-348 | the numeral of an index: one character from 0 to 9, or several without a zero in front |
| LargeSums.IncrementNumber | UERANSIM/src/ue.cpp:345-348 | the same for adding an index |
| LargeSums.DistinctIdentities | UERANSIM/src/ue.cpp:378-383 | UEs with different indices get different identities; the identity keeps its length while the index has no more digits than it |
| LargeSums.IncrementTwice | UERANSIM/src/ue.cpp:345-348 | without an overflow in between, adding twice is adding the sum |

## Left out

- Widths of machine integers: times, timeouts, queue and table sizes, waiter
  counters and TLV lengths are unbounded; wrap-around is modelled where it is the
  point (NAS COUNT, NTP stamps, header fields, bits).
- Allocation that fails, `ogs_malloc` and talloc: new objects are always there.
- Container macros: the tree node and the list node embedded in a timer are
  fields of the timer object.
- TimerManager.TimerMgr.Add: timers come from a counter of free objects and are new objects, because which
  object of the pool it is makes no difference to the schedule.
- TimerQueue.ExpiryRound: callbacks that stop or start another timer of the same batch are excluded, as the
  source's own comment asks callers not to delete timers there; `Expire` itself
  is stated for them too.
- TimerManager.TimerMgr.Expire: callbacks are lists of starts and stops; callbacks that add or delete timers
  are not modelled.
- QueueProtocol.EveryRun: errors of the threads library other than a timeout are left out, and the clock:
  when a timed wait ends is free.
- BlockingQueue.Queue.PushEnter: a signal sent while threads are parked wakes one of them; waking more than one
  is covered by wakeups for no reason.
- `ogs_queue_destroy`, `ogs_queue_size`, and the test of `terminated` without the
  lock as a data race: it is one atomic step.
- Hash keys are sequences compared by value; `OGS_HASH_KEY_STRING`, the default
  times-33 hash function and its random seed are left out, any hash function is
  allowed.
- `ogs_hash_destroy`, `ogs_hash_this`: they read fields or free memory.
- The `ht` field of an iterator: the table is the receiver of the method.
- Pool ids and their hash (`ogs_pool_id_calloc` and the like), `OGS_NEXT_ID` is not
  part of this model; `ogs_pool_final` and `ogs_pool_create`.
- TLV values are sequences of octets taken at the time of adding or parsing, not
  pointers into somebody's buffer; `ogs_tlv_copy` and the message's own buffer,
  `ogs_tlv_find`, `ogs_tlv_calc_count`, fixed-length elements and
  `ogs_tlv_value_8` to `_32`.
- TlvMessages.TlvPool.ParseBlock: the memory behind the block is a parameter, and what the parser reads of it
  must exist; a value that reaches beyond known memory reads as zeros there.
- TlvMessages.TlvPool.ParseEmbedded: what lies behind the value in memory is a parameter, because values are not
  pointers into a buffer here.
- `ogs_getopt_long`, error texts, and `ogs_getopt_arg`.
- Getopts.Getopt.ParseAll: ends at the first fault, because a further call is not always safe; a call that
  would read beyond the zero of an argument is outside `Getopts.Getopt.Next`, and strings are what is before a zero.
- CalendarTime.FromLt: `ogs_time_from_gmt`, which subtracts the offset of the zone, is left out.
- `BitBuffer::peek`, which numbers the bits of an octet from the other end.
- BitBuffers.BitBuffer.ReadBits: stands for both readers, which differ in the width of the result only.
- NAS ciphering, integrity and replay lists around the counts.
- LargeSums.LargeSum: strings with other characters than digits, and negative indices.
- The other fields `GetConfigByUe` copies.
