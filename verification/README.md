# Verified models of the shared C library

This project models the parts of the repository whose correctness is hardest to see, and proves what they
are for. The source is C that changes records, words and buffers in place; the models keep that form, as
classes, arrays and loops, and prove each method against functions and predicates whose own properties are
proved beside them. `dafny verify dfyconfig.toml` checks everything.

**Red-black tree** (`Rb*.dfy`). `RbShape` defines trees, paths (zippers), validity and augmented values.
`RbInsertSpec`, `RbEraseSpec` and `RbUnlinkSpec` say what insertion, erasing and unlinking make of a tree,
and prove that this is valid, has the right in-order sequence and the right values. `RbHeap`, `RbRotate`,
`RbUnlinkHeap` and `RbFrame` are about the memory that holds the nodes; `RbTree` is the imperative code over
that memory.
`RbOrder` has positions, walks and the height bound. The two mirror images of every case in the source are
one case here, for a side d. (`Powers` and `Sequences` are shared by all parts.)

**Timer queue and timers** (`Timer*.dfy`). `TimerOrder` defines the order of the queue and shows that it is
the stable sort of the arrivals. `TimerQueue` is the queue over the tree with its cached first node.
`TimerSpec` is the state machine of timers, with whole runs and the theorems about them, and `TimerFate` follows
each timer for itself, without a queue; `Timers` refines the state machine.
A callback is an arbitrary sequence of starts, updates, stops and additions, and the clock is an input.

**Packets** (`Checksum.dfy`, `PacketSpec.dfy`, `Packet.dfy`). `Checksum` shows that the table-driven checksum is the
remainder of a long division. `PacketSpec` is a simple decoder of streams:
look for the first valid header, take its packet, go on behind it. `Packet` is the code with its two buffers
and arbitrary short reads, proved to deliver what the simple decoder delivers; and the sender.

**Records** (`RecordSort.dfy`, `UidSpec.dfy`, `UidIndex.dfy`). The two sorts, and the hash table of uids.

**Bitmaps** (`Words.dfy`, `Bitmap.dfy`, `FindBit.dfy`, `ZeroArea.dfy`, `Regions.dfy`,
`BitOps.dfy`, `SetClear.dfy`, `Hweight.dfy`, `Ranks.dfy`, `Remap.dfy`, `Hex*.dfy`/`BitmapHex.dfy`,
`List*.dfy`/`BitmapList.dfy`, `Grammar.dfy`). `Words` relates the operations on 64-bit words to single bits; all else is
stated in terms of the set of bit positions. `Grammar`, `HexGrammar` and `ListGrammar` say which texts the two parsers
accept, and what these mean, in terms of characters and fields alone.

Where the code and its documentation differ, the models follow the code:

- `bitmap_parselist` reads an empty list as bit 0; `ListVerdict.ListRoundTripExactly` says that the round
  trip works for all other bitmaps and only for them.
- A list is documented as decimal numbers and ranges separated by commas (src/bitmap.c:565-575). The code takes 0
  for a number that is missing, does not notice a comma at the end, and lets numbers wrap around at 2^32 before it
  compares them as signed. `ListVerdict.DocumentedExactly` says exactly on which texts it does what the
  documentation says, and `ListVerdict.WithinMaskExactly` on which it sets no bit beyond the bitmap. White space
  before the first number and after the last, which the code passes over, is taken to be allowed.
- The hex parser does not notice a comma at the end either; its documentation (src/bitmap.c:403-408) calls missing
  chunks a grouping error. `HexVerdict.HexDocumentedExactly` says exactly when that makes a difference.
- `make_uid_hashtable` (src/record/record.c:862-874) means to report a full table, but compares a counter that
  ends at 128 with 256; a record that finds no bucket is silently not indexed. `UidSpec.TableExact` says which.
- A uid of fewer than fifteen characters is hashed with bytes beyond its end. The index agrees with a linear
  filter if and only if records with equal uids are hashed equally all the same (`UidSpec.FindsAllExactly`);
  `UidSpec.ShortUidSplits` shows what happens otherwise.
- `quick_sort` may move its pivot while partitioning, so its partitions need not be exact
  (`RecordSort.Sorter.Partition`); the final insertion pass makes the result sorted all the same.
- The documentation of `bitmap_remap` says that it copies when source and destination are the same; both the
  code and the model do nothing, which is the same thing.

## Model

| member | source | states |
|---|---|---|
| RbShape.RotateUpInorder | src/rbtree.c:142-156 | A rotation that lifts a child above its parent keeps the in-order sequence |
| RbShape.SwapInorder | src/rbtree.c:117-140 | So does the rotation that puts the inner child in its parent's place |
| RbShape.RotateUpAugOk | include/rbtree_augmented.h:83-90 | A rotation that copies the old root's value to the new root and recomputes the old root's keeps every value right, for any associative summary |
| RbShape.PlugValid | src/rbtree.c:24-40 | A subtree of the right black height, below a path that fits it, makes a valid red-black tree |
| RbShape.PlugValidInverse | src/rbtree.c:24-40 | Conversely, every cut through a valid tree gives such a subtree and such a path |
| RbShape.Summary.AugOkMeansOf | include/rbtree_augmented.h:62-75 | Values that are locally right are the summaries, from left to right, of whole subtrees |
| RbShape.Summary.EveryAugIsSummary | include/rbtree_augmented.h:62-93 | In a tree whose values are right, the value of any node, wherever it stands, is the summary of its subtree in order |
| RbInsertSpec.InsertFixInorder | src/rbtree.c:71-194 | The insertion fix-up does not change the in-order sequence |
| RbInsertSpec.InsertFixValid | src/rbtree.c:77-89 | Starting from a tree whose only fault is a red node below a possibly red parent, the fix-up ends in a valid tree |
| RbInsertSpec.FitsBlackTop | src/rbtree.c:91 | A red parent always has a parent of its own, so that the grandparent may be read |
| RbInsertSpec.InsertFixAugOk | src/rbtree.c:131-157 | The fix-up keeps all values right |
| RbEraseSpec.AfterRaiseDeficient | src/rbtree.c:216-233 | Case 1 keeps the deficit of one black node where it is, below a red parent and beside a black sibling |
| RbEraseSpec.RecolourDeficient | src/rbtree.c:237-264 | Case 2 moves the deficit to the parent, and removes it if the parent was red |
| RbEraseSpec.RotateNearBalanced | src/rbtree.c:265-307 | Cases 3 and 4 with a red inner nephew restore the black height on all paths |
| RbEraseSpec.EraseFixInorder | src/rbtree.c:200-360 | The erase fix-up does not change the in-order sequence |
| RbEraseSpec.EraseFixValid | src/rbtree.c:206-213 | From a tree that lacks one black node on the paths through one subtree, the fix-up ends in a valid tree |
| RbEraseSpec.EraseFixAugOk | src/rbtree.c:226-306 | The erase fix-up keeps all values right |
| RbUnlinkSpec.PropagateAugOk | include/rbtree_augmented.h:64-75 | Stopping the upward recomputation at the first value that does not change leaves every value right |
| RbUnlinkSpec.UnlinkInorder | include/rbtree_augmented.h:135-230 | All three ways of unlinking a node remove it, and nothing else, from the in-order sequence |
| RbUnlinkSpec.UnlinkValid | include/rbtree_augmented.h:143-226 | Unlinking leaves a valid tree, or one that lacks a single black node exactly where the fix-up is then started |
| RbUnlinkSpec.UnlinkAugOk | include/rbtree_augmented.h:206-228 | After copying and propagating, all values are right again |
| RbUnlinkSpec.EraseCorrect | src/rbtree.c:389-395 | Erasing any node of a valid tree gives a valid tree whose sequence is the old one without that node |
| RbUnlinkSpec.EraseAugOk | include/rbtree_augmented.h:232-239 | ... in which all values are right |
| RbOrder.InorderSplit | src/rbtree.c:437-466 | The in-order sequence around a subtree is what lies before its path, the subtree, and what lies after |
| RbOrder.LinkedBeside | include/rbtree.h:82-89 | A leaf linked to the left (right) of a node comes directly before (after) it in order |
| RbOrder.NeighbourOf | src/rbtree.c:444-465 | The neighbour of a node in order is the near end of its subtree on that side, or else of what lies beyond |
| RbOrder.HeightBound | src/rbtree.c:36-39 | The height h of a valid tree of n nodes satisfies 2^h <= (n+1)^2 |
| RbOrder.PostorderChildrenFirst | src/rbtree.c:531-540 | In the postorder walk a node comes directly after the walks of its two subtrees |
| RbOrder.PostNeighbour | src/rbtree.c:524-540 | The node after a given one in postorder is the first of what follows its path |
| RbOrder.PostorderIsPermutation | src/rbtree.c:524-548 | The postorder and the in-order walk visit the same nodes equally often |
| RbTree.RbRoot.constructor | include/rbtree.h:52 | An empty root is a valid tree |
| RbTree.RbRoot.ChangeChild | include/rbtree_augmented.h:119-130 | Exactly the link from the parent (or the root) that held the old node holds the new one |
| RbTree.RbRoot.RotateSetParents | src/rbtree.c:61-69 | The exact new parents, colours and links of the two nodes and of the parent above |
| RbTree.RbRoot.AugmentRotate | include/rbtree_augmented.h:83-90 | The new root gets the old root's value and the old root's value is recomputed; nothing else changes |
| RbTree.RbRoot.Rise | src/rbtree.c:142-157 | The memory effect of one whole rotation: four records change, each as stated |
| RbTree.RbRoot.InsertCase1 | src/rbtree.c:95-115 | Parent and uncle turn black, the grandparent red |
| RbTree.RbRoot.InsertCase2 | src/rbtree.c:117-140 | The memory effect of the rotation at the parent |
| RbTree.RbRoot.InsertRotate | src/rbtree.c:117-157 | After cases 2 and 3 memory holds the rotated tree |
| RbTree.RbRoot.InsertColor | src/rbtree.c:71-194 | The loop terminates, and memory holds the fixed tree |
| RbTree.RbRoot.EraseCase1 | src/rbtree.c:216-233 | After case 1 memory holds the tree with the sibling raised, and the new sibling is returned |
| RbTree.RbRoot.EraseCase2 | src/rbtree.c:252-263 | After case 2 memory holds the recoloured tree, and the colour of the parent is reported |
| RbTree.RbRoot.EraseCase3 | src/rbtree.c:277-285 | The memory effect of the rotation at the sibling |
| RbTree.RbRoot.EraseCase4 | src/rbtree.c:299-306 | The memory effect of the final rotation |
| RbTree.RbRoot.EraseRotate | src/rbtree.c:265-307 | After cases 3 and 4 memory holds the rotated tree |
| RbTree.RbRoot.EraseColor | src/rbtree.c:200-360 | The loop terminates, and memory holds the fixed tree |
| RbTree.RbRoot.PropagateUp | include/rbtree_augmented.h:64-75 | Memory changes exactly by the values on the path up to the first that stays the same |
| RbTree.RbRoot.TakeSuccessor | include/rbtree_augmented.h:167-208 | The successor is found, taken out of its place and given the erased node's right subtree and value |
| RbTree.RbRoot.HandOver | include/rbtree_augmented.h:210-224 | The successor takes over the erased node's parent, colour and left subtree; where to rebalance is returned |
| RbTree.RbRoot.EraseAugmented | include/rbtree_augmented.h:135-230 | Memory holds the tree without the node, and the result says where a black node is missing, if one is |
| RbTree.RbRoot.LinkNode | include/rbtree.h:82-89 | The node becomes a red leaf at the empty slot, and memory holds that tree |
| RbTree.RbRoot.Insert | src/rbtree.c:384-387 | Linking and rebalancing keeps a valid tree and adds exactly the node at the place where it was linked; values stay right; records outside the tree keep their contents |
| RbTree.RbRoot.InsertAugmented | include/rbtree_augmented.h:45-60 | A whole augmented insertion: with the node's own value and those on the way to it brought up to date before rebalancing, all values are right afterwards |
| RbTree.RbRoot.Erase | src/rbtree.c:389-395 | Erasing keeps a valid tree, removes exactly the node, and values stay right; records outside the tree keep their contents |
| RbTree.RbRoot.Extreme | src/rbtree.c:413-435 | The first or last node in order, or NULL |
| RbTree.RbRoot.Neighbour | src/rbtree.c:437-494 | The node next to a given one in order, on either side, or NULL at the end and for a node marked as in no tree; the climb terminates |
| RbTree.RbRoot.FirstPostorder | src/rbtree.c:542-548 | The first node in postorder, or NULL |
| RbTree.RbRoot.NextPostorder | src/rbtree.c:524-540 | The next node in postorder, or NULL |
| RbTree.RbRoot.Walk | src/rbtree.c:413-466 | Going on from the first node to the next visits every node once, in order |
| RbTree.RbRoot.WalkPostorder | src/rbtree.c:512-548 | ... and the postorder walk visits every node once, in postorder |
| RbTree.RbRoot.Clear | include/rbtree.h:58-61 | A node outside the tree is marked as cleared, and the tree stays as it is |
| RbTree.NotCleared | include/rbtree.h:58-61 | A node of the tree never looks cleared |
| TimerOrder.EnqueueSplit | src/timerqueue.c:37-52 | A node goes behind all that expire no later and before all that expire later |
| TimerOrder.ArrangedIsStableSort | src/timerqueue.c:37-58 | After any arrivals the queue is in order of expiry, holds the same nodes, and keeps equal expiries in order of arrival |
| TimerOrder.StableSortUnique | src/timerqueue.c:37-58 | These properties leave no choice: two sequences that have them are the same |
| TimerOrder.ArrangedWithout | src/timerqueue.c:68-80 | Removing a node from the queue is the same as its never having arrived |
| TimerQueue.SubtreeOrdered | src/timerqueue.c:45-51 | What is left of a node in an ordered tree expires no later than it, and what is right no earlier |
| TimerQueue.FirstOfEnqueue | src/timerqueue.c:55-56 | After an addition the first of the queue is the new node exactly if it expires before the old first |
| TimerQueue.TimerQueueHead.FindPlace | src/timerqueue.c:37-52 | The descent ends at the slot that puts the node where the queue's order wants it |
| TimerQueue.TimerQueueHead.Add | src/timerqueue.c:37-58 | The queue becomes the old one with the node in its place; next is its first node; the tree stays valid; nodes outside the queue are left alone |
| TimerQueue.TimerQueueHead.Del | src/timerqueue.c:68-80 | The queue becomes the old one without the node, which is marked as in no tree; next is its first node or NULL; the tree stays valid; other nodes outside the queue are left alone |
| TimerQueue.TimerQueueHead.IterateNext | src/timerqueue.c:91-101 | The node behind a given one in the queue, or NULL; NULL also for NULL and for a node that is marked as not queued |
| TimerQueue.TimerQueueHead.Init | include/timerqueue.h:45-48 | Setting up a node marks it as in no tree and leaves the queue alone |
| TimerSpec.StoppedKeeps | include/timer.h:46-51 | A stopped timer is out of the queue, the others stay, and state and queue agree |
| TimerSpec.StartedKeeps | include/timer.h:53-61 | A started timer is in the queue, with its new expiry, the others stay, and state and queue agree |
| TimerSpec.RunKeeps | src/timer.c:35-53 | Over every run of calls and process_timer, whatever callbacks do: a timer is ENQUEUED if and only if it is in the queue, once, in order; and no timer fires before its expiry |
| TimerSpec.ReturnedNoneDue | src/timer.c:41-46 | When process_timer returns, no queued timer is due at the last clock reading it made |
| TimerSpec.IdleConserves | src/timer.c:41-50 | If callbacks do nothing, the timers that fired followed by those still queued are the old queue |
| TimerSpec.FiresOrStays | src/timer.c:41-50 | A timer that no callback touches either fires or stays queued with the same expiry |
| TimerSpec.DueFires | src/timer.c:41-50 | Every timer that was queued, is due at the last reading and was not touched has fired |
| TimerSpec.ProcessOrder | src/timer.c:41-50 | With a clock that never runs backwards and timeouts that are not negative, one pass fires in order of expiry, and nothing that stays queued expires earlier |
| TimerSpec.RunOrder | src/timer.c:35-53 | Under the same conditions the firings of a whole run are in order of expiry |
| TimerFate.LastDecides | include/timer.h:46-70 | Of a history of firings and calls, only the last thing that happened to a timer decides whether it is pending, and until when |
| TimerFate.PassFate | src/timer.c:35-53 | In one pass, whatever the callbacks do, every timer ends up queued, with its expiry, or not, exactly as the history of firings and calls says for that timer alone |
| TimerFate.RunFate | src/timer.c:35-53 | The same over every run of calls and passes |
| TimerFate.LastDeed | src/timer.c:41-50 | After a pass a timer that was started, updated or added last is queued with the clock reading of that call plus its timeout; one that fired or was stopped last is not queued; one to which nothing happened is as it was |
| TimerFate.PeriodicStays | src/timer.c:48-49 | A timer whose callback starts it again is queued again, one timeout after the reading |
| Timers.Int32Exact | src/timer.c:52 | The conversion of the result to int is exact in the range of int and nowhere else; what is lost is a multiple of 2^32 |
| Timers.TimerList.StopTimer | include/timer.h:46-51 | Does to queue, expiries and states what the state machine's stop does |
| Timers.TimerList.StartTimer | include/timer.h:53-61 | ... its start |
| Timers.TimerList.UpdateTimer | include/timer.h:63-70 | ... its update |
| Timers.TimerList.AddTimer | src/timer.c:14-33 | ... its creation of a timer |
| Timers.TimerList.Fire | src/timer.c:48-51 | One turn of the loop: the first timer leaves the queue, and then its callback's calls take effect; every timer ends up as these deeds say for it alone |
| Timers.TimerList.ProcessTimer | src/timer.c:35-53 | The state machine's processing: same firings, same state, and every timer ends up as the history says for it alone; the result is 1000 for an empty queue, otherwise the time from the last clock reading to the first timer that is not due, or to the expiry of the timer that fired last when the queue has drained |
| Checksum.TableIsCrc | src/crc8.c:5-16 | Every entry of the table is eight steps of the shift register for x^8 + x^2 + x + 1 |
| Checksum.TableInjective | src/crc8.c:5-16 | No two entries are the same |
| Checksum.DivisionAt | src/crc8.c:22-24 | When the long division of a message has come to byte k, what stands there is the checksum of the bytes before it on top of that byte |
| Checksum.CrcIsRemainder | src/crc8.c:18-26 | The checksum is the remainder of the message times x^8 on division by x^8 + x^2 + x + 1 |
| Checksum.CalcCrc8 | src/crc8.c:18-26 | The checksum of a prefix of the buffer, which is the remainder that long division of its bits, times x^8, by x^8 + x^2 + x + 1 leaves |
| Checksum.OneByteChangesCrc | src/crc8.c:18-26 | Changing exactly one byte always changes the checksum |
| PacketSpec.SkipMany | src/packet.c:106-124 | Giving up bytes with which no header can begin changes nothing about the packets of a stream, however it goes on |
| PacketSpec.TakeOne | src/packet.c:126-138 | A complete packet at the front of a stream is its first packet, and decoding goes on behind it |
| PacketSpec.SeekSkips | src/packet.c:106-124 | Looking for the first header gives up only such bytes |
| PacketSpec.PacketsGrow | src/packet.c:83-139 | What has been decoded stays decoded, whatever is received next |
| PacketSpec.TracksAll | src/packet.c:83-139 | Once nothing complete is pending, what was delivered is exactly what the simple decoder makes of the bytes received |
| PacketSpec.EncodedDecodes | src/packet.c:141-160 | A packet as the sender writes it is complete, and its command, length and payload are those that were sent |
| PacketSpec.EncodedBytes | src/protocol.h:5-20 | The bytes on the wire, one by one: the mark, the fields with their low bytes first, the payload |
| PacketSpec.EncodedSum | src/packet.c:154-155 | Byte 10 is the remainder of the ten bytes before it by long division, and byte 11 its complement |
| PacketSpec.WireDecodes | src/packet.c:141-160 | Any packets, each after noise without the mark, decode to exactly these packets in order |
| PacketSpec.FittingPrefix | src/packet.c:83-139 | If no header of a whole stream announces too much payload, none of what has been received of it does |
| PacketSpec.Transmitted | src/packet.c:83-160 | However a transmission is cut into reads, what has been delivered is the front of what was sent, and all of it when all has been received; nothing the sender writes announces too much |
| PacketSpec.Oversized | src/packet.c:83-139 | There are valid headers that announce too much, for every length that two bytes can hold and a packet cannot |
| PacketSpec.OneByteAltered | src/packet.c:106-124 | A header with exactly one of its twelve bytes altered is not accepted |
| Packet.IoContext.Read | src/packet.c:73-79 | A read brings up to the room there is of what comes next, or nothing, or a failure; nothing only if the transport had nothing for now or is at its end, a failure only if it failed |
| Packet.DwPacketContext.constructor | src/packet.c:13-40 | A new context has received and delivered nothing |
| Packet.DwPacketContext.Refill | src/packet.c:71-79 | What is read is staged; when the staging buffer is used up it starts again at its beginning; the transport was asked, and the result is what it said |
| Packet.PlayedMore | src/packet.c:73-79 | Asking again after some of the transport's answers: what it said last is the same seen from the beginning |
| Packet.DwPacketContext.ReadCached | src/packet.c:52-81 | The bytes that were staged and read are those that are now in the packet buffer and staged; fewer than asked for only if nothing is left staged and the last thing that the transport said is that it has nothing; a failure only if it failed, and then everything before the failure was read |
| Packet.DwPacketContext.Receive | src/packet.c:92-99 | A success keeps the stream whole; a failure loses exactly the bytes that were staged and those that the failing call read, and the context goes on as if they had not been in the stream |
| Packet.DwPacketContext.FindMark | src/packet.c:106-112 | No header can begin before the position found |
| Packet.DwPacketContext.Drop | src/packet.c:113-123 | Dropping such bytes keeps the context in step with the stream |
| Packet.DwPacketContext.CheckHeader | src/packet.c:118-119 | The test accepts exactly the valid headers |
| Packet.DwPacketContext.Resync | src/packet.c:106-124 | Twelve bytes are a valid header, or some of them are given up and the context stays in step with the stream |
| Packet.DwPacketContext.Turn | src/packet.c:89-134 | One turn of the loop delivers the next packet, or has less left to do, or ends it for one of the reasons of dw_get_packet, of which having nothing is one only if the transport said so last |
| Packet.DwPacketContext.GetPacket | src/packet.c:83-139 | A positive result delivers the next packet of the stream; zero says that all packets in the stream so far have been delivered and that the transport, asked last, had nothing, so that after reads that all bring something zero means that every packet of all that was to come has been delivered; the model stops only if a valid header of the stream announces more payload than there is room for; a failure means that the transport failed, and loses nothing that had gone into the packet buffer, and all this goes on for the stream without the lost bytes; the loops terminate |
| Packet.DwPacketContext.WriteHeader | src/packet.c:148-155 | The twelve header bytes, with the sequence number one higher modulo 65536 |
| Packet.DwPacketContext.WriteCommandData | src/packet.c:141-160 | Hands the encoded packet to the transport, or returns -1 and does nothing if there are more than 1280 bytes of data; what is being received is not disturbed |
| RecordSort.StackBound | src/record/record.c:575-597 | Disjoint stacked intervals of at least ten slots are never more than a tenth of the slots |
| RecordSort.AfterPush | src/record/record.c:629-639 | Pushing one part of the interval keeps the stacked intervals long, disjoint and apart from the one that goes on |
| RecordSort.Sorter.Push | src/record/record.c:581-587 | The stack grows by the interval |
| RecordSort.Sorter.Pull | src/record/record.c:589-597 | The last interval is taken off, or the stack was empty |
| RecordSort.Sorter.Partition | src/record/record.c:611-627 | The records are permuted within the interval, and up to the middle slot those left of the result are no greater than the pivot's key and those right of it no smaller |
| RecordSort.Sorter.Divide | src/record/record.c:629-641 | The next interval and the stack shrink, the stack never overflows, and it is empty when there is nothing more to do |
| RecordSort.Sorter.Coarse | src/record/record.c:607-642 | The loop terminates, permutes the records, and leaves the stack empty |
| RecordSort.InsertAt | src/record/record.c:645-653 | Record j moves to its place among the sorted records before it |
| RecordSort.Sorter.QuickSort | src/record/record.c:599-657 | Any array ends up sorted, with the same records, and the stack is empty |
| RecordSort.SiftStep | src/record/record.c:676-685 | Moving the greater child up keeps the heap but for the children of the slot it leaves |
| RecordSort.Greater | src/record/record.c:676-679 | The comparison of slots 2i and 2i+1 finds the greater child, and at slot 0, whose first child is itself, is harmless |
| RecordSort.TopIsGreatest | src/record/record.c:670-674 | The top of the heap with parents at half the slot number is the greatest record |
| RecordSort.Sift | src/record/record.c:676-691 | The sift loop restores the heap, permutes the records and leaves the others alone |
| RecordSort.HeapSort | src/record/record.c:659-695 | Any array, the empty one included, ends up sorted with the same records |
| UidSpec.LongHash | src/record/record.c:87-91 | For uids of at least fifteen characters the hash depends on the uid alone |
| UidSpec.LongConsistent | src/record/record.c:87-91 | So records with such uids are hashed consistently: equal uids, equal hashes |
| UidSpec.HashExactly | src/record/record.c:87-91 | Two buffers are hashed equally if and only if what they differ in is the same in bytes 14 and 15, up to the highest bit |
| UidSpec.HashValue | src/record/record.c:87-91 | The hash of a buffer whose byte 15 is 0 and whose byte 14 is below 128 is byte 14 |
| UidSpec.OrderCovers | src/record/record.c:844-868 | The order in which buckets are tried covers all 256 |
| UidSpec.Destination | src/record/record.c:844-868 | If equal uids are hashed equally, a record goes to the bucket of its uid if there is one, otherwise to an empty one, and nowhere only if the table is full |
| UidSpec.ExactAfter | src/record/record.c:833-875 | If equal uids are hashed equally, every insertion keeps: a bucket holds all records of one uid, no two buckets hold the same uid, and a uid is found where its records are |
| UidSpec.TableExact | src/record/record.c:833-875 | So it is for all records, if equal uids are hashed equally; and the uids that have a bucket are exactly the first 256 different ones of the list |
| UidSpec.LookupIsFilter | src/record/record.c:521-552 | If equal uids are hashed equally, a search finds what a linear filter finds, last record first, for the first 256 different uids, and nothing for any other |
| UidSpec.FindsAllExactly | src/record/record.c:833-875 | For any set of records: searches agree with the filter on every list of these records if and only if any two of them with equal uids have equal hashes |
| UidSpec.BucketsPure | src/record/record.c:833-875 | Whatever the hashes, a bucket holds records of one uid only, and none of them more often than the list |
| UidSpec.ShortUidSplits | src/record/record.c:87-91 | Two records with the same uid that are hashed differently, which takes a short uid, end in two buckets, and no search finds both |
| UidSpec.ShortUidExample | src/record/record.c:87-91 | There are such records |
| UidIndex.Strlen | src/record/record.c:518 | Comparing strings looks at a buffer up to its first NUL |
| UidIndex.RecordContext.IsSameUid | src/record/record.c:508-519 | Whether a bucket holds a uid, with the given answer for an empty bucket |
| UidIndex.RecordContext.Place | src/record/record.c:844-868 | The first bucket, in the order of the attempts, that is empty or holds the uid |
| UidIndex.RecordContext.MakeUidHashtable | src/record/record.c:833-875 | The table becomes that of all records in the list |
| UidIndex.RecordContext.Find | src/record/record.c:528-542 | The bucket of the hash if it holds the uid, else the one 128 further on if that does, else the first that does; or the uid is in none |
| UidIndex.RecordContext.MoveBucket | src/record/record.c:544-549 | The records of the bucket leave the list and are returned in bucket order |
| UidIndex.RecordContext.SearchUid | src/record/record.c:521-552 | Returns that bucket, if there is one; if equal uids are hashed equally, what the filter finds; list and result together are the indexed records |
| UidIndex.RecordContext.Query | src/record/record.c:1006-1027 | A whole query returns records of the uid sorted by key, all that the filter finds if equal uids are hashed equally, and afterwards the list holds the same records as before |
| Words.ShrBit | src/bitmap.c:129 | Bit i of w >> n is bit n + i of w |
| Words.ShlBit | src/bitmap.c:169 | Bit i of w << n is bit i - n of w, for n <= i < 64 |
| Words.LowMaskBit | src/bitmap.c:111 | (1 << n) - 1 has exactly the n low bits |
| Words.SameBits | src/bitmap.c:16-24 | A word is determined by its 64 bits |
| Words.NonzeroBit | src/find_next_bit.c:57-60 | A word is not zero if and only if it has a lowest set bit |
| Bitmap.Joined | src/bitmap.c:115-129 | Two neighbouring words, shifted against each other, give the word between them |
| Bitmap.ShiftRight | src/bitmap.c:106-135 | Every position p of the result is position p + shift of the source, if that is below bits; also when source and result are the same array |
| Bitmap.ShiftLeft | src/bitmap.c:150-175 | Every position p below bits of the result is position p - shift of the source; also in place |
| FindBit.FindNextBit | src/find_next_bit.c:24-61 | The least set position from offset on, or size if there is none |
| FindBit.FindNextZeroBit | src/find_next_bit.c:69-106 | The least clear position from offset on, or size if there is none |
| FindBit.FindFirstBit | src/find_next_bit.c:113-133 | The least set position, or size if there is none |
| ZeroArea.AlignMaskIs | src/math.h:7 | Alignment gives the least aligned number that is not smaller |
| ZeroArea.AlignMaskBits | src/math.h:7 | The bit operation (x + mask) & ~mask computes that number, for every mask 2^k - 1, if the sum does not wrap around |
| ZeroArea.FindNextZeroArea | src/bitmap.c:314-336 | For nr >= 1: the least aligned index from start on whose nr bits are clear and within size, or a value beyond size exactly when there is none; for nr == 0: the first clear position, aligned |
| SetClear.ChangeBits | src/bitmap.c:262-300 | Exactly the nr positions from start on are set, or cleared; the others stay |
| SetClear.SetThenClear | src/bitmap.c:262-300 | Clearing a run that was set, and was clear before, restores the bitmap word by word |
| Regions.MaskBit | src/bitmap.c:1042-1044 | The mask has exactly the region's bits of a word |
| Regions.RegionWords | src/bitmap.c:1028-1036 | An aligned region lies within one word, or consists of whole words |
| Regions.IsFreeRegion | src/bitmap.c:1047-1053 | The region is reported free if and only if all its bits are clear |
| Regions.ChangeRegion | src/bitmap.c:1055-1063 | Exactly the region's bits are set, or cleared |
| Regions.RegionAllocator.constructor | src/bitmap.c:1017-1067 | An empty bitmap has no live regions |
| Regions.RegionAllocator.FindFreeRegion | src/bitmap.c:1083-1094 | Returns the lowest free aligned region, which becomes live, or -ENOMEM (-12), changing nothing, exactly when no region of that order is free |
| Regions.RegionAllocator.AllocateRegion | src/bitmap.c:1123-1129 | The region becomes live if it was free; otherwise -EBUSY (-16) and nothing changes |
| Regions.RegionAllocator.ReleaseRegion | src/bitmap.c:1107-1110 | A live region is live no more; the set bits are again the disjoint union of the live regions |
| Hweight.Hweight64IsPop | src/hweight.c:41-61 | The folded additions and the multiplication give the number of set bits |
| Hweight.Hweight32IsPop | src/hweight.c:10-27 | The same for 32-bit words, whose arithmetic wraps around at 2^32 |
| Remap.Weight | src/bitmap.c:249-260 | The number of set positions below bits |
| Ranks.SetBit | src/bitmap.c:634 | Exactly one more position is set |
| Ranks.PosToOrd | src/bitmap.c:697-713 | The number of set bits before a set position, and -1 for any other position |
| Ranks.OrdToPos | src/bitmap.c:733-749 | The position with that many set bits before it, and 0 for ordinals that have none |
| Ranks.OrdPosInverse | src/bitmap.c:679-749 | On set positions and ordinals below the weight the two maps are inverse to each other |
| Remap.Bitremap | src/bitmap.c:830-839 | The n-th set bit of the one bitmap goes to bit n modulo the weight of the other; other bits stay |
| Remap.Remap | src/bitmap.c:783-802 | The result has exactly the images of the source's bits; nothing happens when both are the same array |
| Remap.RemapBack | src/bitmap.c:751-802 | With equal weights, remapping and remapping back restores every subset of the first bitmap |
| Remap.OntoIs | src/bitmap.c:842-856 | The m-th set bit of relmap is set for each m set in orig: that is, a set bit n of relmap is kept if the bit numbered by its ordinal is set in orig |
| Remap.Onto | src/bitmap.c:941-967 | The one-pass loop sets exactly those bits |
| HexSpec.ScanHex | src/bitmap.c:424-456 | Reading a printed chunk gives back its value, without overflow |
| HexSpec.AgreesStep | src/bitmap.c:459-465 | Reading one more printed chunk adds exactly its bits |
| HexSpec.PrintedParses | src/bitmap.c:357-471 | Reading what was printed succeeds, and restores exactly the nmaskbits low bits, for every bitmap and every nmaskbits >= 1 |
| HexVerdict.ScanMatches | src/bitmap.c:424-456 | The scan of a chunk finds out exactly whether its value needs more than 32 bits, and otherwise has that value |
| HexVerdict.NBitsExactly | src/bitmap.c:462-467 | The chunks read so far need more than n bits if and only if the number that they make does |
| HexVerdict.HexExactly | src/bitmap.c:384-471 | For every text: -EOVERFLOW if a chunk has more than 32 bits or the number that the whole chunks make more than nmaskbits, else -EINVAL if a chunk is empty or the text goes wrong in it, else 0, and then the bits are those of the number |
| HexVerdict.HexDocumentedExactly | src/bitmap.c:403-408 | A missing last chunk, which the documentation calls a grouping error, makes a difference exactly for texts that end with a comma and are otherwise accepted |
| HexVerdict.HexOpenEnd | src/bitmap.c:403-408 | One of these is read as 1 |
| HexVerdict.HexGrouping | src/bitmap.c:403-408 | The grouping errors that the documentation names are reported |
| Grammar.DigitExactly | src/bitmap.c:384-392 | The value of each of the digits, in either case, and the digit that is printed for each value |
| Grammar.FieldsJoin | src/bitmap.c:420-456 | A text cut at its commas: the fields have no commas, and joined with commas they are the text |
| Grammar.SoundMore | src/bitmap.c:420-448 | Which character may stand behind a text in which nothing is wrong yet: exactly one with which blanks still stand only before the first digit or behind all else, and the last field is still one of digits (and a hyphen, in a list) |
| Grammar.CoreEnds | src/bitmap.c:471 | Where a text ends for the parsers: at a NUL, at its end, at the first character that may not stand there, or at a comma at its very end |
| HexGrammar.HexReadIs | src/bitmap.c:410-471 | For every text, the chunks that are read are the numbers that its fields write, up to one without digits, to the first character that may not stand there, or to the end |
| HexGrammar.HexAccepted | src/bitmap.c:384-471 | Which texts are accepted, without reference to the scanner: nothing but blanks, digits and commas, blanks only before the first digit or behind all else, a digit in every field that is read, no field above 32 bits and the number within nmaskbits; the bits are those of the number; all other texts are -EOVERFLOW (-75) or -EINVAL (-22), as stated |
| HexGrammar.CaseIgnored | src/bitmap.c:388 | Texts that differ only in the case of letters are parsed alike |
| HexGrammar.PrintedParsesAnyCase | src/bitmap.c:357-471 | So a printed text restores the nmaskbits low bits in whatever mixture of cases it is written |
| HexGrammar.PrintedDigit | src/bitmap.c:357-382 | Digit d of the printed text, from the right and not counting commas, is in the lower case that of bits 4d to 4d + 3; there are exactly as many digits as nmaskbits needs |
| HexGrammar.PrintedComma | src/bitmap.c:372-379 | ... with a comma between groups of eight |
| BitmapHex.Snprintf | src/bitmap.c:357-382 | The text is the printed form |
| BitmapHex.ReadChunk | src/bitmap.c:420-456 | The inner loop of the parser is the scan of one chunk, errors included |
| BitmapHex.AppendChunk | src/bitmap.c:462-463 | Shifting in place by 32 and adding a chunk appends it to those read before |
| BitmapHex.BitmapParse | src/bitmap.c:410-471 | For every text the return value is the one stated for HexExactly, it is 0 exactly for the texts of HexAccepted, and on success the bitmap holds the binary digits of the number that the chunks of the text make |
| ListSpec.ScanDec | src/bitmap.c:623-627 | Reading a printed decimal number gives back the number, if nothing wraps around |
| ListSpec.ScanNarrow | src/bitmap.c:587-628 | On every text, the numbers that the code reads are the rests modulo 2^32 of the numbers in the text |
| ListSpec.ListReads | src/bitmap.c:576-639 | Reading a printed list of any runs, of any size and order, gives back these runs |
| ListVerdict.ParseIsJudged | src/bitmap.c:576-639 | For every text: the parser accepts its runs, by their rests, up to the first whose rests are out of order (-EINVAL) or too large as an int (-ERANGE), or to the first error of the text, and returns that error or 0 |
| ListVerdict.ListJudged | src/bitmap.c:576-639 | For a printed list of any runs this is decided by the runs alone |
| ListVerdict.DocumentedExactly | src/bitmap.c:565-575 | The parser does what the documentation says on a text if and only if the first thing in it that the documentation rejects, be it a missing number, a range out of order or a number that is too large, is rejected by the code for the same reason, and there is no comma at the end |
| ListVerdict.IntsAsDocumented | src/bitmap.c:565-575 | In particular on all texts in which no number is missing and all numbers are at most 2^31 - 1 |
| ListVerdict.MissingNumbers | src/bitmap.c:576-639 | The empty text, a text that begins with a comma and a range without an end are accepted, and bit 0 is set |
| ListVerdict.OpenEnd | src/bitmap.c:637 | A comma at the end is not noticed |
| ListVerdict.WithinMaskExactly | src/bitmap.c:629-637 | The parser sets only bits of the bitmap if and only if the first run whose rests do not lie there has its rests out of order, or an upper rest below 2^31 |
| ListVerdict.SmallRestsWithin | src/bitmap.c:629-637 | In particular if all upper rests are below 2^31 |
| ListVerdict.NumberReads | src/bitmap.c:576-639 | A list of one number, of any size, is an error or a single bit according to its rest modulo 2^32, taken as an int |
| ListVerdict.NumberWithin | src/bitmap.c:629-637 | Such a bit is one of the bitmap if and only if the rest is below 2^31 |
| ListVerdict.LargeNumberAccepted | src/bitmap.c:623-632 | 2^32 is read as bit 0, and 2^32 - 1 is accepted although it is no bit of any bitmap |
| ListVerdict.ListParses | src/bitmap.c:576-639 | Parsing a printed list of runs within the bitmap gives back the list |
| ListVerdict.ListRoundTripExactly | src/bitmap.c:533-639 | The round trip succeeds within the bitmap, and it restores the bitmap if and only if the bitmap has a bit set |
| ListVerdict.EmptyListReadsZero | src/bitmap.c:586-639 | The list of an empty bitmap is an empty text, and reading that sets bit 0 |
| ListGrammar.FieldItemMore | src/bitmap.c:623-627 | A character that is no hyphen goes to the last number of its field |
| ListGrammar.NumbersAre | src/bitmap.c:576-639 | For every text, the numbers that are read are those that its fields write, before and behind a hyphen; the text is in order if and only if every character of it may stand where it does |
| ListGrammar.ListAccepted | src/bitmap.c:565-639 | Which texts are accepted, without reference to the scanner: nothing but blanks, digits, commas and hyphens, blanks only before the first digit or behind all else, at most one hyphen in a field, with a digit before it; and the rests modulo 2^32 of every field's numbers, a missing one being 0, are in order, the upper one below nmaskbits or not below 2^31 |
| ListGrammar.ListRejected | src/bitmap.c:565-639 | Any other text is -EINVAL (-22), unless an earlier field is out of order (-EINVAL) or too large (-ERANGE, -34) |
| ListGrammar.AcceptedChars | src/bitmap.c:588-621 | In particular an invalid character is never accepted, nor a blank between the first digit and the last character that is none |
| ListGrammar.DecExactly | src/bitmap.c:509-513 | A printed number consists of decimal digits that write it, with no zero at the front |
| ListGrammar.RunTextExactly | src/bitmap.c:509-513 | A printed run is its two numbers with a hyphen between them, or one number if they are the same |
| BitmapList.Emit | src/bitmap.c:505-514 | A comma unless the text is empty, and the run |
| BitmapList.Scnlistprintf | src/bitmap.c:533-554 | The text lists the maximal runs of set bits in increasing order |
| BitmapList.ReadRun | src/bitmap.c:587-628 | The inner loop of the parser is the scan of one run, errors included |
| BitmapList.BitmapParselist | src/bitmap.c:576-639 | For every text: the model stays inside if and only if all accepted runs lie within the bitmap; then the return value is that of the parse, 0 exactly for the texts of ListAccepted, and the bitmap holds exactly the accepted runs, and otherwise those before the first outside |

## Left out

- Memory is a map from addresses to records rather than C memory, and the word that packs a node's parent and
  colour is two fields. Both mirror images of a rebalancing case are one method with a side as a parameter.
- `rb_replace_node` (src/rbtree.c:496-510) is not part of this model: a plain substitution of one record.
- RbTree.RbRoot.Insert: that values are right is promised only if the caller has updated those on the way to the
  new node, as the documentation asks (include/rbtree_augmented.h:45-54); `RbTree.RbRoot.InsertAugmented` does
  that for its caller, with the propagate callback once the node is linked.
- RbTree.RbRoot.LinkNode: the empty slot is named by its parent and side, and by the path to it, which is ghost.
- The callbacks of trees without augmentation do nothing; they are the summary with a single value.
- `del_timer`, memory that runs out and locking are not part of this model, and expiries are unbounded integers.
- Timers.TimerList.ProcessTimer: where the script of clock readings ends before process_timer would return, the
  model stops, and its result means nothing.
- A timer's expiry before its first start is 0 in the model, and whatever malloc left there in the source.
- Packet.DwPacketContext.GetPacket: stops where a valid header announces more than RCPACKET_MAXPAYLOADSIZE bytes of
  payload, which the source does not check on receipt, only when it sends (src/packet.c:145); what the source does
  then is not modelled. The copies within a buffer (src/packet.c:114, src/packet.c:121) are read as memmove.
- Packet.DwPacketContext.WriteCommandData: data is a sequence of its own length; a NULL pointer with a positive
  length and a negative length are not modelled, nor is a write that fails.
- `read_socket`, `write_socket` and everything below them (src/io.c) are an arbitrary sequence of short reads.
- UidIndex.RecordContext.Query: starts from records that have been read and filtered; reading dumps, `exclude_none_HBP`,
  and the search for the sort key's column are not part of this model.
- RecordSort.Record: a record is its address, uid buffer and sort key; linked lists are sequences.
- ZeroArea.FindNextZeroArea: indices are unbounded integers, so that nothing wraps around.
- Regions.RegionAllocator.FindFreeRegion: sizes are unbounded, where the source's `1 << order` is an int.
- BitmapHex.Snprintf, BitmapList.Scnlistprintf: the buffer is large enough; truncation by snprintf is not modelled.
- BitmapList.BitmapParselist: stops at the first accepted run that leads beyond the bitmap; what the source does then
  depends on what lies there and is not modelled.
- UidSpec.TableExact: every uid buffer has at least the sixteen bytes of which two are hashed.
- Remap.Remap, Remap.Onto: the destination is none of the bitmaps that are read while it is written; a destination
  that is also the old, the new or the relative bitmap is not modelled.
- Hweight.Hweight64IsPop: the variants for processors without a fast multiplier are not part of this model.
- `__ffs`, `ffz`, `fls`, `set_bit` and `test_bit` are given by what they mean rather than by their assembly.
- The bitmap operations that work word by word without crossing words (and, or, complement, equality, subset),
  `bitmap_fold` and `bitmap_copy_le` would only add easy members.
- Sockets, epoll, GPIO, I2C, logging, tools and the client and server programs are not part of this model.
