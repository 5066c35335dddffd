# Verified models of eoblock

eoblock exchanges network packets between cluster nodes through a shared disk. This project models
five parts of it in Dafny and proves what each is for.

**The intrusive AVL tree** (`lib/libavl/avl.c`). The tree is modelled as it is: linked heap nodes with
two child pointers, a parent pointer, a child index and a stored balance, changed in place by the
loops of the C code. A ghost tree value `shape` says what the links form; `Valid()` says that links
and value agree, that every stored balance is height(right) - height(left) and is -1, 0 or 1, and that
`numnodes` is the number of nodes. `Elements()` is the in-order sequence. Every operation keeps
`Valid()` and says exactly what it does to `Elements()`, so all statements hold for every tree that any
run of the operations can reach. The comparison function is any total order that returns -1, 0 or 1.

Files: `AvlShape` (tree values and the slots in them), `AvlHeap` (what it means that memory is laid out
as a tree value), `AvlRotate` and `AvlRotateHeap` (rotations as values and as pointer assignments),
`AvlClimb` (insertion and the way up), `AvlOrder` (neighbours, search, places), `AvlRemove` (the swap
through the stack temporary, unlinking, the way up), `AvlUpdate` (changed keys), `AvlDestroy` (taking the
tree apart), `AvlTree` (the class with the operations). The proof idea is a zipper: a climbing or
descending loop holds a subtree `t` and its surroundings `c`, its invariant is that memory is laid out
as `t` inside `c`, and one step moves the boundary by one node. Memory is read off the heap once as a
map `Mem`, and all reasoning about layout is about such maps.

**The packed node** (`include/sys/avl_impl.h`, file `AvlPacked`). On 64-bit machines parent pointer,
child index and balance share one word. Every run of assignments on packed words reads the same as the
run on separate fields.

**The tunnel** (`eoblock.py`, files `Framing`, `Tunnel` and `TunnelDelivery`). Packets are framed with a length and a
checksum and written to one of two slots. The three processes of each node are a state machine whose
steps interleave freely; in every reachable state the packets delivered to a node are an in-order
selection of those the other node sent, the packets lost are exactly those of the steps that `Loses`
names, and from every state the nodes can go on, losing nothing more, until all that is still on its way has
been delivered.

**The device library** (`lib/liboblock.c`, files `PowerOfTwo`, `Blocks`, `Header`, `Mailbox`). The disk
is a byte sequence. The header with its node registry refines an abstract table through every run of the
registry operations, and its words are those the calls and their results determine, message buffers are scattered over physical blocks and gathered again, and a node
always receives the last message that was sent to it.

**The dynamic array** (`lib/libvec/vec.c` and `include/sys/vec.h`, files `ByteCells` and `Vec`).
Operations on elements of any size are byte copies at computed offsets; each is proved equal to the
sequence operation it stands for.

`Bytes` holds what the last three share. Checksum functions are parameters: all results hold whatever the
function computes. Numbers are unbounded unless a width is modelled explicitly; structures on disk are
little-endian, the frames of the tunnel big-endian.

Run `dafny verify dfyconfig.toml` with Dafny 4.11 to check the project.

## Results that are negative

- A packet survives `build` and `parse_raw` exactly when it is not empty and shorter than 2^30 bytes
  (`Framing.RoundTrip`).
- The tunnel does lose packets: a second write before a poll replaces the first (`Tunnel.Overwritten`).
- A header update leaves everything behind the header alone exactly when the physical block size is 512
  (`Header.HeaderWriteKeeps`). With larger blocks, which include the default, it destroys the message to
  node 0 (`Mailbox.HeaderWriteWipes`).
- `vec_swapsplice` removes the given range, up to order, exactly when the range ends before the last
  `count` elements or is them (`Vectors.SwapSpliceExact`, for distinct elements).
- `P2ROUNDUP` gives 0 when the next multiple does not fit 64 bits (`PowerOfTwo.RoundUpLeast`).

## Model

| member | source | states |
|---|---|---|
| Libavl.AvlTree.constructor | lib/libavl/avl.c:896-915 | a created tree is valid and has no members |
| Libavl.AvlTree.Walk | lib/libavl/avl.c:132-174 | returns the member next to the given one in the in-order sequence in the given direction, null at the end and for null; both loops end |
| Libavl.AvlTree.First | lib/libavl/avl.c:179-192 | returns the first member in order, null for an empty tree |
| Libavl.AvlTree.Last | lib/libavl/avl.c:198-212 | returns the last member in order, null for an empty tree |
| Libavl.AvlTree.Traverse | include/sys/avl.h:86-91 | first followed by next until null visits exactly the in-order sequence, last followed by previous its reverse |
| AvlOrder.StepBack | include/sys/avl.h:207-219 | next and previous undo each other |
| Libavl.AvlTree.Find | lib/libavl/avl.c:251-282 | returns a member that compares equal, or null and an empty slot at the one place where the value belongs; a search of k comparisons needs at least Fib(k+2)-1 and at least 2^(k/2)-1 members |
| AvlOrder.SplitUnique | lib/libavl/avl.c:245-249 | there is only one place in the order where a value belongs |
| AvlOrder.SlotUnique | lib/libavl/avl.c:245-249 | every place in the order belongs to exactly one empty child slot |
| Libavl.AvlTree.Nearest | lib/libavl/avl.c:222-242 | on an empty slot, returns the member just before or just after the place of that slot, null iff there is none |
| AvlOrder.SplitNearest | lib/libavl/avl.c:212-219 | the members around the place of a value are the greatest smaller and the least greater one |
| Libavl.AvlTree.Insert | lib/libavl/avl.c:478-554 | linking a node in at an empty slot gives a valid tree whose sequence has the node at the place of the slot and is otherwise unchanged; at most one rotation |
| Libavl.AvlTree.HangNew | lib/libavl/avl.c:494-519 | the first half of insertion makes the node a leaf in its slot, with nothing else linked differently |
| Libavl.AvlTree.InsertionClimb | lib/libavl/avl.c:526-554 | when only the subtree in the slot is one level too tall, the loop ends with a valid tree of the same sequence after at most one rotation |
| AvlClimb.GrownRotation | lib/libavl/avl.c:541-554 | the one rotation of insertion shrinks its subtree back to the height it had before the insertion |
| Libavl.AvlTree.InsertHere | lib/libavl/avl.c:568-623 | the new node comes immediately before or after the given member; the slot found is always empty |
| AvlOrder.PlaceOf | lib/libavl/avl.c:559-563 | one side of a member and the other side of its neighbour are the same place |
| Libavl.AvlTree.Add | lib/libavl/avl.c:628-646 | a node that equals no member is put at its place in the order; the members still increase |
| Libavl.AvlTree.Remove | lib/libavl/avl.c:671-815 | the tree is valid without the given member, the sequence loses exactly that member, increasing members still increase; no order is needed |
| Libavl.AvlTree.TakeOut | lib/libavl/avl.c:671-815 | the same, from the assignments of the code: swap with a neighbour below, then removal from the lower position |
| Libavl.AvlTree.SwapWithNeighbour | lib/libavl/avl.c:717-744 | after the assignments of the swap every node reads as if the member had been renamed to its neighbour and the neighbour to the placeholder |
| Libavl.AvlTree.SwapLinks | lib/libavl/avl.c:721-744 | the field values after each assignment of the swap, for an adjacent and for a distant neighbour |
| AvlRemove.SwapReady | lib/libavl/avl.c:689-697 | the swapped tree is laid out correctly, balanced as before, and its sequence is the old one once the placeholder is taken out instead of the member |
| AvlRemove.NeighbourSwappable | lib/libavl/avl.c:708-715 | the neighbour found below a node with two children has no child on the far side and can take its place |
| Libavl.AvlTree.Unlink | lib/libavl/avl.c:752-772 | the only child, or nothing, takes the place of the removed node |
| Libavl.AvlTree.DeletionClimb | lib/libavl/avl.c:774-814 | when only the subtree in the slot is one level too low, the loop ends with a valid tree of the same sequence, through as many rotations as it takes |
| AvlRemove.ShrunkRotation | lib/libavl/avl.c:803-813 | a rotation during removal either restores the height and ends the climb, or leaves the subtree one level lower for the next step |
| Libavl.AvlTree.LinksInside | lib/libavl/avl.c:748-772 | links of members lead only to members, child and parent links are inverse, the child index is right, and only the root has no parent; so nothing reaches a removed node or the temporary |
| Libavl.AvlTree.Rotation | lib/libavl/avl.c:299-465 | memory after the rotation is laid out as the rotated tree in the same slot; the result is true exactly when the rotation shrinks |
| AvlRotate.RotatedFacts | lib/libavl/avl.c:285-298 | all four rotations keep the sequence, give a balanced subtree with exact stored balances, and lower its height by one exactly when they report it |
| AvlRotateHeap.RotationSingle | lib/libavl/avl.c:342-382 | the assignments of case 1 give the rotated tree, hung on the same parent or root |
| AvlRotateHeap.RotationDouble | lib/libavl/avl.c:417-465 | the assignments of case 2 give the rotated tree, hung on the same parent or root |
| Libavl.AvlTree.SingleLinks | lib/libavl/avl.c:342-382 | the field values after the assignments of case 1 |
| Libavl.AvlTree.DoubleLinks | lib/libavl/avl.c:417-465 | the field values after the assignments of case 2 |
| AvlShape.HeightBound | lib/libavl/avl.c:35-42 | a balanced tree of height h has at least Fib(h+2)-1 nodes |
| Libavl.AvlTree.Shallow | lib/libavl/avl.c:35-46 | so every tree of height h that the operations can reach has at least 2^(h/2)-1 members |
| AvlShape.FibPow | lib/libavl/avl.c:35-46 | Fib(h+2) is at least 2^(h/2) |
| Libavl.AvlTree.Update | lib/libavl/avl.c:855-873 | when one key has changed to a value equal to no other, the members increase again, the nodes are the same, and the result is B_TRUE exactly when they were out of order |
| Libavl.AvlTree.UpdateLt | lib/libavl/avl.c:821-836 | the same for a key that may only have become smaller |
| Libavl.AvlTree.UpdateGt | lib/libavl/avl.c:838-853 | the same for a key that may only have become greater |
| Libavl.AvlTree.Reinsert | lib/libavl/avl.c:817-819 | removing and adding the changed node leaves the same nodes in order |
| AvlUpdate.InPlaceRanked | lib/libavl/avl.c:855-873 | comparing with the two neighbours decides whether the whole sequence increases |
| Libavl.AvlTree.Swap | lib/libavl/avl.c:875-891 | two trees exchange their members and counts and stay valid |
| Libavl.AvlTree.DestroyNodes | lib/libavl/avl.c:966-1057 | each call returns the next node in post order until none is left, then null with root null and numnodes 0; only nodes not yet returned are described or changed |
| Libavl.AvlTree.DestroyFirst | lib/libavl/avl.c:978-994 | a call with a null cookie returns the first node in post order, or finds the tree empty |
| Libavl.AvlTree.DestroyNext | lib/libavl/avl.c:1008-1034 | a call with a cookie forgets the node returned last and returns the next |
| Libavl.AvlTree.CheckRightSide | lib/libavl/avl.c:1036-1056 | from a node without left child, one step to the right suffices; the assertions of the code hold |
| Libavl.AvlTree.DestroyAll | lib/libavl/avl.c:947-961 | the loop visits the post order even if the contents of returned nodes are lost at once, and leaves an empty valid tree |
| AvlDestroy.OneStepRight | lib/libavl/avl.c:1036-1050 | balance makes the single step to the right sound |
| AvlDestroy.PostPlug | lib/libavl/avl.c:947-965 | the post order is what is below a slot followed by the rest after the slot |
| AvlDestroy.PostLength | lib/libavl/avl.c:947-949 | the post order has every node exactly once |
| AvlDestroy.PostSubtree | lib/libavl/avl.c:947-949 | in post order the nodes of every subtree come together, its root last |
| AvlPacked.PackedNode.SetParent | include/sys/avl_impl.h:104-106 | the parent is stored, index and balance are kept |
| AvlPacked.PackedNode.SetChild | include/sys/avl_impl.h:111-113 | the index is stored, parent and balance are kept |
| AvlPacked.PackedNode.SetBalance | include/sys/avl_impl.h:120-122 | the balance is stored, parent and index are kept |
| AvlPacked.SetParentView | include/sys/avl_impl.h:103-106 | the same for the word itself |
| AvlPacked.SetChildView | include/sys/avl_impl.h:111-113 | the same for the word itself |
| AvlPacked.SetBalanceView | include/sys/avl_impl.h:120-122 | the same for the word itself |
| AvlPacked.Layout | include/sys/avl_impl.h:82-93 | the balance plus one is in bits 0 and 1, the index in bit 2, the parent above |
| AvlPacked.ViewInjective | include/sys/avl_impl.h:82-93 | the three fields are the whole word |
| AvlPacked.RunSame | include/sys/avl_impl.h:61-124 | after every run of assignments and node copies all nodes read the same in both layouts |
| AvlPacked.IndexParts | include/sys/avl_impl.h:138-140 | the macros that take an index apart invert the one that makes it |
| AvlPacked.IndexWhole | include/sys/avl_impl.h:138-140 | and making an index from the parts gives the word back |
| Framing.ParseBuild | eoblock.py:31-59 | parsing a frame with anything behind it gives the data, or nothing if the data was empty |
| Framing.RoundTrip | eoblock.py:31-59 | the data comes back exactly when it is not empty and shorter than 2^30 |
| Framing.BuildLayout | eoblock.py:52-59 | the bytes of a frame: big-endian length, data, big-endian checksum of both, 30 bits each |
| Framing.ParseExact | eoblock.py:31-49 | a parse gives v exactly when the bytes begin with a complete non-empty frame of v whose checksum is right |
| Framing.WrongTail | eoblock.py:41-48 | a frame with any other word in place of its checksum does not parse |
| Framing.ParseInverse | eoblock.py:31-59 | what a parse accepts begins with the frame of its result |
| Framing.ParseStable | eoblock.py:31-49 | bytes behind a frame that parsed do not change the result |
| Framing.ParsePrefix | eoblock.py:31-49 | a proper prefix of a frame never parses |
| Framing.ParseZeros | eoblock.py:27-38 | a cleared slot holds no packet |
| Bytes.WordRoundTrip | eoblock.py:35-58 | big-endian words unpack to what was packed, most significant byte first |
| Bytes.ToBytesAt | include/eoblock.h:64-91 | byte i of a little-endian field is digit i to the base 256 |
| Bytes.FieldBack | include/eoblock.h:64-91 | a field determines its bytes |
| Tunnel.FTunnel.ReadOwnSlot | eoblock.py:145-155 | reading 512 bytes at a time until something parses gives the parse of the whole slot |
| Tunnel.FTunnel.WriteAck | eoblock.py:137-142 | the own slot holds nothing afterwards, the other is untouched |
| Tunnel.FTunnel.WritePeerSlot | eoblock.py:121-128 | the other slot parses as the frame written over its start, the own is untouched |
| Tunnel.StepKeeps | eoblock.py:101-168 | every step keeps the packets of a direction, delivered and on their way, an in-order selection of those sent, and changes the number missing by one exactly when it loses one |
| Tunnel.RunKeeps | eoblock.py:101-168 | in every reachable state that holds, and packets sent = packets delivered or on their way + losing steps |
| Tunnel.DeliveredInOrder | eoblock.py:101-168 | in every reachable state the packets delivered are an in-order selection of those sent: none invented, repeated or reordered |
| Tunnel.NothingLost | eoblock.py:101-168 | a run loses nothing exactly when no step of it wrote over an unread frame, wrote before a pending clear, or took an empty packet |
| TunnelDelivery.Turn | eoblock.py:145-160 | a frame in the slot of a polling node is parsed, queued and acknowledged, three enabled steps: the queue gains exactly its packet and the slot is empty |
| TunnelDelivery.Delivers | eoblock.py:101-168 | from every state a continuation of enabled steps that lose and send nothing ends with every node having delivered exactly its stream |
| TunnelDelivery.EveryRunDelivers | eoblock.py:101-168 | so every run can be continued until all that was on its way is delivered, with no further loss |
| TunnelDelivery.SentArrives | eoblock.py:101-168 | in every state a packet that fits can be sent, and then it can be delivered after all that was on its way |
| TunnelDelivery.HandlesKeeps | eoblock.py:114-160 | handling packets without loss keeps every stream and takes back no delivery |
| Tunnel.Overwritten | eoblock.py:121-128 | a run in which a packet is lost |
| Tunnel.Receives | eoblock.py:114-119 | polling, queueing and delivering move a packet without changing the order |
| Tunnel.Writes | eoblock.py:121-128 | writing a frame drops at most one packet, from a known place |
| Tunnel.Sends | eoblock.py:164-168 | a packet read from the interface is added at the end of both sides |
| PowerOfTwo.RoundUpLeast | include/eoblock_defs.h:189-189 | P2ROUNDUP is the least multiple not below x, for every x and every power of two, or 0 if that multiple is 2^64 |
| PowerOfTwo.PhaseParts | include/eoblock_defs.h:190-191 | P2PHASE is the remainder, P2NPHASE the distance to the next multiple |
| PowerOfTwo.AlignDown | include/eoblock_defs.h:187-187 | P2ALIGN is the greatest multiple not above x |
| Blocks.IoCountCovers | lib/liboblock.c:292-295 | the blocks cover the buffer, fewer would not, and they are exact for a multiple |
| Blocks.AllocPhys | lib/liboblock.c:289-308 | allocates that many distinct blocks |
| Blocks.MapDataToPhys | lib/liboblock.c:336-360 | the blocks one after the other begin with the data, and are the data if its length is a multiple |
| Blocks.MapPhysToData | lib/liboblock.c:310-334 | gathers the bytes of the blocks, for every length that is a positive multiple |
| Blocks.ScatterGather | lib/liboblock.c:310-360 | gathering inverts scattering for every such length |
| Header.ReadHeader | lib/liboblock.c:192-238 | the first of at most ten passes with a good checksum and magic decides, by its version; if there is none the result is EOB_CHKSUM; stated on the bytes of the passes, and the disk may change between them |
| Header.ReadQuiet | lib/liboblock.c:192-238 | on a device nobody else writes, the outcome is that of its header |
| Header.TornRejected | lib/chksum.c:9-22 | a stamped header with any other checksum bytes is not accepted |
| Header.NodeSet | include/eoblock.h:59-71 | writing one entry of the node table changes that entry only |
| Header.StampOk | lib/chksum.c:25-37 | a stamped header passes the checksum and is otherwise the same |
| Header.SetContents | lib/liboblock.c:1153-1160 | setting an entry in the header sets it in the table the header stands for |
| Header.FirstContents | lib/liboblock.c:1032-1036 | the assigned fields and no present node are what the new header stands for |
| Header.Device.WriteHeader | lib/liboblock.c:148-169 | the device holds the registry of the header written; bytes behind one physical block are untouched |
| Header.Device.InitHeader | lib/liboblock.c:1008-1044 | the header words are the magic number, version 2, the given sizes and count or their defaults, and an empty table; the checksum is right |
| Header.Device.DeinitHeader | lib/liboblock.c:1047-1060 | the device holds no acceptable header; slots are untouched |
| Header.Device.AddNode | lib/liboblock.c:1132-1168 | EOB_CHKSUM exactly without an acceptable header, EOB_INVAL exactly outside the table or over a present node without force, and then no byte changes; else the two words of the entry are the data and all other entries and sizes stay |
| Header.Device.RemoveNode | lib/liboblock.c:1171-1196 | EOB_CHKSUM exactly without an acceptable header; else both words of a present entry are zero and all other entries and sizes stay, and for an absent one no byte changes |
| Header.ZerosRejected | lib/liboblock.c:1047-1060 | a cleared header is never accepted, whatever the checksum function |
| Header.RunAll | lib/liboblock.c:1008-1196 | after any run of the four operations there is an acceptable header exactly if init came after deinit; its sizes are those of the last init, and every entry is the data of the last successful addition, or empty if a removal or init came later; it also is the abstract table, and every call returned what the abstract operation returns |
| Header.TracksStep | lib/liboblock.c:1008-1196 | one operation of such a run |
| Header.EntryReplaced | lib/liboblock.c:1153-1164 | on the bytes, replacing one entry of the table leaves every other word of it and the sizes |
| Header.PresentStays | lib/liboblock.c:1153-1160 | through any run, a present node keeps its entry unless it is removed, forced, or the header is made anew |
| Header.NoHeaderStays | lib/liboblock.c:192-238 | after deinit every operation ends in EOB_CHKSUM until the next init |
| Header.HeaderWriteKeeps | lib/liboblock.c:154-161 | writing the header keeps all bytes behind it exactly when physical blocks have 512 bytes |
| Mailbox.EobDevice.SendRaw | lib/liboblock.c:461-474 | the block is at 512 + virt * (first byte of the destination), all other bytes are unchanged, for every block size |
| Mailbox.EobDevice.RecvRaw | lib/liboblock.c:476-495 | gives the bytes of the own slot |
| Mailbox.EobDevice.Send | lib/liboblock.c:563-618 | EOB_2BIG and no change for more than a block; else the bytes at 512 + virt * (first byte of the destination) are sender, length, payload, zeros and checksum, all other bytes unchanged |
| Mailbox.EobDevice.FillPacket | lib/liboblock.c:572-600 | the assignments to the packet fields make the packet, whatever the memory held |
| Mailbox.EobDevice.Recv | lib/liboblock.c:498-560 | a message exactly when the own slot is sender, length, payload, padding and matching checksum for some non-empty payload, and then that payload and sender; EOB_CHKSUM exactly when the length is in range and the checksum does not match |
| Mailbox.OpenExact | lib/liboblock.c:508-559 | the same for any block |
| Mailbox.PacketOpens | lib/liboblock.c:508-559 | every undamaged packet is received as what it says, whatever its padding |
| Mailbox.MessageIsPacket | lib/liboblock.c:551-559 | nothing else is received as a message |
| Mailbox.CallsThenRecv | lib/liboblock.c:461-618 | after any calls of send by any devices on one disk, and header operations with 512-byte blocks, receiving at a device gives payload and sender of the last message whose destination has its node id, whatever the other address bytes are; without one its slot is as before |
| Mailbox.OneCall | lib/liboblock.c:461-618 | one such call changes the slot of its destination only |
| Mailbox.OpenPacket | lib/liboblock.c:498-618 | opening a packet gives its payload and its sender |
| Mailbox.AfterSlot | lib/liboblock.c:363-403 | a message changes the slot of its destination only, a 512-byte header write none |
| Mailbox.SlotHolds | lib/liboblock.c:363-403 | after any run a slot holds the last packet sent to its node, or what it held before |
| Mailbox.ReceivesLast | lib/liboblock.c:461-618 | so after any run of messages by any nodes and header updates, a node receives the last message to it |
| Mailbox.HeaderWriteWipes | lib/liboblock.c:156-161 | with physical blocks over 512 bytes a header write destroys the message to node 0 |
| ByteCells.CellsWrite | lib/libvec/vec.c:72-96 | bytes copied to an element offset replace whole elements |
| ByteCells.CellsSlice | lib/libvec/vec.c:72-96 | bytes between element offsets are a slice of the elements |
| Vectors.Vec.constructor | include/sys/vec.h:39-39 | an empty vector |
| Vectors.Vec.MemMove | lib/libvec/vec.c:77-95 | an overlapping move of bytes is a move of elements |
| Vectors.Vec.Realloc | lib/libvec/vec.c:16-20 | the elements survive reallocation |
| Vectors.Vec.Expand | lib/libvec/vec.c:10-23 | room for one more, doubling a full block; the elements are kept |
| Vectors.Vec.Reserve | lib/libvec/vec.c:25-37 | capacity is at least n; the elements are kept |
| Vectors.Vec.ReservePo2 | lib/libvec/vec.c:39-48 | capacity is at least the least power of two not below n; the elements are kept |
| Vectors.PowerAtLeast | lib/libvec/vec.c:42-46 | the doubling loop computes that power |
| Vectors.LeastPo2Least | lib/libvec/vec.c:42-46 | it is not below n, below 2n, and no smaller power of two is enough |
| Vectors.LeastPo2Power | lib/libvec/vec.c:42-46 | and it is a power of two |
| Vectors.Vec.Compact | lib/libvec/vec.c:50-70 | capacity becomes the length; the elements are kept |
| Vectors.Vec.OpenGap | lib/libvec/vec.c:72-80 | the elements from idx on move up by one |
| Vectors.Vec.Insert | include/sys/vec.h:93-95 | the sequence with the value inserted at idx |
| Vectors.Vec.Splice | lib/libvec/vec.c:82-88 | the sequence without the range |
| Vectors.Vec.SwapSplice | lib/libvec/vec.c:90-96 | the last count elements over the removed ones, shortened by count |
| Vectors.SwapSpliceRemoves | lib/libvec/vec.c:90-96 | which is the removal up to order when the range ends before them or is them |
| Vectors.SwapSpliceExact | lib/libvec/vec.c:90-96 | and for distinct elements only then |
| Vectors.Vec.Swap | lib/libvec/vec.c:98-117 | swapping byte by byte exchanges the two elements |
| Vectors.SwapBytes | lib/libvec/vec.c:107-116 | the loop exchanges two byte ranges that do not overlap |
| Vectors.Vec.Push | include/sys/vec.h:67-68 | the sequence with the value at the end; only a full block is reallocated |
| Vectors.Vec.PushAll | include/sys/vec.h:67-68 | all reallocations of n pushes on an empty vector carry over capacity - 1 elements, fewer than 2n |
| Vectors.Vec.PushArr | include/sys/vec.h:143-156 | the sequence with the array appended |
| Vectors.Vec.Find | include/sys/vec.h:164-174 | the index of the first equal element, or -1 iff there is none |
| Vectors.Vec.Remove | include/sys/vec.h:229-236 | the sequence without its first equal element, unchanged if there is none |
| Vectors.WithoutAt | include/sys/vec.h:229-236 | that sequence, from the index of the first equal element |
| Vectors.Vec.Reverse | include/sys/vec.h:240-248 | the reversed sequence |

## Left out

- Offsets between a node and the structure it is embedded in (`AVL_NODE2DATA`, `AVL_DATA2NODE`): a node is identified with its data.
- `avl_is_empty`, `avl_numnodes` and `avl_destroy`, which only read a field or check that it is zero.
- `Libavl.AvlTree` keeps the four node fields apart; `AvlPacked` shows for any run that the packed word reads the same, so the two are not joined in one proof.
- The debug comparisons inside `avl_insert_here` that check the caller's order.
- Torn reads and writes of a slot: in `Tunnel` a poll, a write and an acknowledgement are each atomic, as on a block device that orders whole requests.
- Frames longer than a slot: packets read from the interface are taken to be at most `MAX_PKT_LEN - 8` bytes, so that their frame fits.
- The TUN device, interface addresses, sleeps, and the truncation that opening a regular file with mode `w+b` would cause.
- Mailbox.EobDevice.Send: requires the payload to leave room for head and tail or to be longer than a block; lengths in between pass the check of the code and overrun the packet structure.
- Mailbox.EobDevice.Recv: a length field that points outside the packet is the outcome `Fault`; what the code reads behind the packet is not modelled.
- Mailbox.CallsThenRecv: requires payloads that fit a packet, and 512-byte physical blocks in the header operations, without which they do change slots (`Mailbox.HeaderWriteWipes`).
- Blocks.MapPhysToData: requires a positive multiple of the block size; for other lengths the code writes past the buffer before it checks.
- Header.Device.InitHeader: the aligned sizes the code verifies are not needed for the result and not required; negative counts and sizes are excluded.
- Header.Device.RemoveNode: requires an index inside the node table, which the code does not check.
- Short reads and writes, I/O errors, and devices that end inside a slot.
- Opening devices (`eob_device_init_hdr`, udev, ioctl), string messages, dumps, logging and failing allocation.
- Block sizes for which send has no packet format (8 and 16 KiB).
- `int` overflow in `vec.c`: the operations require that the sizes they compute fit, and allocation succeeds.
- The unused or experimental macros of `vec.h`, and `cvec.h`.
- The kernel modules and the command line tools.
