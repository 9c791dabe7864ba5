# Verified model of the NFB packet DMA and its tools

The NFB driver and library move packets between applications and an FPGA card through
rings of memory. This project models the parts of that software whose correctness rests
on state kept over many calls, and proves what they are for.

## The shared ring

A ring of a direction and index is a *channel*. Any number of *subscriptions* share it. The
driver (`ChannelCalls`, `NdpChannel`) arbitrates between them with pointers that are kept
masked to the ring's size; `Ring` relates them to positions that only grow.

* `TxArbiter`: one subscription at a time holds a window of free cells, fills it, and
  publishes a part of it with its next sync call. `RxArbiter`: every subscription reads at
  its own pace, and cells are released behind the slowest. Both are state machines whose
  steps are the driver calls of any subscription and the controller's moves, in any order.
* `TxPort` and `RxPort` are one subscription's view: its system calls, each after whatever
  the others have done. The schedule of the others is arbitrary.
* `TxQueueV1`, `TxQueueV2`, `RxQueueV1` and `RxQueueV2` are the library's queues of protocols
  1 and 2 on top of a port, with the cursor fields of `struct nc_ndp_queue`. `Framing` is
  protocol 1's frame layout as the writer makes it and the reader takes it apart,
  `PacketHeaders` protocol 2's headers.
* `StoppedBurst` and `StaleRestart` are runs in which these queues go wrong.
* `Subscribing` is who may share a channel at all.

A queue's memory is mapped twice in a row, so an address up to twice the ring size is a
cell of the ring; the models look cells up by the masked address.

## Around it

* `Xdp`: frame ownership in the AF_XDP modes of `ndptool`.
* `FlashTable`: the slots of a BittWare card's configuration flash, and loads into them.
* `FeatureLock`: component feature locks. `MmapRegions`: offsets of mmap regions.
* `BusCopy`: copies over the memory interface bus. `ImageFraming`: raw image files.
* `PcapReplay`: the transmit mode's capture replay. `Statistics`: thread counters.
* `QueueMap`: the spread of queues over interfaces and endpoints.
* `Options`, `Bytes`, `Sequences`: small shared definitions.

Objects that the source updates in place are classes here, its loops are loops, and each
method is proved against functions or predicates about which the lemmas speak. The header
comment of each member says which call of the source it is.

## Where the code does less than its design

Each of these is stated exactly: what holds, if and only if what.

* Frames of 65536 bytes and more do not fit the writer's 16-bit sizes (`Framing.SizesExact`).
  Bursts with such packets are laid out like others, unless one is given no room at all
  (`Framing.OnlyRoomEncodes`), but what is published reads back as the packets exactly when
  none of them is so large (`TxQueueV1.Queue.Run`).
* The protocol 1 reader accepts headers whose padded metadata is longer than the packet, and
  then computes a data length below zero (`Framing.CheckedLength`).
* Protocol 2 headers keep eight bits of the header length (`PacketHeaders.HeaderRoundTrip`).
* A protocol 1 receive queue keeps its cursor over stop and start, and reads on correctly only
  when that is zero (`RxQueueV1.Queue.Start`, `RxQueueV1.StaleCursor`). A protocol 2 receive
  queue likewise keeps its count of packets, and an exclusive one its place (`RxQueueV2.Queue.Start`).
  So a restarted queue can hand out cells or claim bytes that nobody has written
  (`StaleRestart.GetLeftovers`, `StaleRestart.LeftoverRun`, `StaleRestart.GetStopStart`,
  `StaleRestart.FrameRun`).
* A burst asked of a stopped protocol 2 transmit queue leaves pointers that claim a window
  (`TxQueueV2.Queue.BurstGet`); a later burst then can lose packets, also those of others
  (`StoppedBurst.StoppedGetLoses`). With a flush in between, all is well (`TxQueueV2.Queue.Run`).
* Loading an empty file breaks the distinctness of flash slots (`FlashTable.LoadSound`,
  `FlashTable.EmptyFileCollides`).
* A region that does not fit below the last 64-bit offset is registered all the same, and the
  containment test is wrong for requests that run over it (`MmapRegions.Device.Register`,
  `MmapRegions.AcceptsExact`, `MmapRegions.WrappingAccepted`). Series of registrations are in
  order exactly when each region fits (`MmapRegions.AlwaysSound`).
* Copies of exactly four or eight bytes are not aligned on the bus (`BusCopy.Memcopy`).
* A capture with a record without data cannot be cached (`PcapReplay.Cache.Create`). The number
  of loops is cut to 32 bits: a replay that ends by itself has sent the file as often as was
  asked exactly when 32 bits hold the number, and 4294967296 loops do not end
  (`PcapReplay.Transmit`).
* The threads of `transmit -m` count in a copy of their parameters that nobody collects, so the
  totals lack what they sent (`Statistics.Tool.Gather`, `Statistics.ReplayOwnFile`).
* A queue can be on another endpoint than its interface, unless all endpoints have the same
  number of interfaces (`QueueMap.EndpointsAgree`, `QueueMap.EndpointsDisagree`).

## Model

| member | source | states |
|---|---|---|
| `NdpChannel.Channel.Start` | drivers/kernel/drivers/nfb/ndp/channel.c:148-176 | the whole channel state after a start, as computed on values by `ChannelCalls.Start`; a controller that fails to start leaves everything as it was |
| `NdpChannel.Channel.Stop` | drivers/kernel/drivers/nfb/ndp/channel.c:178-206 | the whole state after a stop; the write lock is dropped even when the controller answers -EAGAIN and the subscription stays listed |
| `NdpChannel.Channel.RxSync` | drivers/kernel/drivers/nfb/ndp/channel.c:208-247 | the loop finds the first of the listed read pointers at the longest masked distance behind the old hardware pointer |
| `NdpChannel.Channel.TxSync` | drivers/kernel/drivers/nfb/ndp/channel.c:249-311 | the three branches (own lock, no lock, another's lock) give one function of the masked pointers, holder and request |
| `NdpChannel.Channel.Sync` | drivers/kernel/drivers/nfb/ndp/channel.c:313-320 | on the mutable records, the call is the one that the arbiters below are proved about, and keeps list, lock and pointers consistent |
| `ChannelCalls.RemoveMembers` | drivers/kernel/drivers/nfb/ndp/channel.c:200-202 | list_del takes out exactly the one subscription and keeps the list free of duplicates |
| `Subscribing.Channel.Subscribe` | drivers/kernel/drivers/nfb/ndp/channel.c:108-137 | a first subscription gets in exactly when the controller takes its flags as they are; a later one exactly when it asks for the same flags and neither side is exclusive |
| `Subscribing.Channel.Unsubscribe` | drivers/kernel/drivers/nfb/ndp/channel.c:139-146 | takes one member away and keeps the agreement of the others |
| `Subscribing.Channel.ExclusiveAlone` | drivers/kernel/drivers/nfb/ndp/channel.c:118-128 | a subscription that asked for exclusive use is the only one |
| `Ring.MaskIsRemainder` | drivers/kernel/drivers/nfb/ndp/channel.c:225 | the masked pointer is the remainder modulo the ring size, for any size |
| `Ring.MaskIsBitwise` | drivers/kernel/drivers/nfb/ndp/channel.c:225 | for a size that is a power of two it is the bitwise `x & (size - 1)` of the 64-bit word the pointer expression wraps to |
| `Ring.MaskDistance` | drivers/kernel/drivers/nfb/ndp/channel.c:225 | the masked difference of two positions less than a ring apart is their distance |
| `Ring.FreeSpace` | drivers/kernel/drivers/nfb/ndp/channel.c:268 | the masked write room is the free cells of the ring but one |
| `TxArbiter.StepInv` | drivers/kernel/drivers/nfb/ndp/channel.c:148-206 | every step of anybody keeps: pointers stand for positions less than a ring apart, only the holder of the lock has a window, the window fits the free space, unread data are still in the ring |
| `TxArbiter.RunInv` | drivers/kernel/drivers/nfb/ndp/channel.c:148-206 | the same in every state of every run |
| `TxArbiter.SyncAnswer` | drivers/kernel/drivers/nfb/ndp/channel.c:257-305 | what the masked arithmetic of a sync answers, in absolute positions: window start, length and lock |
| `TxArbiter.GrantPositions` | drivers/kernel/drivers/nfb/ndp/channel.c:268-282 | the granted length is the smaller of the request and the free space |
| `TxArbiter.SentInOrder` | drivers/kernel/drivers/nfb/ndp/channel.c:257-266 | what the controller has taken, followed by what waits in the ring, is everything published, in order of publishing |
| `TxArbiter.WindowIsPrivate` | drivers/kernel/drivers/nfb/ndp/channel.c:257-305 | a granted window is the only one, and shares no cell with data the controller has still to read |
| `TxArbiter.WindowIsStarted` | drivers/kernel/drivers/nfb/ndp/channel.c:185-202 | a subscription with a window is started and holds the lock |
| `TxArbiter.ForeignRun` | drivers/kernel/drivers/nfb/ndp/channel.c:148-206 | whatever the others and the controller do between two calls, a subscription finds its window, its contents and what it published as it left them |
| `TxArbiter.OwnSync` | drivers/kernel/drivers/nfb/ndp/channel.c:249-311 | a sync call publishes exactly the cells its caller passed, in place, and the new window follows them; asking for nothing gives the lock up, asking for the whole ring never shrinks a window and gives all the free space unless another holds the lock |
| `TxArbiter.SyncAmongOthers` | drivers/kernel/drivers/nfb/ndp/channel.c:249-311 | the same for a call that comes after any steps of the others |
| `TxArbiter.OwnStop` | drivers/kernel/drivers/nfb/ndp/channel.c:178-206 | stopping takes the window away and publishes nothing; only the last subscription can be told to try again |
| `TxPorts.Port.Sync` | drivers/kernel/drivers/nfb/ndp/subscription.c:32-44 | the system call of a subscription among others: refused exactly when it is not started, otherwise it publishes the first `k` cells of the window |
| `TxPorts.Port.Start` | drivers/kernel/drivers/nfb/ndp/subscription.c:46-65 | starting fails for a started subscription, gives no window and publishes nothing |
| `TxPorts.Port.Stop` | drivers/kernel/drivers/nfb/ndp/subscription.c:67-90 | stopping leaves no window, publishes nothing |
| `Framing.SizesExact` | libnfb/include/netcope/ndp_tx.h:96-115 | the 16-bit size the writer reserves is the packet's real frame size if and only if the frame is shorter than 65536 bytes |
| `Framing.OversizedReservesNothing` | libnfb/include/netcope/ndp_tx.h:96-115 | a packet of 65528 bytes is given no room at all |
| `Framing.OnlyRoomEncodes` | libnfb/include/netcope/ndp_tx.h:96-140 | a list of packets can be laid out one behind another only if each is given room |
| `Framing.ReaderMovesByFrame` | libnfb/include/netcope/ndp_rx.h:83-128 | for any packet, however large, the reader moves by exactly what the writer reserved |
| `Framing.HeaderReads` | libnfb/include/netcope/ndp_rx.h:83-128 | the header the writer stores is accepted by the reader, which recovers both lengths and moves by the frame |
| `Framing.HeaderBytes` | libnfb/include/netcope/ndp_tx.h:125-126 | the stored header's bytes, low one first: bytes 0 and 1 are the length up to the end of the data, bytes 2 and 3 the metadata's length, in 16 bits |
| `Framing.FittingBytes` | libnfb/include/netcope/ndp_tx.h:125-126 | for a packet that fits, they are the data length with the padded metadata and the header length themselves |
| `Framing.SizesBytes` | libnfb/include/netcope/ndp_rx.h:83-84 | the reader takes its sizes from these bytes, low one first |
| `Framing.FirstLengths` | libnfb/include/netcope/ndp_rx.h:83-128 | the first packet found in a stream has the lengths its first four bytes give |
| `Framing.FrameBytes` | libnfb/include/netcope/ndp_tx.h:96-140 | in a stream that is laid out, the four bytes where a packet's frame starts give its lengths |
| `Framing.ProperSizes` | libnfb/include/netcope/ndp_rx.h:83-128 | every header with room for its padded metadata is read as a packet that takes exactly the bytes the reader moves by |
| `Framing.RoundTrip` | libnfb/include/netcope/ndp_tx.h:96-140 | bytes parse as a list of packets if and only if they are those packets' frames, one after another, and each fits 16-bit sizes; padding and payload are free |
| `Framing.ParseConcat` | libnfb/include/netcope/ndp_rx.h:83-128 | parsing goes on over the joint of two runs of whole frames |
| `Framing.PayloadWrite` | libnfb/include/netcope/ndp_tx.h:96-140 | storing any byte outside the headers changes no header and no boundary |
| `Framing.FirstFrame` | libnfb/include/netcope/ndp_rx.h:83-128 | at the front of whole frames both checks of the reader pass, and the rest is whole frames again |
| `Framing.CheckedLength` | libnfb/include/netcope/ndp_rx.h:90-119 | for a header the reader's check lets through, the data length lies inside the packet if and only if the padded metadata does |
| `Framing.CheckedNotProper` | libnfb/include/netcope/ndp_rx.h:90-119 | sizes 6 and 1 pass the check and give a data length of 4294967294 |
| `TxQueueV1.Queue.Lock` | libnfb/include/netcope/ndp_tx.h:29-54 | a lock asks for the whole ring; a window held only grows, and the cursor's room is what is left of it |
| `TxQueueV1.Queue.BurstFlush` | libnfb/include/netcope/ndp_tx.h:159-166 | everything placed is published, in place and in order, and the lock is given up |
| `TxQueueV1.Queue.BurstPut` | libnfb/include/netcope/ndp_tx.h:147-157 | publishes exactly when more than a quarter of the ring is placed |
| `TxQueueV1.Queue.PlaceAll` | libnfb/include/netcope/ndp_tx.h:93-135 | the burst loop either places a frame for every packet, one behind another, or finds that they do not fit the window |
| `TxQueueV1.Queue.BurstGet` | libnfb/include/netcope/ndp_tx.h:75-145 | all or nothing: the count is returned if and only if the frames fit the granted window, which is all the free space when they do not, unless another holds the lock; then every packet has addresses inside the double mapping, otherwise the cursor is back; nothing placed before is changed or moved to another address |
| `TxQueueV1.Queue.Fill` | libnfb/include/netcope/ndp_tx.h:119-127 | a payload byte stored through a returned address changes that byte of the unpublished stream and nothing else |
| `TxQueueV1.Queue.Start` | libnfb/include/netcope/ndp.h:364-391 | starting changes nothing that was placed or published |
| `TxQueueV1.Queue.Stop` | libnfb/include/netcope/ndp.h:393-404 | stopping first publishes everything placed, and ends stopped however often the controller puts it off |
| `TxQueueV1.Queue.Run` | libnfb/include/netcope/ndp_tx.h:29-166 | over any series of get, put, flush, payload writes, start and stop, among any steps of others: published and pending packets are those of the bursts that returned their count, in order; each call changes the bytes in the one way the views tell, a payload write one byte that is not published yet; a flush or stop leaves nothing pending, and a get that returns nothing had too little window; the bytes published parse as exactly the published packets, if and only if each of those is shorter than 65536 bytes with its padding |
| `TxQueueV1.PublishedStays` | libnfb/include/netcope/ndp_tx.h:147-166 | over such a series no later call changes a byte once published |
| `TxQueueV1.FilledStays` | libnfb/include/netcope/ndp_tx.h:128-132 | over such a series a byte of a packet holds what was last written there, before it is published and after |
| `TxQueueV1.Queue.UnpublishedIsHeld` | libnfb/include/netcope/ndp_tx.h:29-54 | packets not yet published mean that the queue is started, holds the driver's lock, and stays inside its grant |
| `TxQueueV1.Queue.PublishedParses` | libnfb/include/netcope/ndp_tx.h:96-140 | the bytes published parse as the packets published if and only if each is shorter than 65536 bytes with its padding |
| `PacketHeaders.RefusesOversized` | libnfb/include/netcope/ndp_tx.h:217-228 | a packet is refused if and only if it is larger than a frame can be |
| `PacketHeaders.StoredHeader` | libnfb/include/netcope/ndp_tx.h:235-238 | the header's size is the packet's, made up to the least frame, in 16 bits; its header size has eight bits, its flags four |
| `PacketHeaders.FieldsHandedOut` | libnfb/include/netcope/ndp_rx.h:199-215 | the reader hands out the header size, what is left of the size as data length, and four bits of flags |
| `PacketHeaders.HeaderRoundTrip` | libnfb/include/netcope/ndp_rx.h:199-215 | the reader of a header gets the lengths the writer was asked for, short data made up to the least frame, if and only if the header length has eight bits and the size sixteen |
| `PacketHeaders.FrameRoundTrip` | libnfb/include/netcope/ndp_rx.h:199-215 | within a queue's frame limits that is so for every header length of eight bits, flags included |
| `TxQueueV2.Queue.Lock` | libnfb/include/netcope/ndp_tx.h:168-188 | the cursor is rebased exactly when no window was held, and what it may take is what the window has left |
| `TxQueueV2.Queue.WriteBurst` | libnfb/include/netcope/ndp_tx.h:205-243 | headers are stored one behind another until one is larger than a frame can be; the loop succeeds if and only if all can be sent |
| `TxQueueV2.Queue.BurstGet` | libnfb/include/netcope/ndp_tx.h:190-252 | all or nothing; an accepted burst gets consecutive header indices inside the double mapping, and zero means a packet is too large or the window too small, though it is all the free space unless another holds the lock; asking a stopped queue for packets leaves pointers that are not in order |
| `TxQueueV2.Queue.BurstFlush` | libnfb/include/netcope/ndp_tx.h:266-283 | exactly the headers accepted are published, in order; the cursor is brought back into the ring and stands for the same position |
| `TxQueueV2.Queue.BurstPut` | libnfb/include/netcope/ndp_tx.h:256-264 | publishes everything once more than a quarter of the ring is placed, and nothing before |
| `TxQueueV2.Queue.Start` | libnfb/include/netcope/ndp.h:364-391 | starting a transmit queue moves none of its pointers |
| `TxQueueV2.Queue.Stop` | libnfb/include/netcope/ndp.h:393-404 | stopping first publishes everything accepted |
| `TxQueueV2.Queue.Run` | libnfb/include/netcope/ndp_tx.h:168-283 | over any series of get, put, flush, start and stop, up to a get that comes after one of the stopped queue with no flush between: what is published and what is placed are the headers of the bursts that returned their count, in order; a flush leaves nothing unpublished, and a get that returns nothing had a reason; the recorded statuses say when the queue was started |
| `StoppedBurst.StoppedGetLoses` | libnfb/include/netcope/ndp_tx.h:168-283 | a get of the stopped queue, then another subscription publishes, then start, get of one packet and flush: the get returns its count, nothing is published for it, and its header is over the other's published one |
| `StoppedBurst.OthersFirst` | drivers/kernel/drivers/nfb/ndp/channel.c:249-311 | the ring that run starts from is reached by steps of the other subscription |
| `StaleRestart.GetLeftovers` | libnfb/include/netcope/ndp_rx.h:177-226 | protocol 2: after stop and start, a get of no more packets than were shown before asks nothing of the driver and hands out the cells from where reading begins anew, of which only those below the controller's position are headers it wrote |
| `StaleRestart.LeftoverRun` | libnfb/include/netcope/ndp_rx.h:147-226 | four cells, two headers shown, one handed out, stop, start, nothing written: a get of one would hand out a cell at the controller's own position, which it never wrote |
| `StaleRestart.GetStopStart` | libnfb/include/netcope/ndp.h:364-404 | protocol 1: after a get that hands something out, stop and start, the queue is never in order, and its next lock starts inside what is written since or counts bytes nobody wrote |
| `StaleRestart.FrameRun` | libnfb/include/netcope/ndp_rx.h:11-26 | sixteen bytes, one frame of eight handed out, stop, start, nothing written: a lock counts eight bytes |
| `StaleRestart.RestartRun` | drivers/kernel/drivers/nfb/ndp/channel.c:148-247 | the ring those two start from is reached by the driver's calls |
| `RxArbiter.StepInv` | drivers/kernel/drivers/nfb/ndp/channel.c:148-206 | every step of anybody keeps: no cell is released before each started subscription has read it, every reader stays inside what it was told, unreleased data are still in the ring |
| `RxArbiter.FarthestIsSlowest` | drivers/kernel/drivers/nfb/ndp/channel.c:223-231 | the scan by masked distances to the old hardware pointer finds the least absolute read position |
| `RxArbiter.SyncReleases` | drivers/kernel/drivers/nfb/ndp/channel.c:219-237 | after a sync the ring is released exactly up to the slowest started reader, and never backward |
| `RxArbiter.ReleasedToSlowest` | drivers/kernel/drivers/nfb/ndp/channel.c:219-237 | no reader is passed, and some reader is exactly at the released position |
| `RxArbiter.RunReleasesForward` | drivers/kernel/drivers/nfb/ndp/channel.c:208-247 | over any run the released position only moves on, in absolute terms |
| `RxArbiter.Fetch` | drivers/kernel/drivers/nfb/ndp/channel.c:208-247 | a cell not yet read by a started subscription holds what the controller wrote there |
| `RxArbiter.OwnSync` | drivers/kernel/drivers/nfb/ndp/channel.c:208-247 | a sync moves its caller's read position by what it passed and shows it everything written |
| `RxArbiter.OwnStart` | drivers/kernel/drivers/nfb/ndp/channel.c:148-171 | a subscription starts reading where the channel last saw the controller |
| `RxArbiter.OwnStop` | drivers/kernel/drivers/nfb/ndp/channel.c:178-206 | a stopped subscription no longer holds the ring back; only the last one can be told to try again |
| `RxPorts.Port.Sync` | drivers/kernel/drivers/nfb/ndp/subscription.c:32-44 | the system call of a subscription among others: refused exactly when it is not started |
| `RxPorts.Port.Start` | drivers/kernel/drivers/nfb/ndp/subscription.c:46-65 | the answer carries both pointers of the new subscription |
| `RxPorts.Port.Stop` | drivers/kernel/drivers/nfb/ndp/subscription.c:67-90 | the stream and the part the channel knows of stay as they were |
| `RxQueueV1.NextFrame` | libnfb/include/netcope/ndp_rx.h:83-128 | one turn of the loop moves the cursor by one frame of the stream and keeps it at the start of one |
| `RxQueueV1.HeaderAtCursor` | libnfb/include/netcope/ndp_rx.h:83-84 | the sizes read through the double mapping are those the controller wrote at the cursor's position |
| `RxQueueV1.Queue.Lock` | libnfb/include/netcope/ndp_rx.h:11-26 | a lock shows everything written and not handed out, at the same position of the stream, and gives nothing back |
| `RxQueueV1.Queue.TakePacket` | libnfb/include/netcope/ndp_rx.h:83-128 | the packet handed out is the next one of the stream, its addresses lie in the double mapping, and neither error exit is reached |
| `RxQueueV1.Queue.BurstGet` | libnfb/include/netcope/ndp_rx.h:46-134 | the packets returned are the next ones of the stream, in order, each described at its frame; fewer than asked for only when everything written is handed out; nothing is given back |
| `RxQueueV1.Queue.Unlock` | libnfb/include/netcope/ndp_rx.h:28-44 | exactly the bytes handed out are given back |
| `RxQueueV1.Queue.BurstPut` | libnfb/include/netcope/ndp_rx.h:136-145 | gives back exactly when more than half a ring is handed out |
| `RxQueueV1.PacketBytes` | libnfb/include/netcope/ndp_rx.h:110-119 | until it is given back, a packet's addresses hold what the controller wrote for it |
| `RxQueueV1.Queue.Start` | libnfb/include/netcope/ndp.h:364-391 | a started queue reads on correctly if and only if the earlier cursor is at zero and at most half a ring counts as locked |
| `RxQueueV1.StaleCursor` | libnfb/include/netcope/ndp_rx.h:11-26 | the first lock after a restart shows what was written since if and only if the earlier cursor is zero, and stays inside it only when so much has been written |
| `RxQueueV1.Queue.Stop` | libnfb/include/netcope/ndp.h:393-404 | stopping ends stopped and forgets the locked bytes, but not the cursor |
| `RxQueueV1.Queue.Run` | libnfb/include/netcope/ndp_rx.h:11-145 | over any series of get and put, among any steps of the controller and of others: the slots returned describe the next packets of the stream, each at its frame's position; a get returns less than asked only when it has come past all that was written before; all packets together are exactly the packets of the stream up to the cursor; a put leaves at most half a ring held |
| `RxQueueV2.LockedHeaders` | libnfb/include/netcope/ndp_rx.h:147-162 | a lock counts exactly the headers written and not handed out, and brings the cursor back into the ring |
| `RxQueueV2.HeaderAt` | libnfb/include/netcope/ndp_rx.h:193-215 | the header behind the cursor's address is the one the controller wrote |
| `RxQueueV2.Queue.Lock` | libnfb/include/netcope/ndp_rx.h:147-162 | everything written is available; nothing is given back or skipped |
| `RxQueueV2.Queue.BurstGet` | libnfb/include/netcope/ndp_rx.h:177-226 | the headers handed out are the next ones of the stream at consecutive indices below twice the ring; fewer than asked for only when all are handed out; a lock inside gives nothing back |
| `RxQueueV2.Queue.BurstPut` | libnfb/include/netcope/ndp_rx.h:164-175 | gives back every packet handed out, and no other |
| `RxQueueV2.Queue.Start` | libnfb/include/netcope/ndp.h:364-378 | a started queue reads on correctly if and only if no packets are left from an earlier run and, for an exclusive queue, the cursor is at the channel's pointer, which for a first subscription is the one the controller reports |
| `RxQueueV2.Queue.Stop` | libnfb/include/netcope/ndp.h:393-404 | a stopped queue is in order if and only if no packets shown were left |
| `RxQueueV2.Queue.Run` | libnfb/include/netcope/ndp_rx.h:147-231 | over any series of get and put the slots returned are the next headers of the stream, none left out or repeated, at indices below twice the ring that stand for consecutive positions over the whole run; a get returns less than asked only when it has come past all that was written before; a put gives back everything |
| `Xdp.AddrStack.constructor` | tools/ndptool/xdp/xdp_common.h:82-87 | the stack starts with every frame of the area once |
| `Xdp.AddrStack.Alloc` | tools/ndptool/xdp/xdp_common.h:62-70 | takes the top address, and fails exactly on an empty stack |
| `Xdp.AddrStack.FreeAddr` | tools/ndptool/xdp/xdp_common.h:73-79 | puts the address on top, and fails exactly on a full stack |
| `Xdp.ConservedApart` | tools/ndptool/xdp/xdp_common.h:56-59 | every frame is in exactly one of: the stack, the application, the rings, the kernel |
| `Xdp.ConservedSize` | tools/ndptool/xdp/xdp_common.h:56-59 | the sizes of these places add up to the number of frames |
| `Xdp.ActAllKeeps` | tools/ndptool/xdp/xdp_read.c:174-222 | whatever the kernel takes and returns, at any address inside a frame, loses no frame and keeps the rings in order |
| `Xdp.Reader.Fill` | tools/ndptool/xdp/xdp_read.c:175-185 | every free frame goes to the fill ring once there are more than a burst of them; alloc_addr never fails |
| `Xdp.Reader.Receive` | tools/ndptool/xdp/xdp_read.c:201-221 | the entries peeked are processed once, in order, and their frames go back to the stack; free_addr never fails |
| `Xdp.Reader.Pass` | tools/ndptool/xdp/xdp_read.c:174-222 | one pass of the loop: the free frames go to the fill ring if there are more than a burst, and of what the kernel has returned by then a burst is received, or all, or less when the packet limit is nearer |
| `Xdp.Reader.Run` | tools/ndptool/xdp/xdp_read.c:174-222 | every turn makes such a pass until a limit is reached, and none after; over any run frames are conserved and the packets counted are the rx entries in order; ending by the packet limit means it is met exactly, by the byte limit that it is passed, by one burst at most |
| `Xdp.Generator.CollectBurst` | tools/ndptool/xdp/xdp_generate.c:166-170 | completions go back to the stack; free_addr never fails |
| `Xdp.Generator.Collect` | tools/ndptool/xdp/xdp_generate.c:165-171 | every turn collects what the kernel has completed by then, up to a burst; collecting ends at the first turn with nothing to collect and a burst's frames free |
| `Xdp.Generator.Send` | tools/ndptool/xdp/xdp_generate.c:173-213 | the tx ring always has room for the burst, so the waiting loop is never entered; alloc_addr never fails; every entry has the length drawn for it |
| `Xdp.Generator.Run` | tools/ndptool/xdp/xdp_generate.c:135-215 | every collection that ends is followed by exactly one burst, and no burst is sent otherwise, until a limit is reached; over any run frames are conserved; ending by the packet limit means it is met exactly, by the byte limit that it is reached, and not before the last burst; with all frames free the first turn sends a burst |
| `FlashTable.LoadPartitionTable` | drivers/kernel/drivers/nfb/boot/bw-bmc.c:231-250 | the loop builds the slots of the files sorted by offset, with the gaps filled |
| `FlashTable.TableTiles` | drivers/kernel/drivers/nfb/boot/bw-bmc.c:231-250 | for files apart from each other the slots follow each other inside the flash, and those not empty are the files |
| `FlashTable.PageIsFree` | drivers/kernel/drivers/nfb/boot/bw-bmc.c:231-250 | a 4 KiB page lies in an empty slot if and only if no file touches it |
| `FlashTable.OneSlotEach` | drivers/kernel/drivers/nfb/boot/bw-bmc.c:231-250 | two slots that share a byte are the same |
| `FlashTable.IdsDistinct` | drivers/kernel/drivers/nfb/boot/bw-bmc.c:121-136 | the slots have different identifiers if and only if at most one file is at offset 0 |
| `FlashTable.ReservedIds` | drivers/kernel/drivers/nfb/boot/bw-bmc.c:121-136 | identifier 1 is exactly the images at offset 0, identifier 0 exactly the first image after them |
| `FlashTable.OtherIds` | drivers/kernel/drivers/nfb/boot/bw-bmc.c:121-136 | all other slots are numbered from 2 on, in order |
| `FlashTable.RoomExact` | drivers/kernel/drivers/nfb/boot/bw-bmc.c:427-447 | a load has the room of its slot and of the empty slot, if any, that starts where its last page ends |
| `FlashTable.WriteExtent` | drivers/kernel/drivers/nfb/boot/bw-bmc.c:427-450 | an accepted load writes its own slot, the padding behind it, and the empty slot that adjoins |
| `FlashTable.WriteApart` | drivers/kernel/drivers/nfb/boot/bw-bmc.c:427-450 | so it reaches no other file, and stays in the flash |
| `FlashTable.Boot.LoadImage` | drivers/kernel/drivers/nfb/boot/bw-bmc.c:412-531 | exactly when each status is returned; an erase takes the files at the slot's offset and no other, a completed write adds one, and a refused request leaves all; the slots are rebuilt of what is there |
| `FlashTable.LoadLeaves` | drivers/kernel/drivers/nfb/boot/bw-bmc.c:460-517 | file by file, how often it is there after a request |
| `FlashTable.FilesStay` | drivers/kernel/drivers/nfb/boot/bw-bmc.c:388-531 | over any series of requests a file stays whose slot none of them erases |
| `FlashTable.LoadSound` | drivers/kernel/drivers/nfb/boot/bw-bmc.c:388-531 | a request leaves the files apart from each other if and only if it does not write an empty file |
| `FlashTable.EmptyFileCollides` | drivers/kernel/drivers/nfb/boot/bw-bmc.c:121-136 | a load of size 0 into the empty flash makes an empty file at offset 0, and a load into the empty slot there two slots with identifier 1 |
| `FlashTable.LoadsSound` | drivers/kernel/drivers/nfb/boot/bw-bmc.c:388-531 | over any series of requests of which none writes an empty file, the files stay apart, the slots tile the flash and the identifiers differ |
| `FeatureLock.Device.TryLock` | drivers/kernel/drivers/nfb/lock.c:87-137 | refused if and only if one of the bits is locked by anyone, the caller included; otherwise exactly the named bits are added for the caller |
| `FeatureLock.Device.Unlock` | drivers/kernel/drivers/nfb/lock.c:148-180 | exactly the caller's named bits are taken away; -ENODEV if and only if the caller has no item for the path |
| `FeatureLock.Device.Release` | drivers/kernel/drivers/nfb/lock.c:65-79 | exactly the caller's locks are taken away |
| `FeatureLock.DisjointExclusive` | drivers/kernel/drivers/nfb/lock.c:97-110 | no bit of a path is locked by two applications |
| `FeatureLock.SharedBit` | drivers/kernel/drivers/nfb/lock.c:99 | two words have a common bit if and only if their conjunction is not zero |
| `FeatureLock.UnlockUndoes` | drivers/kernel/drivers/nfb/lock.c:87-180 | unlocking what was just locked gives the earlier locks back |
| `FeatureLock.AlwaysExclusive` | drivers/kernel/drivers/nfb/lock.c:65-180 | over any series of calls no bit is locked by two applications |
| `FeatureLock.Run` | drivers/kernel/drivers/nfb/lock.c:65-180 | the driver's list always stands for exactly the locks in force |
| `MmapRegions.FirstFitIsLowest` | drivers/kernel/drivers/nfb/char.c:126-132 | first fit is the lowest offset at which the size fits |
| `MmapRegions.ScanIsFirstFit` | drivers/kernel/drivers/nfb/char.c:126-132 | the scan with 64-bit sums stops at first fit, unless the region does not fit below the last offset |
| `MmapRegions.Device.Register` | drivers/kernel/drivers/nfb/char.c:113-155 | the new region, with its handler, is put between the others, which all stay in their order; it is at the lowest free offset and the list stays sorted without overlap, if and only if it fits below the last offset; size zero is refused |
| `MmapRegions.Device.Unregister` | drivers/kernel/drivers/nfb/char.c:157-176 | takes out the first region with this offset and no other, or reports that there is none |
| `MmapRegions.AcceptsExact` | drivers/kernel/drivers/nfb/char.c:362-363 | the containment test is exact for requests that do not run over the last offset, and for no others |
| `MmapRegions.Device.Lookup` | drivers/kernel/drivers/nfb/char.c:346-371 | the request goes to the first region whose test it passes; if it does not run over the last offset, that is the one region that contains it, if any does; otherwise no region contains it |
| `MmapRegions.WrappingAccepted` | drivers/kernel/drivers/nfb/char.c:362-363 | 8192 bytes from 4096 below the last offset are taken for a region at offset 0 |
| `MmapRegions.AlwaysSound` | drivers/kernel/drivers/nfb/char.c:113-176 | over a series of calls the list stays sorted without overlap if and only if each region fits below the last offset at its turn |
| `MmapRegions.RegisteredReached` | drivers/kernel/drivers/nfb/char.c:113-176 | over any series of calls a region registered and not unregistered is in the list, and every request inside it reaches its own handler when the list is sorted |
| `MmapRegions.Run` | drivers/kernel/drivers/nfb/char.c:113-176 | any series of calls, made on the device, ends in the list the calls define, which is in order all along if and only if each region fits at its turn; every region registered and not unregistered is there at the offset that was answered, and then reached by every request inside it |
| `BusCopy.Transfer.Simple` | libnfb/src/bus/mi.c:112-125 | four or eight bytes are copied by one access wherever they are |
| `BusCopy.Transfer.Prelude` | libnfb/src/bus/mi.c:127-150 | accesses of widths one, two and four, each the widest that fits its place, up to where the rest lines up |
| `BusCopy.Transfer.Postlude` | libnfb/src/bus/mi.c:190-211 | the rest is copied by accesses each the widest that fits its place |
| `BusCopy.Memcopy` | libnfb/src/bus/mi.c:231-243 | exactly the bytes asked for are copied and nothing else changes; four or eight bytes take one access, all else accesses each as wide as its place and the bytes left allow; they are in place if and only if the one-access shortcut is not taken for a misplaced offset |
| `BusCopy.TilesOnce` | libnfb/src/bus/mi.c:50-58 | every bus byte is in exactly one access |
| `ImageFraming.OpenRbf` | libnfb/src/boot/boot.c:150-214 | fails if and only if the file gives fewer bytes than it says; otherwise the buffer is the image, all writes stay inside it, block headers go to even places, and the result is where the padding starts |
| `ImageFraming.StripBlocks` | libnfb/src/boot/boot.c:194-210 | taking the block headers away gives back the file |
| `ImageFraming.ImageStrips` | libnfb/src/boot/boot.c:166-214 | between preamble and padding the image is the file in blocks; the buffer is whole blocks |
| `ImageFraming.ImageBlock` | libnfb/src/boot/boot.c:194-210 | every block is where it belongs, byte by byte: the mark, the size with its low byte first, its 4096 bytes of the file or what is left |
| `ImageFraming.PaddingBound` | libnfb/src/boot/boot.c:171-178 | the padding is at least one byte and at most 4096 |
| `ImageFraming.PreambleAddresses` | libnfb/src/boot/boot.c:184-189 | the preamble's first eight bytes are the start and the end of the image in units of four bytes, low byte first; the flags are at byte 128, and all else is 0xFF |
| `ImageFraming.BlocksSize` | libnfb/src/boot/boot.c:171-176 | the blocks take the file's size and four bytes for each block |
| `PcapReplay.Cache.Create` | tools/ndptool/transmit.c:422-491 | the cache has every record in order, also when a cut record header follows; reading fails exactly for a record with cut data or without data and for read errors |
| `PcapReplay.Cache.Grow` | tools/ndptool/transmit.c:451-468 | doubling the arrays keeps what is cached |
| `PcapReplay.Source.Rewind` | tools/ndptool/transmit.c:337-345 | going back to the start is the same place of the replay; no packets are left exactly when all loops are done or the file is empty |
| `PcapReplay.Source.FillMeta` | tools/ndptool/transmit.c:329-355 | the lengths of the packets that follow those sent, up to the end of the file; none exactly when all is sent |
| `PcapReplay.Source.FillData` | tools/ndptool/transmit.c:389-401 | the next packets of the replay are handed out, whatever part of the burst the queue took |
| `PcapReplay.Burst` | tools/ndptool/transmit.c:203-233 | a burst ends the replay exactly when all is sent or one of the packets offered is too short; otherwise it sends the first of those offered, exactly as many as the queue takes |
| `PcapReplay.Transmit` | tools/ndptool/transmit.c:168-239 | for any answers of the queue, every try sends the packets that follow, as many as it takes, and the loop ends exactly when stopped, at the packet limit, past the byte limit, with all sent, or at a packet too short; what is sent is a prefix of the file repeated, and when the loop ends by itself it is the file as often as was asked, if and only if that number is below 2^32 or the file empty; asked for 2^32 times it goes on as long as the queue takes packets |
| `PcapReplay.RepeatSame` | tools/ndptool/transmit.c:314 | a file with packets sent another number of times is something else |
| `Statistics.UpdateStatsThread` | tools/ndptool/stats.c:207-260 | an update counts the burst; when more than 100000 packets are due or none came it posts all that was not posted, otherwise nothing; nothing counted is lost |
| `Statistics.MovedSane` | tools/ndptool/stats.c:244-260 | no single step of an update changes what has been taken from the thread |
| `Statistics.TakenAll` | tools/ndptool/stats.c:35-44 | when the threads have nothing left, what was taken is the number and length of all packets counted where the collector looks |
| `Statistics.CountedAll` | tools/ndptool/transmit.c:81-91 | these are all packets if and only if no thread that counts in a private copy processed any, and all bytes if and only if none processed any bytes |
| `Statistics.Tool.Collect` | tools/ndptool/stats.c:118-161 | a visit adds what the thread has posted to the totals and empties it, or does nothing in incremental mode or when the thread has finished; the other threads stay as they are |
| `Statistics.Tool.CollectPass` | tools/ndptool/stats.c:118-161 | a pass, the threads going on before each visit, takes all that every unfinished thread had posted when it began; in incremental mode the totals stay |
| `Statistics.Tool.CollectLoop` | tools/ndptool/stats.c:107-177 | over any passes the totals are what was taken from the threads; each pass takes all that the unfinished ones had posted when it began |
| `Statistics.Tool.Gather` | tools/ndptool/main.c:399-405 | joining one thread after another while the others go on, the totals end as the number and the length of all packets counted where the collector looks, in both modes; the number is that of all packets processed if and only if no thread with a private copy processed any, the length likewise for bytes |
| `Statistics.OwnFileUncounted` | tools/ndptool/transmit.c:81-91 | a thread of transmit -m, whatever it sends, leaves nothing to gather |
| `Statistics.ReplayOwnFile` | tools/ndptool/transmit.c:103 | one such thread and one packet of 64 bytes: the totals end at zero |
| `QueueMap.TargetIsBlock` | libnfb/include/netcope/info.h:335 | the queues of an interface are one block, given by its first queue and the next interface's |
| `QueueMap.TargetExact` | libnfb/include/netcope/info.h:335 | without division: queue q of cnt goes to i of n if and only if i * cnt <= q * n < (i + 1) * cnt |
| `QueueMap.TargetInRange` | libnfb/include/netcope/info.h:335 | every queue has an interface, and later queues do not go to earlier ones |
| `QueueMap.BlockSize` | libnfb/include/netcope/info.h:335 | every block has the rounded-down or the rounded-up share |
| `QueueMap.CountAll` | libnfb/include/netcope/info.h:330-339 | counting the queues of an interface gives the size of its block |
| `QueueMap.MapQueues` | libnfb/include/netcope/info.h:330-347 | the loop gives every queue its interface and endpoint; the counters are the block sizes and sum to the number of queues |
| `QueueMap.EndpointsAgree` | libnfb/include/netcope/info.h:312-333 | when every endpoint has the same number of interfaces, a queue is on its interface's endpoint |
| `QueueMap.EndpointsDisagree` | libnfb/include/netcope/info.h:312-333 | otherwise some number of queues puts a queue on another endpoint |

## Left out

- The protocol 3 (Calypte) queue paths, register-level component drivers, PCI and character-device plumbing, device-tree handling, DPDK modes, option parsing, printing and timing: no state machine with a specification of its own.
- The controller itself: it is any party that writes or reads behind the pointers it is given; DMA, interrupts and memory barriers are not modelled.
- Ring memory is a sequence that a store replaces, not an array with two mappings: in-place update and aliasing of the mapping are covered only through masked addresses.
- A driver call is one step. `ndp_channel_rxsync` stores the caller's pointer before it takes the channel's lock; here that happens in the same step.
- NdpChannel.Channel.Stop: models success and -EAGAIN; the forced second attempt of `ndp_subscription_stop` is a further call.
- Failed allocations, NUMA placement and prefetching, everywhere.
- TxQueueV1.Queue.BurstGet: for packets that are given room, of any length else; a packet whose padded size is a multiple of 65536 bytes has its header stored over its neighbour or outside the window, and no layout of it exists (`Framing.OnlyRoomEncodes`).
- TxQueueV1.Queue.PlaceAll: for the same packets.
- TxQueueV1.Queue.Run: for the same packets.
- TxQueueV2.Queue.BurstGet: asks a started queue only while its pointers are in order, which they are unless the stopped queue was asked before without a flush since; the zero padding of short packets and the contents of the packet buffers are not modelled.
- TxQueueV2.Queue.Run: goes up to a get that follows one of the stopped queue without a flush between, also where a put between has happened to flush, which a caller cannot see; what such a get does is shown for one run only (`StoppedBurst.StoppedGetLoses`).
- RxQueueV1.Queue.BurstGet: for controllers that write whole well-formed frames; what the two error exits do with a stopped queue or the process is not modelled.
- RxQueueV1.Queue.Run: for started queues; restarting is `RxQueueV1.Queue.Start`.
- Subscribing.Channel.Subscribe: what a controller makes of the flags is a parameter.
- Xdp.Reader.Run: setting up sockets and closing them are not modelled.
- Xdp.Generator.Run: drawing random lengths, setting up sockets and closing them are not modelled, nor the 32-bit product of frame number and size for areas of 4 GiB and more; the collecting loop may go on for as long as the kernel returns nothing.
- FlashTable.LoadPartitionTable: reading the file table's text, names and titles is not modelled.
- FlashTable.Boot.LoadImage: siblings are looked at in slot order instead of device-tree order (of slots that follow each other at most one matches); missing properties and setting priorities are not modelled.
- FeatureLock.Device.TryLock: copying the request and its path from the caller is not modelled.
- MmapRegions.Device.Lookup: what the region's driver does with the request is not modelled.
- MmapRegions.WrappingAccepted: whether such a request gets as far as `nfb_char_mmap` depends on the kernel, as newer ones refuse in `do_mmap` an offset and length that overflow.
- BusCopy.Memcopy: the wide accesses of builds with AVX2 and the fence after write-combined stores are not modelled.
- ImageFraming.OpenRbf: words are stored low byte first, as on the hosts the tool is for; the write index is unbounded, where the source's is a 32-bit `int`.
- PcapReplay.Transmit: replay without a cache, the throughput limit, and clearing the counters on a signal are not modelled.
- Statistics.Tool.CollectLoop: counters are unbounded; the path without an interval, which clears counters on a signal, and the rates shown are not modelled.
- QueueMap.MapQueues: products are unbounded; the virtual interfaces added for endpoints without queues are not modelled.
