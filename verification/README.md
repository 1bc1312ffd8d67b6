# Verified models of the CH579 LED server's network stack

The server is a small program on a CH579 with lwIP 2.1.2 under it.  This project models the parts
of that code whose state is hardest to keep right, and proves what they promise.  It is checked with
`dafny verify dfyconfig.toml`.

| file | models |
|---|---|
| HeapBlocks.dfy, HeapRuns.dfy, HeapLive.dfy, Heap.dfy | the heap of mem.c: blocks as values, runs of frees and trims, what every operation does to the blocks in use and the free bytes, and the byte array with its linked headers, including frees from other contexts inside mem_malloc |
| Checksum.dfy, ChecksumPbuf.dfy | the Internet checksum (section 2 of RFC 1071) in lwIP's three versions, over pbuf chains and pseudo headers (RFC 768, section 3.1 of RFC 793) |
| RxRing.dfy | the receive ring between the Ethernet interrupt and the main loop, and low_level_input |
| Rtc.dfy | setting and reading the real-time clock, for any calendar |
| DnsName.dfy | encoding, comparing and skipping names in DNS packets (sections 2.3.4, 3.1 and 4.1 of RFC 1035) |
| DnsAnswer.dfy | the checks of a DNS reply and the walk over its answers (sections 4.1.3 and 4.1.4 of RFC 1035) |
| DnsTable.dfy, Dns.dfy, DnsRuns.dfy | the resolver: entries, requests, transaction ids, UDP pcbs, retries, replies and failover, and what becomes of a request along every run |
| SocketSlots.dfy, SlotRuns.dfy | reference-counted descriptor slots in full-duplex mode, and what threads can rely on along every run |
| SelectList.dfy, Select.dfy, SelectRuns.dfy | select: the doubly linked list of waiters, the events and the restarting walk, and when calls wait, are signalled and end along every run |
| StreamRecv.dfy | reading from a TCP socket |
| NetconnWrite.dfy, Netconn.dfy | vectored writes, and how requests on a netconn are parked, resumed and acknowledged |
| Wrappers.dfy | bytes, an option type, concatenation and a fact about sets |

Code that changes state in place is a class whose methods follow the source statement by statement,
each proved against specification functions.  What such a function means is proved without it: about
the blocks in use, the references granted, the ticks that have passed, the bytes that arrived (the files
ending in Live and Runs, and the lemmas whose names end in Means).  What several operations together
promise is proved about the functions, and about methods that run any sequence of operations (`Session`, `Run`) and
return the states they pass through, or say which state the operations lead to.
Concurrency is modelled in two ways.  Where one thread is interrupted (mem_malloc, the receive ring, a
blocked reader) the method takes a schedule that says what happens in each window, or the socket is
made with everything that will arrive and how much of it falls in each window.  Where threads are
equals (slots, select, netconn callbacks) every section under the lock is a method and `Run`
interleaves them arbitrarily.  TCP, UDP, pbufs, mailboxes and semaphores are not modelled themselves:
what they answer is a parameter, so the results hold for every answer.

## What the proofs found

- `mem_trim` asserts that the block behind the one it cuts is not the end marker (mem.c:790).  That
  fails exactly when the last block of the heap is shrunk enough to split
  (`HeapBlocks.TrimAsserts`, `HeapRuns.TrimAssertFailsOnLastBlock`); the heap it would write is valid.
- `mem_sanity` accepts a wrong link back from the second block if it leads to the block itself, since the first
  block is not asked whether its neighbour links back to it (`Heap.Heap.Sanity`).
- `inet_cksum_pseudo_partial_base` has a leftover assertion that holds exactly if the first pbuf leaves
  fewer than 0x7fff bytes to sum (`ChecksumPbuf.PartialAsserts`, `ChecksumPbuf.PartialAssertFails`).
- The comment of RTC_InitTime allows years up to BEGYEAR + 44, but the end of that year does not fit in
  the 14-bit day counter (`Rtc.EndOf2064DoesNotFit`).
- `low_level_input` loses the tail of a frame that gets more than one pbuf, because ETHRecX removes a
  whole frame per call.  The pbufs hold the frame exactly if there is one of them, or if the next frame
  in the ring happens to start with the tail (`RxRing.WholeExactly`, `RxRing.TailIsLost`).
- A peek is not free of effects: it takes a FIN or an error for good.  If nothing arrives meanwhile, it
  leaves what a reader can see unchanged exactly if the socket is dead, or there are bytes to look at, or
  no FIN is pending, no message is in the mailbox and no error is pending
  (`StreamRecv.TcpSocket.LwipRecvTcp`, `StreamRecv.PeekAtFin`, `StreamRecv.PeekAtError`).
- `dns_skip_name` skips every domain name but the root, of which it takes the next byte for the rest, so
  answers with that owner are misread (`DnsAnswer.SkipsExactly`).
- A second close of a netconn while one is running overwrites current_msg, where an assertion stands
  (`Netconn.Conn.DoClose`, `Netconn.CloseTwice`).
- Deleting a netconn that is still connecting keeps NETCONN_FLAG_IN_NONBLOCKING_CONNECT set; if the pcb
  could not be closed, err_tcp would never acknowledge the request (`Netconn.Conn.DoDelconn`,
  `Netconn.Conn.ErrTcp`, `Netconn.DeleteForgotten`).
- A blocking write goes round its loop without progress while the send buffer is full, if a positive
  multiple of 0x10000 bytes is left in a vector that is not the last one (`NetconnWrite.WriteRound`,
  `NetconnWrite.WriteMore`, `NetconnWrite.NeverLeaves`).

## Model

| member | source | states |
|---|---|---|
| HeapBlocks.AlignUp | lwip-2.1.2/src/core/mem.c:846-850 | rounding up never shrinks and adds less than the alignment |
| HeapBlocks.AlignUpIsMask | lwip-2.1.2/src/core/mem.c:846 | the recursive rounding is the quotient form of LWIP_MEM_ALIGN_SIZE |
| HeapBlocks.AlignUpIsMultiple | lwip-2.1.2/src/core/mem.c:846 | the rounded size is a multiple of the alignment |
| HeapBlocks.RoundSizeExact | lwip-2.1.2/src/core/mem.c:846-856 | despite the 16-bit wrap-around a size is refused exactly if its true rounded value exceeds the heap, and an accepted one is rounded up to the alignment, or MIN_SIZE |
| HeapBlocks.FirstFit | lwip-2.1.2/src/core/mem.c:867-888 | the lowest block from a position on that is free and large enough |
| HeapBlocks.FirstFitSkipsUsed | lwip-2.1.2/src/core/mem.c:867-871 | starting the scan at lfree instead of the first block skips no candidate |
| HeapBlocks.NoRoomAbove | lwip-2.1.2/src/core/mem.c:870-871 | the upper bound of the scan cuts off no candidate |
| HeapBlocks.AllocValid | lwip-2.1.2/src/core/mem.c:886-927 | taking a block, split or whole, keeps tiling, minimum sizes and coalescing |
| HeapBlocks.ReleaseInSteps | lwip-2.1.2/src/core/mem.c:669-680 | mem_free is marking, then joining forward, then joining backward, each step tiled and the last one coalesced |
| HeapBlocks.StepsCoalesced | lwip-2.1.2/src/core/mem.c:474-510 | the two halves of plug_holes leave no two neighbours free |
| HeapBlocks.ReleaseValid | lwip-2.1.2/src/core/mem.c:617-686 | freeing a live block keeps the heap invariant |
| HeapBlocks.ReleaseShrinksLive | lwip-2.1.2/src/core/mem.c:617-686 | freeing makes no new address live |
| HeapBlocks.ReleaseLow | lwip-2.1.2/src/core/mem.c:670-680 | where lfree ends up: everything below stays in use, and if it moves or was exact it is the lowest free block |
| HeapBlocks.TrimValid | lwip-2.1.2/src/core/mem.c:751-804 | trimming, by moving the free block behind or by splitting, keeps the heap invariant |
| HeapBlocks.DataIsNeverHeader | lwip-2.1.2/src/core/mem.c:341-420 | live data never overlaps a header |
| HeapBlocks.AllocAligned | lwip-2.1.2/src/core/mem.c:902-911 | allocation keeps all block offsets aligned |
| HeapBlocks.ReleaseAligned | lwip-2.1.2/src/core/mem.c:474-510 | freeing keeps all block offsets aligned |
| HeapBlocks.TrimAligned | lwip-2.1.2/src/core/mem.c:751-804 | trimming keeps all block offsets aligned |
| HeapBlocks.NoLiveBlockIsInitial | lwip-2.1.2/src/core/mem.c:516-545 | a valid heap without a live block is the single free block of mem_init |
| HeapRuns.ApplyValid | lwip-2.1.2/src/core/mem.c:617-820 | every such call keeps the heap invariant |
| HeapRuns.ApplyKeepsOthers | lwip-2.1.2/src/core/mem.c:617-820 | a call leaves every live block but the one it names where it is |
| HeapRuns.ApplyShrinksLive | lwip-2.1.2/src/core/mem.c:617-820 | a call makes no new address live |
| HeapRuns.AllocTakes | lwip-2.1.2/src/core/mem.c:886-927 | the block mem_malloc takes lies in the heap, has room for the size, and held no live data |
| HeapRuns.AllocOtherLive | lwip-2.1.2/src/core/mem.c:886-927 | whatever is live after mem_malloc and outside the new block was live before |
| HeapRuns.AllocKeepsLive | lwip-2.1.2/src/core/mem.c:886-927 | whatever was live before mem_malloc is live after it |
| HeapRuns.AllocatedPointerAligned | lwip-2.1.2/src/core/mem.c:955-964 | the pointer mem_malloc returns is aligned |
| HeapRuns.TrimAssertFailsOnLastBlock | lwip-2.1.2/src/core/mem.c:781-804 | a concrete valid heap on which mem_trim runs into its assertion of line 790 although the result would be valid |
| HeapRuns.RunWindowsValid | lwip-2.1.2/src/core/mem.c:872-884 | any schedule of frees and trims in unprotected windows keeps the heap invariant |
| HeapRuns.RunWindowsKeepBusy | lwip-2.1.2/src/core/mem.c:929-950 | the block mem_malloc has just taken survives whatever other contexts do |
| HeapRuns.RunWindowsShrinkLive | lwip-2.1.2/src/core/mem.c:872-884 | other contexts make no new address live |
| HeapRuns.QuietWindows | lwip-2.1.2/src/core/mem.c:872-884 | without other contexts the windows change nothing |
| HeapLive.InUseDecides | lwip-2.1.2/src/core/mem.c:369-420 | a valid heap is decided by its blocks in use: two valid heaps with the same blocks in use are the same list of blocks |
| HeapLive.AllocTaken | lwip-2.1.2/src/core/mem.c:886-927 | if the fit leaves a header and MIN_SIZE beyond the size, the block taken ends behind its data, a free block begins there and ends where the old one did, and the free bytes fall by header and size; otherwise all of it is taken; every other block, in use or free, is as it was |
| HeapLive.FitMalloced | lwip-2.1.2/src/core/mem.c:831-927 | first fit and taking it: the lowest free block that holds the size becomes taken in that way, or none holds it |
| HeapLive.ReleaseInUse | lwip-2.1.2/src/core/mem.c:617-686 | freeing takes exactly the block named off the blocks in use, and the free bytes grow by all its bytes |
| HeapLive.TrimInUse | lwip-2.1.2/src/core/mem.c:751-804 | trimming leaves the blocks in use as they are but for the end of the one trimmed, which moves exactly if a free block follows or a header and MIN_SIZE fit behind it; the free bytes grow by what was cut off |
| HeapLive.ApplyCalled | lwip-2.1.2/src/core/mem.c:617-820 | what every call of mem_free and mem_trim does to the blocks in use and to the free bytes, invalid pointers and sizes included |
| HeapLive.RunCallsFree | lwip-2.1.2/src/core/mem.c:617-820 | a block is live after any calls of other contexts exactly if it was and none of them freed it, the block mem_malloc is busy with apart |
| HeapLive.WindowsInTurn | lwip-2.1.2/src/core/mem.c:872-950 | in the windows of mem_malloc all calls of other contexts are made, in their order, each with its effect on the blocks in use and the free bytes, but for those that name the block mem_malloc is busy with |
| Heap.Heap.constructor | lwip-2.1.2/src/core/mem.c:516-545 | mem_init writes the headers of one free block and the end marker, with lfree at the block |
| Heap.Heap.PlugHoleForward | lwip-2.1.2/src/core/mem.c:483-496 | joining with the free block behind, on the bytes of the headers, and moving lfree along |
| Heap.Heap.PlugHoleBackward | lwip-2.1.2/src/core/mem.c:498-509 | joining with the free block before, and moving lfree along |
| Heap.Heap.BlockLinkValid | lwip-2.1.2/src/core/mem.c:551-564 | mem_link_valid accepts every block of the list |
| Heap.Heap.LiveHeader | lwip-2.1.2/src/core/mem.c:651-667 | the flag and the links tell a live block from a freed one |
| Heap.Heap.Free | lwip-2.1.2/src/core/mem.c:617-686 | mem_free releases exactly the live block named, which is no longer live and whose bytes are free again, refuses NULL, misaligned, foreign and freed pointers, keeps links, lfree and all remaining live data |
| Heap.Heap.Trim | lwip-2.1.2/src/core/mem.c:699-820 | mem_trim: the new blocks, the returned pointer in every case, live data up to the new size unchanged, and exactly when its assertions hold |
| Heap.Heap.Scan | lwip-2.1.2/src/core/mem.c:863-888 | one pass of the interruptible scan: it ends at the lowest fit of the heap as it is then, or at its end with no fit, or because other contexts freed |
| Heap.Heap.Commit | lwip-2.1.2/src/core/mem.c:886-927 | the header writes that take the block found are the block operation of which HeapLive.AllocTaken says what it takes and leaves; live data stays |
| Heap.Heap.FindNextFree | lwip-2.1.2/src/core/mem.c:931-950 | one walk of lfree to the next free block, abandoned if disturbed |
| Heap.Heap.AdjustLfree | lwip-2.1.2/src/core/mem.c:929-950 | the restarted walk ends, with lfree exact whatever other contexts freed meanwhile |
| Heap.Heap.Malloc | lwip-2.1.2/src/core/mem.c:831-976 | with frees and trims in every unprotected window: of the heap at the moment the search ends the lowest free block that holds the size is taken, with the rest split off exactly if a header and MIN_SIZE fit and all other blocks unchanged; NULL exactly if the size is invalid or nothing fits then; invariant and lfree exact afterwards, other live data unchanged |
| Heap.Heap.MallocAlone | lwip-2.1.2/src/core/mem.c:831-976 | without interference: the lowest free block that holds the size is taken, up to the end of its data if a header and MIN_SIZE are left, which stay a free block; every other block is unchanged and the free bytes fall by what was taken; aligned, in range, apart from all live data, which is unchanged; NULL exactly if the size is invalid or nothing fits |
| Heap.Heap.Sanity | lwip-2.1.2/src/core/mem.c:568-607 | which overwritten headers mem_sanity notices: with the next links in order, all its asserts hold exactly if the blocks are aligned and linked back, flags are flags, no two free blocks are neighbours and the end marker is there; of the second block, a link back to the block itself passes too |
| Heap.Heap.LinkedIsSane | lwip-2.1.2/src/core/mem.c:568-607 | on a valid heap all these asserts hold |
| Heap.Session | lwip-2.1.2/src/core/mem.c:473-976 | any run from mem_init: every allocation takes the lowest fit and leaves the rest of it free, every free and trim changes the block it names and no other block in use; valid, lfree exact, sane, and the initial free block again if nothing is live |
| Checksum.Canon | lwip-2.1.2/src/core/inet_chksum.c:162-165 | the canonical representative: zero only for zero, itself up to 0xffff |
| Checksum.CanonIsModulo | lwip-2.1.2/src/core/inet_chksum.c:162-165 | it is the residue modulo 0xffff in 1..0xffff |
| Checksum.WordSumConcat | lwip-2.1.2/src/core/inet_chksum.c:265-283 | the sum of a concatenation, with the second part byte-swapped at an odd offset |
| Checksum.BigEndianSwaps | lwip-2.1.2/src/core/inet_chksum.c:86-104 | the big-endian word sum of version 1 is the little-endian one times 256 |
| Checksum.BigEndianBound | lwip-2.1.2/src/core/inet_chksum.c:86-104 | the big-endian sum of n bytes is at most 0xffff * (n + 1) / 2, so that of 0x20000 bytes fits in 32 bits |
| Checksum.SwappedBigEndian | lwip-2.1.2/src/core/inet_chksum.c:105-113 | folding and swapping the big-endian sum gives the little-endian checksum |
| Checksum.StandardChksum1 | lwip-2.1.2/src/core/inet_chksum.c:79-114 | version 1 is the reference sum for up to 0x20000 bytes with its 32-bit accumulator |
| Checksum.OddStart | lwip-2.1.2/src/core/inet_chksum.c:139-170 | collecting the first byte of an odd address in the high half and swapping at the end gives the sum from the first byte |
| Checksum.StandardChksum2 | lwip-2.1.2/src/core/inet_chksum.c:132-173 | version 2 is the reference sum for every address parity and up to 0x20000 bytes, and reads 16-bit words at even addresses only |
| Checksum.AddCarryCanon | lwip-2.1.2/src/core/inet_chksum.c:213-222 | 32-bit addition with end-around carry keeps the value modulo 0xffff |
| Checksum.Word32Canon | lwip-2.1.2/src/core/inet_chksum.c:213-222 | adding a 32-bit word is adding its two 16-bit words |
| Checksum.AddLongs | lwip-2.1.2/src/core/inet_chksum.c:213-225 | the unrolled loop accounts for all but at most seven bytes |
| Checksum.StandardChksum3 | lwip-2.1.2/src/core/inet_chksum.c:188-255 | version 3 is the reference sum for every length and address, and reads 16-bit and 32-bit words at aligned addresses only |
| ChecksumPbuf.ChainStep | lwip-2.1.2/src/core/inet_chksum.c:266-279 | one pbuf of a chain, with the accumulator swapped while an odd number of bytes was summed |
| ChecksumPbuf.AddPbuf | lwip-2.1.2/src/core/inet_chksum.c:266-279 | one round of the loops: the first bytes of a pbuf are added, and the sum is swapped if the pbuf is odd, whatever part of it was added |
| ChecksumPbuf.SumChain | lwip-2.1.2/src/core/inet_chksum.c:260-283 | the loop over a chain gives the sum of the concatenated payload for every split, empty and odd pbufs included |
| ChecksumPbuf.InetChksum | lwip-2.1.2/src/core/inet_chksum.c:555-558 | the checksum of flat data is the complement of the reference sum |
| ChecksumPbuf.InetChksumPbuf | lwip-2.1.2/src/core/inet_chksum.c:568-588 | the chain checksum is the checksum of the concatenated payload |
| ChecksumPbuf.ProtoSumIsChecksum | lwip-2.1.2/src/core/inet_chksum.c:285-293 | adding protocol and length byte-swapped equals checking the pseudo header in front of the payload |
| ChecksumPbuf.InetChksumPseudo | lwip-2.1.2/src/core/inet_chksum.c:260-327 | the pseudo-header checksum is the flat checksum of pseudo header and payload |
| ChecksumPbuf.SumPrefix | lwip-2.1.2/src/core/inet_chksum.c:399-429 | the partial loop sums exactly the first chksum_len bytes, also when the cut pbuf is odd, and its leftover assertion holds exactly under a condition on the first pbuf |
| ChecksumPbuf.InetChksumPseudoPartial | lwip-2.1.2/src/core/inet_chksum.c:399-473 | the partial pseudo-header checksum is the flat one over the first chksum_len bytes |
| ChecksumPbuf.PartialAssertFails | lwip-2.1.2/src/core/inet_chksum.c:399-429 | a chain of two pbufs on which the leftover assertion fails |
| ChecksumPbuf.StoredChecksumVerifies | lwip-2.1.2/src/core/inet_chksum.c:555-558 | storing the checksum at an even zeroed offset makes the data check as 0 |
| Rtc.DayNumberInjective | StdPeriphDriver/CH57x_clk.c:577-616 | in every calendar of non-empty years and months in which twelve months are a year, no two valid dates have the same day number |
| Rtc.GregorianProper | StdPeriphDriver/CH57x_clk.c:586-595 | the macros of CH57x_clk.h for the lengths of years and months are such a calendar |
| Rtc.DayAfter | StdPeriphDriver/CH57x_clk.c:577-616 | day 0 is the first of January of BEGYEAR, and in every such calendar each date has the number behind that of the day before |
| Rtc.MonthsAre | StdPeriphDriver/CH57x_clk.c:586-595 | the macros give the months their well-known lengths, and up to 2099 every fourth year is a leap year |
| Rtc.Clock.InitTime | StdPeriphDriver/CH57x_clk.c:577-616 | the registers loaded: the day number and the half-second time, in 16-bit arithmetic |
| Rtc.Clock.GetTime | StdPeriphDriver/CH57x_clk.c:634-663 | both searches end, at the valid date whose day number is the 14-bit day counter |
| Rtc.SetThenGet | StdPeriphDriver/CH57x_clk.c:577-663 | in every such calendar, date and time read back as set if and only if the day number fits in 14 bits |
| Rtc.EndOf2064DoesNotFit | StdPeriphDriver/CH57x_clk.c:555-575 | the last day of the documented maximum year does not read back: it is beyond 14 bits |
| RxRing.ArriveAllKeeps | Net/src/eth_mac.c:245-275 | arriving frames only join the end of the queue, and never fill the last slot |
| RxRing.ArriveAllExactly | Net/src/eth_mac.c:245-275 | of the frames that arrive the first are accepted, as many as there is room for, and no others |
| RxRing.ArriveInExactly | Net/src/eth_mac.c:190-275 | the same for all that arrives in a range of windows |
| RxRing.Ring.CountersFit | Net/src/eth_mac.c:190-224 | RecvIndex is ReadIndex plus RemainCout modulo RX_QUEUE_NUM |
| RxRing.Ring.DmaAvoidsUnread | Net/src/eth_mac.c:255-272 | the DMA target is no unread slot, the one being copied included |
| RxRing.Ring.Interrupt | Net/src/eth_mac.c:255-272 | the receive interrupt accepts the frame at the end of the FIFO, or drops it when two are queued |
| RxRing.Ring.CopyOut | Net/src/eth_mac.c:202-207 | copying byte by byte with interrupts in between yields the frame that was oldest at the start |
| RxRing.Ring.TakeOut | Net/src/eth_mac.c:216-221 | the four statements behind the copy, with a window before, between and behind them, remove exactly the oldest frame, whatever arrives between them |
| RxRing.Ring.ETHRecX | Net/src/eth_mac.c:190-225 | with interrupts between any two statements: the oldest frame comes out, cut to the buffer, and the queue is the FIFO with the arrivals |
| RxRing.Ring.GetRecvMacDataLen | Net/src/eth_mac.c:227-240 | the length of the oldest frame, 0 without one |
| RxRing.QuietPopped | Net/src/eth_mac.c:216-221 | without arrivals the frames that leave are the oldest ones, and no more than there are |
| RxRing.WholeExactly | Net/src/ethernetif.c:205-221 | for the queues the ring can hold, exactly when the pbufs together hold the frame: it got one pbuf, or the next frame starts with its tail; so with one frame queued exactly if it got one pbuf |
| RxRing.TailIsLost | Net/src/ethernetif.c:205-221 | a frame of two bytes that gets two pbufs of one byte loses the second |
| RxRing.Ring.Fill | Net/src/ethernetif.c:205-221 | every pbuf of a chain takes the start of a frame of its own as long as there are frames, and each of these frames is removed |
| RxRing.Ring.LowLevelInput | Net/src/ethernetif.c:161-225 | which frames are removed, in which windows, for every chain: none if allocation fails, exactly the one delivered whole if it got one pbuf, one for each pbuf as long as there are any; without arrivals, the queue that is left and exactly when the frame is delivered |
| DnsName.JoinSplit | lwip-2.1.2/src/core/dns.c:791-807 | the labels found between the dots join to the name |
| DnsName.SplitAtDots | lwip-2.1.2/src/core/dns.c:796-798 | no label contains a dot |
| DnsName.WireLength | lwip-2.1.2/src/core/dns.c:777-778 | the encoded name is two bytes longer than the hostname |
| DnsName.EncodeLabel | lwip-2.1.2/src/core/dns.c:794-806 | one round of the encoding loop writes one label behind its length |
| DnsName.EncodeName | lwip-2.1.2/src/core/dns.c:791-809 | the encoding loop writes the wire form of section 3.1 of RFC 1035 and ends behind it |
| DnsName.BuildQuery | lwip-2.1.2/src/core/dns.c:776-818 | the packet, byte by byte: id and flags, one question, encoded name, type A and class IN |
| DnsName.CompareName | lwip-2.1.2/src/core/dns.c:651-698 | the loop with its 16-bit offset checks computes Compared |
| DnsName.SkipName | lwip-2.1.2/src/core/dns.c:708-739 | the loop with its 16-bit offset checks computes Skipped |
| DnsName.LowerMeans | lwip-2.1.2/src/core/dns.c:686 | two characters are compared as equal exactly if they are the same, or one letter in both cases |
| DnsName.CompareDecides | lwip-2.1.2/src/core/dns.c:651-698 | exactly what dns_compare_name accepts: an uncompressed name at the offset whose letters agree with the query up to case, dots and end unchecked |
| DnsName.SkipFollowsCompare | lwip-2.1.2/src/core/dns.c:651-739 | on every packet dns_skip_name ends where an accepting dns_compare_name ends |
| DnsName.NameRoundTrip | lwip-2.1.2/src/core/dns.c:651-809 | the encoded name of a hostname is accepted for any letter case of it and skipped, both ending at start + strlen + 2 |
| DnsName.QueryRoundTrip | lwip-2.1.2/src/core/dns.c:651-818 | the same for the packet dns_send builds, and the query fields follow |
| DnsAnswer.FindAddress | lwip-2.1.2/src/core/dns.c:1268-1332 | the walk over the answers computes Answers |
| DnsAnswer.Examine | lwip-2.1.2/src/core/dns.c:1201-1270 | the checks of a packet for the entry with its id compute Examined |
| DnsAnswer.AddressIsAnswer | lwip-2.1.2/src/core/dns.c:1201-1332 | whatever packet comes in, an address is only taken from an answer behind the question that was asked, in a response of the server that was asked to one question, without an error code |
| DnsAnswer.NotIgnored | lwip-2.1.2/src/core/dns.c:1187-1250 | whatever packet comes in: unless it is ignored it is a response of the server that was asked to the one question that was asked, and then a failure exactly if it carries an error code |
| DnsAnswer.SameAddress | lwip-2.1.2/src/core/dns.c:1287-1292 | two addresses are the same exactly if the same four bytes stand there |
| DnsAnswer.SkipsExactly | lwip-2.1.2/src/core/dns.c:708-739 | of the names of section 4.1.4 of RFC 1035, pointers included, dns_skip_name skips exactly those that are not the root |
| DnsAnswer.AnswersDecide | lwip-2.1.2/src/core/dns.c:1268-1332 | of any encoded records the first address of the Internet class decides |
| DnsAnswer.ReplyIsUnderstood | lwip-2.1.2/src/core/dns.c:1170-1358 | every well-formed reply to the question is understood: an error code is noticed, and otherwise the first address among its answers decides |
| DnsTable.TakenIdsAre | lwip-2.1.2/src/core/dns.c:1008-1015 | no more ids are taken than there are entries |
| DnsTable.PortLeft | lwip-2.1.2/src/core/dns.c:975-995 | closing the pcb of an entry unless another asking entry uses it keeps pcbs and users matched |
| DnsTable.PortJoined | lwip-2.1.2/src/core/dns.c:900-933 | an entry that takes a new or an open pcb keeps pcbs and users matched |
| DnsTable.BudgetIs | lwip-2.1.2/src/core/dns.c:1070-1094 | the tick budget is DNS_MAX_SERVERS * (1 + R * (R - 1) / 2) |
| DnsTable.DueBounds | lwip-2.1.2/src/core/dns.c:1070-1094 | an asking entry has between one tick and the whole budget left |
| Dns.Resolver.PendingRequest | lwip-2.1.2/src/core/dns.c:241-254 | a pending request points at an asking entry and is younger than the budget |
| Dns.Resolver.WaitingRequest | lwip-2.1.2/src/core/dns.c:241-254 | every accepted request not called back yet is pending and younger than the budget |
| Dns.Resolver.PcbOpen | lwip-2.1.2/src/core/dns.c:900-996 | between operations a pcb slot is open if and only if an asking entry uses it |
| Dns.Resolver.OneMatch | lwip-2.1.2/src/core/dns.c:1195-1198 | a transaction id matches at most one asking entry |
| Dns.Resolver.CreateTxid | lwip-2.1.2/src/core/dns.c:1000-1018 | a fresh id after at most DNS_TABLE_SIZE + 1 draws of the wrapping counter |
| Dns.Resolver.AllocPcb | lwip-2.1.2/src/core/dns.c:900-933 | the lowest closed slot if a pcb can be created, otherwise the next open one, going round from the latest; none exactly if none is open and none can be created |
| Dns.Resolver.NextOpen | lwip-2.1.2/src/core/dns.c:918-932 | the circular search finds the first open pcb behind the latest, if there is one |
| Dns.Resolver.RunCallback | lwip-2.1.2/src/core/dns.c:962-968 | a callback is only ever called for a request still waiting, and marks it called |
| Dns.Resolver.AnswerAll | lwip-2.1.2/src/core/dns.c:962-968 | exactly the requests waiting for the entry are called back |
| Dns.Resolver.ClosePort | lwip-2.1.2/src/core/dns.c:975-995 | the pcb is closed unless another asking entry shares it |
| Dns.Resolver.CallFound | lwip-2.1.2/src/core/dns.c:942-996 | dns_call_found keeps all invariants and leaves no request and no pcb with the entry |
| Dns.Resolver.Send | lwip-2.1.2/src/core/dns.c:748-865 | without a server the request is given up, otherwise the query goes out on an open pcb |
| Dns.Resolver.CountDown | lwip-2.1.2/src/core/dns.c:1070-1093 | each tick takes exactly one tick off the time that is left; the query goes out again after 1, 1, 2, 3, ... ticks, at the last retry to the next server if there is one, and otherwise it timed out |
| Dns.Resolver.CheckEntry | lwip-2.1.2/src/core/dns.c:1047-1118 | dns_check_entry in every state: asked anew, counted down, given up with its requests called back, or aged |
| Dns.Resolver.Tmr | lwip-2.1.2/src/core/dns.c:395-400 | one tick: of every asking entry exactly one tick less is left, its query goes out again exactly if the wait is over, and exactly the requests of an entry at its last retry without another server are called back without an address; cached answers age |
| Dns.Resolver.CorrectResponse | lwip-2.1.2/src/core/dns.c:1137-1164 | the answer is cached with its limited TTL and everyone waiting for it is called back with the address |
| Dns.Resolver.AskBackup | lwip-2.1.2/src/core/dns.c:1254-1266 | an error response with a backup server moves the entry on to it at once, within the budget |
| Dns.Resolver.Recv | lwip-2.1.2/src/core/dns.c:1170-1358 | a datagram affects only the entry that asked with its id, and that one as the checks of its bytes, sender and answers decide: ignored, answered, failed over or given up |
| Dns.ReplyJudged | lwip-2.1.2/src/core/dns.c:1170-1358 | the checks of dns_recv find in such a reply an error code, or the first address among its answers |
| Dns.ReplyDecides | lwip-2.1.2/src/core/dns.c:1170-1358 | end to end: a reply of the server that was asked, in any letter case and with any records, gives its first address to everyone who waits for the entry |
| Dns.Resolver.FindEntry | lwip-2.1.2/src/core/dns.c:1414-1444 | the first unused entry, otherwise the oldest cached one by 8-bit age; an asking entry never |
| Dns.AgeCounts | lwip-2.1.2/src/core/dns.c:1424-1434 | the 8-bit age of an entry is the number of entries filled since, modulo 256 |
| Dns.Resolver.JoinDuplicate | lwip-2.1.2/src/core/dns.c:1384-1411 | a request for a name being asked for joins it if a request slot is free |
| Dns.Resolver.Fill | lwip-2.1.2/src/core/dns.c:1460-1490 | entry and request are filled, and taken back if no pcb can be had |
| Dns.Resolver.Enqueue | lwip-2.1.2/src/core/dns.c:1375-1503 | accepted requests are numbered on, asking entries are never overwritten, names are cut to 255 bytes, and ERR_MEM comes back only if requests, entries or pcbs are exhausted |
| Dns.Step | lwip-2.1.2/src/core/dns.c:942-1503 | one operation does to entries, servers, requests and ticks what its function promises, loses no accepted request and calls none back twice |
| DnsRuns.LastTick | lwip-2.1.2/src/core/dns.c:1070-1093 | with all servers set, an entry is given up at the next tick exactly if one tick is left |
| DnsRuns.SinceAsked | lwip-2.1.2/src/core/dns.c:1070-1093 | how far an entry has come tells how long it has been asked: the r-th retry at a server comes 1, 2, 4, 7, ... ticks after the first query to it |
| DnsRuns.WaitsOn | lwip-2.1.2/src/core/dns.c:1047-1118 | as long as nobody answers, a request waits while time is left and is called back without an address exactly when it is up, and each server was asked as often as the entry tells |
| DnsRuns.AlwaysInTime | lwip-2.1.2/src/core/dns.c:1047-1118 | along every run: a new request that nobody answers, with all servers set, waits for exactly DNS_MAX_SERVERS * (1 + R * (R - 1) / 2) ticks, and its query goes out exactly R times to each server in turn, at those times |
| DnsRuns.Run | lwip-2.1.2/src/core/dns.c:942-1503 | any run, each operation doing what it promises to the state before it: every accepted request was called back once or waits for an asking entry, for fewer ticks than the bound, and one that nobody answers waits for exactly that many |
| SocketSlots.Sockets.TryAlloc | lwip-2.1.2/src/api/sockets.c:507-537 | a slot is given out exactly if it is empty and nobody holds it |
| SocketSlots.Sockets.SockIncUsed | lwip-2.1.2/src/api/sockets.c:335-355 | a reference is granted exactly if no free is pending, and then it is counted: one more holder and one more in fd_used; otherwise nothing changes |
| SocketSlots.Sockets.CheckConn | lwip-2.1.2/src/api/sockets.c:460-470 | what tryget_socket saw in the slot |
| SocketSlots.Sockets.FreeSocketLocked | lwip-2.1.2/src/api/sockets.c:548-567 | the netconn leaves the slot with the last reference, otherwise freeing is left pending with the right type |
| SocketSlots.Sockets.DoneSocket | lwip-2.1.2/src/api/sockets.c:377-401 | giving back the last reference of a slot to be freed takes its netconn out |
| SocketSlots.Sockets.NetconnDelete | lwip-2.1.2/src/api/sockets.c:572-587 | netconn_delete is never given a netconn that is in a slot or was deleted |
| SocketSlots.Sockets.Perform | lwip-2.1.2/src/api/sockets.c:335-611 | every step makes of the state exactly what its function does, keeps fd_used equal to the references, and the netconn of every slot held before and after; exactly a free_socket closes a netconn |
| SocketSlots.KeptByNext | lwip-2.1.2/src/api/sockets.c:335-611 | whatever step is taken, netconns only move on and a slot held before and after keeps its netconn |
| SocketSlots.ClosedByNext | lwip-2.1.2/src/api/sockets.c:548-567 | exactly the calls of free_socket close a netconn, the one the thread saw in the slot |
| SlotRuns.RefsCounted | lwip-2.1.2/src/api/sockets.c:335-567 | along every run the references on a slot are those granted by allocations and takes, less those given back by done and close |
| SlotRuns.HoldsOn | lwip-2.1.2/src/api/sockets.c:335-567 | from the step at which a thread is granted a reference until it gives one back, it holds the slot, the netconn in the slot stays the same, and is neither taken out nor deleted |
| SlotRuns.StepDoes | lwip-2.1.2/src/api/sockets.c:335-611 | what every step does to the netconns: a new one is loose, an allocated one is in its slot, one that is closed leaves with the last reference and not before, and one that is passed to netconn_delete is deleted |
| SlotRuns.Run | lwip-2.1.2/src/api/sockets.c:335-611 | any interleaving, the state being that after all its steps: references granted, counted and given back, each step doing that, nobody losing a netconn while holding its slot; exactly the netconns that were closed leave their slots, and when all references are back all of them have; each is deleted at most once, and exactly once when the threads that took them out have gone on |
| StreamRecv.TcpSocket.Append | lwip-2.1.2/src/api/api_msg.c:292-344 | what arrives joins the end of the stream, a FIN is noted once |
| StreamRecv.TcpSocket.Window | lwip-2.1.2/src/api/api_msg.c:292-505 | the next arrivals, as many as are due, are heard: the stream, its end, the mailbox and the error are those of all that has happened |
| StreamRecv.TcpSocket.Take | lwip-2.1.2/src/api/api_lib.c:634-670 | the first message is taken from the mailbox without losing a byte, and a FIN taken is in hand |
| StreamRecv.TcpSocket.NetconnRecvData | lwip-2.1.2/src/api/api_lib.c:579-670 | fetching from the mailbox, at once or after waiting, without losing a byte; and what it returns, whatever arrives meanwhile: the bytes or the error of the first message, the end of the stream for a FIN or ERR_CLSD, and without a message, for which it waits exactly if it may, the pending error, ERR_CONN if the mailbox is closed, ERR_WOULDBLOCK if it must not wait, otherwise ERR_TIMEOUT |
| StreamRecv.TcpSocket.RecvMessage | lwip-2.1.2/src/api/api_lib.c:703-769 | the same for netconn_recv_data_tcp with no FIN pending: a FIN is refused with the pending error, or ERR_RST, once the pcb is gone, and put off with ERR_WOULDBLOCK if the caller cannot take it |
| StreamRecv.TcpSocket.HandleFin | lwip-2.1.2/src/api/api_lib.c:751-767 | a FIN in hand is reported and closes the mailbox, or becomes an error if the pcb is gone |
| StreamRecv.TcpSocket.NetconnRecvDataTcp | lwip-2.1.2/src/api/api_lib.c:703-769 | a FIN the caller cannot take is kept pending and handled by the next call; a FIN taken is reported, refused or pending |
| StreamRecv.TcpSocket.Consume | lwip-2.1.2/src/api/sockets.c:992-1006 | the bytes copied leave the pbuf kept from before, and no others |
| StreamRecv.TcpSocket.LwipRecvTcp | lwip-2.1.2/src/api/sockets.c:920-1018 | bytes in order, none twice or lost; a short count only if nothing more has arrived; it waits once at most, and never if it must not or there is something to read; the end of the stream once, behind all bytes; which error a call without bytes returns, whatever arrives meanwhile; a FIN taken is reported, refused as the pcb is gone, or left pending; and exactly when peeking has no effect |
| StreamRecv.PeekAtFin | lwip-2.1.2/src/api/sockets.c:920-1018 | a peek that takes the end of the stream |
| StreamRecv.PeekAtError | lwip-2.1.2/src/api/sockets.c:920-1018 | a peek that takes a pending error |
| StreamRecv.Session | lwip-2.1.2/src/api/sockets.c:920-1018 | for any arrivals, spread over the windows in any way, and any calls: the returned bytes are a prefix of the stream that the arrivals so far make up, and all of it after a short count; the window credit is their number; the end is reported at most once, and only when all bytes that ever arrive were returned; and no FIN is lost: it is in the mailbox, or reported, or refused, or pending |
| StreamRecv.OverStays | lwip-2.1.2/src/api/api_msg.c:292-344 | once the stream is over nothing that arrives adds to it |
| StreamRecv.PostedIs | lwip-2.1.2/src/api/api_msg.c:292-344 | the messages posted are what arrived up to the first FIN or failure, that one included, and only failures behind it |
| StreamRecv.AcceptedIs | lwip-2.1.2/src/api/api_msg.c:292-344 | the stream is the concatenated bytes of what arrived before that |
| StreamRecv.BrokenIs | lwip-2.1.2/src/api/api_msg.c:432-505 | the connection is broken exactly if a failure arrived |
| StreamRecv.LastErrIs | lwip-2.1.2/src/api/api_msg.c:432-505 | the pending error is that of the last failure, or the one before if there was none |
| NetconnWrite.CursorMeans | lwip-2.1.2/src/api/api_msg.c:1674-1726 | the ranges accepted are a prefix of the concatenated vectors, offset is finished vectors plus vector_off, and all is written exactly if no vector is left |
| NetconnWrite.Advance | lwip-2.1.2/src/api/api_msg.c:1713-1725 | accepting a range moves the cursor over vector ends correctly |
| NetconnWrite.WriteRound | lwip-2.1.2/src/api/api_msg.c:1674-1726 | one round of the loop: exactly as much is written as the send buffer and one tcp_write can take, exactly when it goes on, and exactly when a blocking write goes round without writing anything |
| NetconnWrite.WriteMore | lwip-2.1.2/src/api/api_msg.c:1640-1796 | what a call does for every sequence of answers of TCP: which round ends it and with which error, ERR_RTE without a route, ERR_WOULDBLOCK if nothing was written; never more is written than there was room for, and everything if there was room enough; and exactly when it never leaves its loop while the send buffer is full |
| NetconnWrite.NeverLeaves | lwip-2.1.2/src/api/api_msg.c:1674-1726 | vectors of 0x10000 bytes and one byte: a blocking call is still in its loop after any number of rounds, with nothing written |
| NetconnWrite.SetUp | lwip-2.1.2/src/api/api_lib.c:1008-1050 | the total length, refused on overflow or without a way to report it, and limited to SSIZE_MAX |
| Netconn.WriteOutcome | lwip-2.1.2/src/api/api_msg.c:1640-1803 | a blocking write that ended with ERR_OK had all its bytes accepted, in order |
| Netconn.Conn.Unacknowledged | lwip-2.1.2/src/api/api_msg.c:357-505 | an unacknowledged request is exactly current_msg of a netconn in WRITE, CLOSE or blocking CONNECT, and its pcb exists |
| Netconn.Conn.CloseSoonEnds | lwip-2.1.2/src/api/api_lib.c:1106-1109 | a waiting close has seen fewer than its 41 polls |
| Netconn.Conn.Signal | lwip-2.1.2/src/api/api_msg.c:492-497 | the semaphore of a request is never signalled twice |
| Netconn.Conn.CloseInternal | lwip-2.1.2/src/api/api_msg.c:920-1103 | closing ends unless memory is short and polls are left; then it can be called back |
| Netconn.Conn.DoClose | lwip-2.1.2/src/api/api_msg.c:1934-2004 | the answers in every state; the assertion that nothing is parked fails exactly if a close is running |
| Netconn.Conn.DoDelconn | lwip-2.1.2/src/api/api_msg.c:1113-1206 | refused exactly while a request is parked; keeps the invariant exactly if a pcb that is still connecting can be closed |
| Netconn.Conn.DoConnect | lwip-2.1.2/src/api/api_msg.c:1350-1415 | the answers in every state, parked only if blocking |
| Netconn.Conn.DoConnected | lwip-2.1.2/src/api/api_msg.c:1301-1340 | a blocking connect is acknowledged with the result |
| Netconn.Conn.DoListen | lwip-2.1.2/src/api/api_msg.c:1449-1521 | acknowledged at once in every outcome |
| Netconn.Conn.DoWrite | lwip-2.1.2/src/api/api_msg.c:1813-1858 | refused with the right error and nothing written, or written as far as TCP allows and then parked or done |
| Netconn.Conn.WriteOn | lwip-2.1.2/src/api/api_msg.c:1640-1803 | the parked write goes on with what TCP answers, and is acknowledged exactly if it is finished |
| Netconn.Conn.SentTcp | lwip-2.1.2/src/api/api_msg.c:398-421 | the parked write or close goes on, and nothing else changes |
| Netconn.Conn.PollTcp | lwip-2.1.2/src/api/api_msg.c:357-388 | the parked write or close goes on, and nothing else changes; a close uses up a poll |
| Netconn.Conn.ErrTcp | lwip-2.1.2/src/api/api_msg.c:432-505 | the parked request is acknowledged, a close with success; except exactly if a nonblocking connect left its flag behind |
| Netconn.Perform | lwip-2.1.2/src/api/api_msg.c:357-2004 | every step that can happen makes of the netconn and its requests exactly what its function does, and keeps the invariant |
| Netconn.CloseMeans | lwip-2.1.2/src/api/api_msg.c:1934-2004 | a close is refused, and nothing changes but the answer, or the netconn is closed, or it waits for memory |
| Netconn.DeleteMeans | lwip-2.1.2/src/api/api_msg.c:1113-1206 | a delete while nothing is parked takes the pcb away exactly if it can be closed or there is none, and waits if memory is short |
| Netconn.GoesOnMeans | lwip-2.1.2/src/api/api_msg.c:920-1103 | a close that is tried again goes on waiting exactly if memory is short and polls are left; otherwise its request is acknowledged, and after a full close the pcb is gone |
| Netconn.PolledMeans | lwip-2.1.2/src/api/api_msg.c:357-388 | a poll takes one of the polls that a waiting close has left, and changes nothing else |
| Netconn.ConnectMeans | lwip-2.1.2/src/api/api_msg.c:1350-1415 | a connect waits if the netconn blocks, or is answered ERR_INPROGRESS, or is refused with ERR_CLSD, ERR_ALREADY, ERR_ISCONN or what tcp_connect returned, and then nothing changes but the callbacks |
| Netconn.ConnectedMeans | lwip-2.1.2/src/api/api_msg.c:1301-1340 | the request that waits is told the result, the netconn is free again and the flag of a nonblocking connect is off |
| Netconn.ListenMeans | lwip-2.1.2/src/api/api_msg.c:1449-1521 | a listen is answered ERR_OK, ERR_CONN, ERR_VAL or ERR_MEM, by the state it meets and what TCP can give; only the first makes the netconn listen |
| Netconn.ErrMeans | lwip-2.1.2/src/api/api_msg.c:432-505 | a reset takes the pcb away and tells the request that waits, a close with success, unless a stale connect flag makes it be forgotten |
| Netconn.WriteStarts | lwip-2.1.2/src/api/api_msg.c:1813-1858 | a write on an idle netconn is parked and begins at once with all its vectors: it writes something if there is room, and all of it if there is room enough, and then it is acknowledged |
| Netconn.WriteResumes | lwip-2.1.2/src/api/api_msg.c:357-421 | whenever TCP has sent data or polls, a parked write goes on in that way from where it was |
| Netconn.CloseResumes | lwip-2.1.2/src/api/api_msg.c:357-421 | whenever TCP has sent data or polls, a waiting close is tried again, a poll using up one of those it has left; it goes on waiting exactly if memory is short and polls are left |
| Netconn.EveryRequest | lwip-2.1.2/src/api/api_msg.c:1113-2004 | every request gets a message of its own, whatever the netconn is doing, but for a close while another one runs |
| Netconn.CloseTwice | lwip-2.1.2/src/api/api_msg.c:1934-2004 | two closes, the first of which waits for memory: the second runs into the assertion |
| Netconn.DeleteForgotten | lwip-2.1.2/src/api/api_msg.c:1113-1206 | a nonblocking connect, a delete that finds no memory and a reset: the delete is never acknowledged |
| Netconn.Run | lwip-2.1.2/src/api/api_msg.c:357-2004 | all runs from any valid state, each step doing what its function does, up to a write that does not leave its loop: every request was acknowledged once or is the parked one, acknowledged ones never change, closes end within their polls, blocking writes that succeed wrote all |
| Select.Selects.Push | lwip-2.1.2/src/api/sockets.c:1778-1783 | linking at the front keeps next, prev and the head consistent |
| Select.Selects.Unchain | lwip-2.1.2/src/api/sockets.c:1799-1810 | unlinking joins the neighbours and leaves the rest linked |
| Select.Selects.LinkSelectCb | lwip-2.1.2/src/api/sockets.c:1771-1791 | a new entry is on the list and every walk will start again |
| Select.Selects.UnlinkSelectCb | lwip-2.1.2/src/api/sockets.c:1795-1816 | exactly the entry leaves the list and every walk will start again |
| Select.Selects.IncWaiting | lwip-2.1.2/src/api/sockets.c:2038-2070 | select_waiting of the next watched socket is incremented, or the counters are taken back on overflow or an invalid socket |
| Select.Selects.RescanSocket | lwip-2.1.2/src/api/sockets.c:1835-1900 | one socket of the second scan, or its end; of the whole scan SelectRuns.CallsEnd says that the call waits exactly if all its sockets were open and none was ready |
| Select.Selects.DecWaiting | lwip-2.1.2/src/api/sockets.c:2098-2121 | select_waiting is decremented, and is positive before |
| Select.Selects.EventCallback | lwip-2.1.2/src/api/sockets.c:2516-2559 | the event is recorded, and a walk begins exactly if the socket may have become ready and somebody waits for it |
| Select.Selects.Look | lwip-2.1.2/src/api/sockets.c:2592-2631 | the entry looked at is on the list, is signalled exactly if it was not yet and an event of the walk is in its sets, and at most once |
| Select.Selects.WalkOn | lwip-2.1.2/src/api/sockets.c:2586-2647 | the walk goes on behind a linked entry, or starts again if the list has changed |
| Select.Selects.NoLostWakeUp | lwip-2.1.2/src/api/sockets.c:1964-2648 | a call waiting for its unsignalled semaphore with a ready socket is still to be visited by an unfinished walk for that socket |
| Select.Selects.QuietMeansNotReady | lwip-2.1.2/src/api/sockets.c:1964-2648 | once all walks are over, a waiting call with a ready socket is signalled |
| Select.Perform | lwip-2.1.2/src/api/sockets.c:1964-2648 | every section that a call, an event or a walk can run makes of the state exactly what its function does, and keeps the invariant |
| SelectRuns.CallsEnd | lwip-2.1.2/src/api/sockets.c:2038-2121 | along every run: counting ends with every watched socket counted, or with those before a closed or full one taken back; the second scan has looked at every socket and ends in waiting exactly if each watched one was open and no watched event was ready when it was scanned; and a waiting call goes on exactly when it is signalled or its time is over |
| SelectRuns.ComesNearer | lwip-2.1.2/src/api/sockets.c:2038-2121 | every section brings a call nearer to its end, unless it waits and is not signalled |
| SelectRuns.EventsRecorded | lwip-2.1.2/src/api/sockets.c:2516-2545 | every socket has recorded exactly the events that happened on it |
| SelectRuns.SignalsAlways | lwip-2.1.2/src/api/sockets.c:2592-2631 | along every run a call is signalled only by a walk for an event that happened on a socket in its sets, and a walk for such an event that looks at it leaves it signalled |
| SelectRuns.WaitingExactly | lwip-2.1.2/src/api/sockets.c:2038-2121 | select_waiting of a socket is the number of calls that hold it, and of those that found it closed when they gave it back |
| SelectRuns.CallsEnter | lwip-2.1.2/src/api/sockets.c:1771-1791 | a call begins with its entry in front of the list, unsignalled, asking for the sets it was given |
| SelectRuns.WalksMove | lwip-2.1.2/src/api/sockets.c:2586-2647 | a walk looks at the first entry, or at the one behind that looked at last if the list is the same, and ends behind the last one |
| SelectRuns.Run | lwip-2.1.2/src/api/sockets.c:1964-2648 | every interleaving of any number of calls and events, each step doing what its section does: in every state passed no wake-up lost, none signalled twice, no walk on an unlinked entry; calls wait, are signalled and end as above, and select_waiting and the recorded events are exact |
| SelectList.Joined | lwip-2.1.2/src/api/sockets.c:1799-1810 | the list stays doubly linked without the entry |
| SelectList.NobodyWaits | lwip-2.1.2/src/api/sockets.c:2548-2559 | an event on a socket whose select_waiting is zero can be missed by nobody |
| SelectList.ListChanged | lwip-2.1.2/src/api/sockets.c:2635-2644 | a changed generation counter makes every walk owe every entry |
| SelectList.WalkLooked | lwip-2.1.2/src/api/sockets.c:2592-2631 | looking at an entry and signalling it discharges the walk of nothing else |
| SelectList.CountsMore | lwip-2.1.2/src/api/sockets.c:2045-2060 | select_waiting never falls below the number of calls that incremented it |

## Left out

- Register pokes, clock and UART set-up, LED control, delays and start-up code: the RTC and DMA registers are plain fields.
- The pool and libc variants of mem.c, its overflow checks, statistics and debug output.
- mem_calloc, and ptr_to_mem as a pointer: blocks are offsets into ram.
- IPv6 pseudo headers and inet_chksum_pseudo for other address types: the IPv4 form only.
- The receive ring assumes that the DMA engine has left a frame in its slot when the interrupt runs, that no frame is longer than RX_BUF_SIZE, and that `RemainCout--` is one step.
- RxRing.Ring.TakeOut: makes no claim about RxBufStau, which nothing reads.
- The transmit path of eth_mac.c.
- Rtc.Clock.InitTime: models the registers as three fields; the load sequence of the hardware is not modelled.
- Heap.Heap.Free: not called with a pointer into the data of a live block whose bytes there look like a linked, used header; mem_free takes that for a block.
- Heap.Heap.Trim: not called with a pointer that is no live block, which mem_trim would take for one.
- DnsAnswer.Examine: IPv4 only, so every entry asks for type A; what lies behind a name in the table is a parameter.
- Dns.Resolver.Send: a failed pbuf_alloc or udp_sendto only loses the packet and changes no state, so neither is modelled.
- Multicast DNS, local host lists, IPv6 and mixed address types, numeric hostnames and the cache lookup of dns_gethostbyname.
- Callbacks that call into the resolver again.
- That "accepted" by dns_compare_name implies "equal": it is not what the code decides; `DnsName.CompareDecides` says what it does decide.
- SocketSlots.Sockets.SockIncUsed: fewer than 256 references to a slot at a time, as its assertion demands of the 8-bit counter.
- lastdata and the events of a slot are not part of SocketSlots; the peer-lookup error path of lwip_accept is left out.
- The first scan of lwip_select, which only decides whether to wait at all, poll, and the references select takes on its sockets.
- Select.Selects.EventCallback: rcvevent and the generation counter are unbounded, so their wrap-around is not modelled; neither is counting events on a connection that has no socket number yet, nor a concurrent reader that leaves lastdata behind.
- StreamRecv.TcpSocket.HandleFin: netconn_close_shutdown is taken to close the receiving side at once, as it does with one blocking caller per netconn.
- StreamRecv.TcpSocket.NetconnRecvData: a call that would wait for ever is one that returns ERR_TIMEOUT; closing the netconn from another thread, and arrivals between an empty mailbox and the look at the pending error, are not modelled.
- lwip_recvmsg, UDP and raw sockets, socket options, ioctl and multicast membership.
- Netconn.Run: no full duplex, no core locking, no send timeout and no linger; a close is not requested while another one is running, and TCP closes a pcb that listens or is still connecting at once; `Netconn.CloseTwice` and `Netconn.DeleteForgotten` show what happens otherwise.
- NetconnWrite.WriteMore: TCP_WRITE_FLAG_MORE and the events for select are not modelled; vectors are not empty and their lengths sum up to len, so the case limited to SSIZE_MAX is only set up.
- Netconns of other types than TCP, whose requests are all answered at once.
- Termination of the select walk while the list keeps changing.
