# Verified cores of the picorv32 network firmware

This project models the parts of the firmware in which state, interleaving or byte-level bookkeeping
makes correctness hard to see, and proves what they keep:

* **The heap** (`mem.c`). The block list (`HeapBlocks`), its laws (`HeapLaws`, `HeapMeasures`), the
  headers as bytes in the arena (`HeapArena`), and the allocator as a class over an array of bytes
  (`Heap`). `mem_malloc` runs with `LWIP_ALLOW_MEM_FREE_FROM_OTHER_CONTEXT`: in each of its windows
  another context may free and trim, as a script of operations says. Every call is shown to act like
  one atomic first-fit step at one point of that script. `HeapRuns` follows one live block through
  any sequence of requests.
* **`lwip_select` and `event_callback`** (`sockets.c`). A state machine with any number of select
  calls and callbacks, one protected section per step (`Select`), and an inductive invariant over all
  runs (`SelectProofs`).
* **`lwip_accept` and `event_callback`** (`sockets.c`). Receive events that arrive before the socket
  is attached (`Accept`), with the 16-bit counter.
* **The stream read** (`sockets.c`, `api_msg.c`): `RecvStream`.
* **The resumable write** (`api_msg.c`): `WriteMachine`, with the semaphore that its threads sleep on.
* **Server-side includes** (`httpd.c`). The text a file stands for (`SsiText`), the tag parser
  (`SsiParser`), which tags get an insert (`SsiPieces`), and sending under any answers of TCP
  (`HttpSsi`).
* **DNS** (`dns.c`). The request table and its timer (`DnsTable`), the table with its callbacks
  (`DnsResolver`), and names (`DnsName`).
* **Pools** (`memp.c`). Free lists, the tortoise and the hare (`MempLists`), and the pools in place
  (`Memp`).
* **DHCP options** (`dhcp.c`). The format (`DhcpOptions`), the round trip (`DhcpRoundTrip`), the
  writer and the parser on their buffers (`Dhcp`).
* **`strcpy` and `strcmp`** (`mylib.c`): `WordStr`.

`Common` holds types that several components use, `Multiples` arithmetic that the heap needs.

What the code does not decide itself is a parameter or a nondeterministic choice: the windows of
`mem_malloc`, the order of threads, the answers of `tcp_write` and `tcp_sndbuf`, the arrival of
packets and of timer ticks.

Where the code and what its documentation says or suggests disagree, the model follows the code:

* `mem_malloc` rounds in a 16-bit `mem_size_t`. A request within the alignment of 65536 wraps around
  to the minimum size, and the block given out is then smaller than the request
  (`HeapLaws.RoundingCovers`, `HeapMeasures.GrantCoversRequest`: exactly those requests;
  `HeapMeasures.WrappedRequestIsGranted`: one of them).
* `lwip_recvfrom` passes window credit down for MSG_PEEK as well, so credit equals consumed bytes
  plus peeked bytes (`RecvStream.Socket.RecvFrom`, `RecvStream.PeekedTwice`).
* A blocking write is meant to return after all bytes were taken. With core locking, a non-blocking
  write of more than 65535 bytes signals `op_completed` although nobody waits for it, and the next
  blocking write returns at once (`WriteMachine.StraySignal`). Without core locking, the
  acknowledgement of a write that is refused wakes the thread whose write is in progress
  (`WriteMachine.RefusedWriteWakes`). `WriteMachine.BlockingWrite` and `WriteMachine.Run` say exactly
  when a thread goes on too early. The message of a write is a local variable of
  `netconn_write_partly` (api_lib.c:601), so `current_msg` then points to a message that is gone, and
  with core locking the state asserted at api_msg.c:1368 does not hold; the model follows a connection
  up to there.
* A tag behind a stray '<' gets no insert (`SsiPieces.StrayLess`), as the search does not go back
  behind a false start; `SsiPieces.ReachedExactly` says which tags are reached.
* The insert of a tag that is the very end of the file is not sent (`HttpSsi.Serve`,
  `HttpSsi.ClosedSendsPieces`, `HttpSsi.LostInsert`).
* `dns_enqueue` compares 8-bit sequence numbers as integers. Once the counter has wrapped around, a
  completed entry that is not the first can be missed and the table reported as full
  (`DnsResolver.MissedAfterWrap`; `DnsResolver.Resolver.Choose` says exactly when an entry is found).
* `dns_compare_name` is documented to tell equal names from different ones. It compares label bytes
  only: "ab" compares equal to "ab.c" (`DnsName.ShorterNameCompares`), and what an earlier name left
  in the buffer can make a longer name equal (`DnsName.LongerNameCompares`).
  `DnsName.ComparesExactly` says when its answer means equality.
* `dns_parse_name` finds the end of an encoded name exactly if no label is 192 bytes or longer and none
  but the first is empty (`DnsName.WalkEndsBehindName`); it fails on "a."
  (`DnsName.WalkStopsAtEmptyLabel`) and on labels of 192 bytes (`DnsName.WalkStopsAtLongLabel`).
* `dns_gethostbyname` admits names of 255 bytes, whose encoding is one byte longer than the room that
  `dns_send` sets aside for a name (`DnsName.LongestNameDoesNotFit`).
* `rcvevent` of an accepted socket is exact exactly as long as the balance fits 16 bits
  (`Accept.EventsSurviveAccept`, `Accept.CounterOverflows`).

## Model

| member | source | states |
|---|---|---|
| `HeapLaws.RoundedIsAligned` | firmware/lwip141/lwip-1.4.1/src/core/mem.c:507-514 | A rounded request is a multiple of the alignment and at least the minimum size, wrapped or not |
| `HeapLaws.RoundingCovers` | firmware/lwip141/lwip-1.4.1/src/core/mem.c:507-514 | Rounding covers a request if and only if adding the alignment does not pass the modulus of `mem_size_t`; otherwise it gives the minimum size |
| `HeapLaws.InitialIsWellFormed` | firmware/lwip141/lwip-1.4.1/src/core/mem.c:273-302 | The heap of `mem_init` is one well formed unused block and `lfree` is its start |
| `HeapLaws.TakeKeeps` | firmware/lwip141/lwip-1.4.1/src/core/mem.c:553-588 | Giving out a block, split or whole, keeps the tiling of the arena, the alignment and the absence of adjacent unused blocks |
| `HeapLaws.AllocateKeeps` | firmware/lwip141/lwip-1.4.1/src/core/mem.c:493-633 | The atomic first-fit allocation keeps the list well formed |
| `HeapLaws.FreeShape` | firmware/lwip141/lwip-1.4.1/src/core/mem.c:235-268 | Both halves of `plug_holes` together merge exactly the unused neighbours into the freed block and leave all other blocks |
| `HeapLaws.FreeKeeps` | firmware/lwip141/lwip-1.4.1/src/core/mem.c:310-356 | Freeing keeps the list well formed, so no two unused blocks are adjacent |
| `HeapLaws.TrimKeeps` | firmware/lwip141/lwip-1.4.1/src/core/mem.c:368-482 | Trimming keeps the list well formed in its three cases |
| `HeapMeasures.FirstFitIsFirst` | firmware/lwip141/lwip-1.4.1/src/core/mem.c:532-552 | No block in front of the one chosen fits, and a block up to there that does not fit is in front of it |
| `HeapMeasures.SearchIsComplete` | firmware/lwip141/lwip-1.4.1/src/core/mem.c:532-633 | The search fails if and only if no unused block of the heap is large enough |
| `HeapMeasures.BoundIsComplete` | firmware/lwip141/lwip-1.4.1/src/core/mem.c:532-533 | Where the scan stops by its bound `MEM_SIZE_ALIGNED - size`, no later block can fit |
| `HeapMeasures.WalkFindsLowest` | firmware/lwip141/lwip-1.4.1/src/core/mem.c:589-611 | A walk over used blocks that stops at an unused one or at the end has found the lowest unused block |
| `HeapMeasures.FreeLowest` | firmware/lwip141/lwip-1.4.1/src/core/mem.c:341-345 | Freeing lowers the lowest unused offset to the freed block, or leaves it |
| `HeapMeasures.TrimLowest` | firmware/lwip141/lwip-1.4.1/src/core/mem.c:422-470 | What each case of trimming does to the lowest unused offset |
| `HeapMeasures.LiveBlocksAreDisjoint` | firmware/lwip141/lwip-1.4.1/src/core/mem.c:493-633 | Two live allocations share no byte; both lie inside the arena, are aligned and have the minimum size |
| `HeapMeasures.ExtentsSumUp` | firmware/lwip141/lwip-1.4.1/src/core/mem.c:273-302 | Used and unused bytes always add up to the arena |
| `HeapMeasures.TakeUsedBytes` | firmware/lwip141/lwip-1.4.1/src/core/mem.c:553-588 | The `used` statistic grows by the bytes the block given out takes, split or not |
| `HeapMeasures.FreeUsedBytes` | firmware/lwip141/lwip-1.4.1/src/core/mem.c:341-351 | Freeing takes the freed block, and nothing of its neighbours, off the statistic |
| `HeapMeasures.TrimUsedBytes` | firmware/lwip141/lwip-1.4.1/src/core/mem.c:422-477 | Trimming takes the difference off the statistic exactly if it frees something |
| `HeapMeasures.FreeLive` | firmware/lwip141/lwip-1.4.1/src/core/mem.c:310-356 | Freeing takes exactly one block out of the set of live blocks |
| `HeapMeasures.TrimLive` | firmware/lwip141/lwip-1.4.1/src/core/mem.c:368-482 | Trimming keeps the set of live blocks |
| `HeapMeasures.NothingLive` | firmware/lwip141/lwip-1.4.1/src/core/mem.c:235-302 | A heap without live blocks is the heap of `mem_init`, a single block |
| `HeapMeasures.FreeingAllRestoresInitial` | firmware/lwip141/lwip-1.4.1/src/core/mem.c:310-356 | Freeing all live blocks in any order, with any repetitions, gives the heap of `mem_init` back |
| `HeapMeasures.MallocThenFree` | firmware/lwip141/lwip-1.4.1/src/core/mem.c:310-633 | Freeing what an allocation gave undoes the allocation, block for block |
| `HeapMeasures.GrantCoversRequest` | firmware/lwip141/lwip-1.4.1/src/core/mem.c:507-588 | The block given out has room for the rounded size, and for the request itself if and only if rounding did not wrap |
| `HeapMeasures.WrappedRequestIsGranted` | firmware/lwip141/lwip-1.4.1/src/core/mem.c:507-588 | A request of 65535 bytes to an empty heap of 1600 is rounded to 12 and given a block of 12 bytes |
| `HeapMeasures.FreeKeepsLfree` | firmware/lwip141/lwip-1.4.1/src/core/mem.c:341-345 | Freeing keeps `lfree` at the lowest unused block, also while an allocation has left it at its own block |
| `HeapMeasures.TrimKeepsLfree` | firmware/lwip141/lwip-1.4.1/src/core/mem.c:422-470 | So does trimming |
| `HeapMeasures.TakeKeepsLfree` | firmware/lwip141/lwip-1.4.1/src/core/mem.c:553-611 | After giving out a block `lfree` is the lowest unused block, or the block given out with every unused block above it |
| `HeapArena.MergeLaid` | firmware/lwip141/lwip-1.4.1/src/core/mem.c:244-267 | The header writes of combining two blocks leave every other header and all data of used blocks as they are |
| `HeapArena.InsertLaid` | firmware/lwip141/lwip-1.4.1/src/core/mem.c:422-470 | The header writes of splitting a block, or of moving the header behind it, leave the new list standing and all data of used blocks as they are |
| `HeapArena.TakeSplitLaid` | firmware/lwip141/lwip-1.4.1/src/core/mem.c:560-577 | Splitting while giving out: the new list stands in the arena, and only the block given out has changed data |
| `Heap.Heap.Reads` | firmware/lwip141/lwip-1.4.1/src/core/mem.c:235-302 | What `next`, `prev` and `used` of a header in the arena say is what the block list says |
| `Heap.Heap.constructor` | firmware/lwip141/lwip-1.4.1/src/core/mem.c:273-302 | `mem_init` lays out the initial list in the bytes of the arena |
| `Heap.Heap.Combine` | firmware/lwip141/lwip-1.4.1/src/core/mem.c:244-267 | Combining two blocks in the arena gives the merged list and keeps all data of used blocks |
| `Heap.Heap.PlugHoleForward` | firmware/lwip141/lwip-1.4.1/src/core/mem.c:248-256 | The forward half of `plug_holes`, with its effect on `lfree` |
| `Heap.Heap.PlugHoleBackward` | firmware/lwip141/lwip-1.4.1/src/core/mem.c:258-267 | The backward half of `plug_holes`, with its effect on `lfree` |
| `Heap.Heap.PlugHoles` | firmware/lwip141/lwip-1.4.1/src/core/mem.c:235-268 | Both halves in their order |
| `Heap.Heap.Release` | firmware/lwip141/lwip-1.4.1/src/core/mem.c:335-356 | Freeing a live block keeps the whole heap invariant, gives the freed list and keeps all other data |
| `Heap.Heap.MemFree` | firmware/lwip141/lwip-1.4.1/src/core/mem.c:310-356 | NULL is ignored, a pointer outside is counted as illegal, a live pointer is freed; data of used blocks is kept and the change flag set |
| `Heap.Heap.Shrink` | firmware/lwip141/lwip-1.4.1/src/core/mem.c:418-482 | Shrinking a live block keeps the whole heap invariant, gives the trimmed list and keeps all remaining data |
| `Heap.Heap.MemTrim` | firmware/lwip141/lwip-1.4.1/src/core/mem.c:368-482 | The trimmed list, and the result: NULL if and only if the argument is NULL, the new size exceeds the heap, or it exceeds the old size |
| `Heap.Heap.Window` | firmware/lwip141/lwip-1.4.1/src/core/mem.c:536-545 | What another context does in a window; if the change flag stays clear, nothing changed |
| `Heap.Heap.TakeBlock` | firmware/lwip141/lwip-1.4.1/src/core/mem.c:553-588 | Giving out a block in the arena gives the list with the block taken and keeps all other data |
| `Heap.Heap.SearchLowest` | firmware/lwip141/lwip-1.4.1/src/core/mem.c:589-608 | The walk of `lfree` finds the lowest unused block or notices that a window changed the heap |
| `Heap.Heap.AdjustLfree` | firmware/lwip141/lwip-1.4.1/src/core/mem.c:589-611 | Restarting after every disturbance it ends, with `lfree` correct and the block just given out still live |
| `Heap.Heap.Scan` | firmware/lwip141/lwip-1.4.1/src/core/mem.c:532-623 | One scan with a window before each block ends at the first fit of the current list, with no fit in it, or with a disturbance |
| `Heap.Heap.Search` | firmware/lwip141/lwip-1.4.1/src/core/mem.c:522-632 | Scanning again after every disturbance has the outcome of one atomic first-fit step at one point of the other context's operations |
| `Heap.Heap.MemMalloc` | firmware/lwip141/lwip-1.4.1/src/core/mem.c:493-633 | The whole of `mem_malloc` under any windows: atomic outcome, heap invariant, error count, and no byte of any live block touched except the new one |
| `HeapRuns.MallocSpares` | firmware/lwip141/lwip-1.4.1/src/core/mem.c:493-633 | An allocation under any windows neither moves nor removes a live block that nobody frees, and does not give it out again |
| `HeapRuns.ServeOne` | firmware/lwip141/lwip-1.4.1/src/core/mem.c:310-633 | One request leaves a block that it does not name in place with all its bytes |
| `HeapRuns.Serve` | firmware/lwip141/lwip-1.4.1/src/core/mem.c:310-633 | Over any sequence of requests a live block that none of them names keeps its place and all its bytes |
| `SelectProofs.PushKeepsList` | firmware/lwip141/lwip-1.4.1/src/api/sockets.c:1136-1149 | Putting a control block in front keeps the doubly linked list |
| `SelectProofs.RemoveKeepsList` | firmware/lwip141/lwip-1.4.1/src/api/sockets.c:1196-1210 | Taking a control block out keeps the doubly linked list, wherever the block is |
| `SelectProofs.CountingKeepsCount` | firmware/lwip141/lwip-1.4.1/src/api/sockets.c:1151-1195 | `select_waiting` of a socket is the number of calls that count it at every step of the counting loops |
| `SelectProofs.SignalKeeps` | firmware/lwip141/lwip-1.4.1/src/api/sockets.c:1321-1348 | Visiting a control block settles what it is owed for this socket and changes nothing else |
| `SelectProofs.StepsAreSafe` | firmware/lwip141/lwip-1.4.1/src/api/sockets.c:1136-1360 | Under the invariant every control block that a step reads or writes through a pointer is on the list: the head, the neighbours of a block that is taken out, the block a walk remembered and its next stop |
| `SelectProofs.StepKeepsInv` | firmware/lwip141/lwip-1.4.1/src/api/sockets.c:1088-1360 | Every step of every select call and callback keeps the invariant |
| `SelectProofs.RunKeepsInv` | firmware/lwip141/lwip-1.4.1/src/api/sockets.c:1088-1360 | The invariant holds in every state of every run |
| `SelectProofs.RunsAreSafe` | firmware/lwip141/lwip-1.4.1/src/api/sockets.c:1088-1360 | In every state of every run no step that can come next follows a pointer to a control block that has left the list, despite the windows; an unsafe step could lead anywhere in a run |
| `SelectProofs.NoLostWakeup` | firmware/lwip141/lwip-1.4.1/src/api/sockets.c:1088-1360 | A sleeping select call whose event is set has been signalled, or a callback for that socket is on its way to its control block; it gets at most one signal |
| `SelectProofs.ListIsWellFormed` | firmware/lwip141/lwip-1.4.1/src/api/sockets.c:1136-1211 | In every state of every run the list is doubly linked and holds exactly the calls between registering and unlinking |
| `SelectProofs.WalkMakesProgress` | firmware/lwip141/lwip-1.4.1/src/api/sockets.c:1317-1360 | While the list does not change each step of a walk ends it or brings it nearer to the end |
| `SelectProofs.WalkComesNearer` | firmware/lwip141/lwip-1.4.1/src/api/sockets.c:1317-1360 | A step of a callback that comes by the block of a sleeping call signals the call or brings the callback nearer |
| `SelectProofs.OtherStepsStandBy` | firmware/lwip141/lwip-1.4.1/src/api/sockets.c:1088-1360 | Steps of all others that leave the list alone neither disturb that walk nor take a signal back |
| `SelectProofs.SignalledInTime` | firmware/lwip141/lwip-1.4.1/src/api/sockets.c:1088-1360 | In any run, while the list does not change and the event stays set, a sleeping call is signalled after at most as many steps of the coming callback as there are blocks ahead of it |
| `Accept.BeginKeeps` | firmware/lwip141/lwip-1.4.1/src/api/sockets.c:1258-1262 | Reading `conn->socket` without protection loses no event |
| `Accept.MoveKeeps` | firmware/lwip141/lwip-1.4.1/src/api/sockets.c:1262-1294 | The second look under protection, and the update of `rcvevent`, keep the counts |
| `Accept.AcceptKeeps` | firmware/lwip141/lwip-1.4.1/src/api/sockets.c:376-394 | Handing the count over to the socket keeps it, in 16 bits |
| `Accept.RunKeepsInv` | firmware/lwip141/lwip-1.4.1/src/api/sockets.c:376-394 | In every interleaving the events counted so far are in `conn->socket` before, and in `rcvevent` after, the socket is attached |
| `Accept.EventsSurviveAccept` | firmware/lwip141/lwip-1.4.1/src/api/sockets.c:1258-1294 | When the callbacks have ended, `rcvevent` is received less taken modulo 2^16, and equal to it if and only if that fits 16 bits |
| `Accept.FloodCounts` | firmware/lwip141/lwip-1.4.1/src/api/sockets.c:1258-1294 | The counter after n receive events on an attached socket |
| `Accept.CounterOverflows` | firmware/lwip141/lwip-1.4.1/src/api/sockets.c:1258-1294 | After 32768 receive events, none of them taken, `rcvevent` is -32768 |
| `RecvStream.Socket.constructor` | firmware/lwip141/lwip-1.4.1/src/api/sockets.c:243-269 | A new socket has nothing kept and nothing consumed |
| `RecvStream.Socket.Recved` | firmware/lwip141/lwip-1.4.1/src/api/api_msg.c:1184-1189 | Credit passed down in 16-bit pieces adds up to the length |
| `RecvStream.Socket.Keep` | firmware/lwip141/lwip-1.4.1/src/api/sockets.c:625-627 | A fetched pbuf is the kept one |
| `RecvStream.Socket.Consume` | firmware/lwip141/lwip-1.4.1/src/api/sockets.c:711-730 | Consuming moves the first pending bytes over and frees the pbuf exactly when it is used up |
| `RecvStream.Socket.CopyOut` | firmware/lwip141/lwip-1.4.1/src/api/sockets.c:634-730 | The bytes copied are the first pending ones; peeking changes nothing |
| `RecvStream.Socket.OneRound` | firmware/lwip141/lwip-1.4.1/src/api/sockets.c:592-730 | One round fetches a pbuf if none is kept and hands out its first bytes; something comes out if something was kept |
| `RecvStream.Socket.Receive` | firmware/lwip141/lwip-1.4.1/src/api/sockets.c:586-731 | The loop copies out the next bytes of the stream in order, and stops short only when nothing is pending |
| `RecvStream.Socket.RecvFrom` | firmware/lwip141/lwip-1.4.1/src/api/sockets.c:576-738 | One call returns the next bytes of the stream, stops short only when nothing is pending, and passes down credit for exactly what it returned |
| `RecvStream.Session` | firmware/lwip141/lwip-1.4.1/src/api/sockets.c:576-738 | Any sequence of reads returns a prefix of the received stream; each pbuf is freed once; credit equals the bytes returned |
| `RecvStream.PeekedTwice` | firmware/lwip141/lwip-1.4.1/src/api/sockets.c:711-736 | Peeking at a byte and then reading it returns it twice and passes down credit for two |
| `WriteMachine.Netconn.Offer` | firmware/lwip141/lwip-1.4.1/src/api/api_msg.c:1241-1290 | What one attempt offers to `tcp_write`, its error, and the flag that delays the report |
| `WriteMachine.Netconn.WriteMore` | firmware/lwip141/lwip-1.4.1/src/api/api_msg.c:1207-1333 | One attempt ends with a report on all bytes taken and a signal where one is due, or leaves the write in progress further on by exactly what was taken |
| `WriteMachine.Netconn.DoWrite` | firmware/lwip141/lwip-1.4.1/src/api/api_msg.c:1342-1389 | A new write is refused exactly while another is in progress; which threads go to sleep, which signals are given (the acknowledgement of a refusal included), and which of them nobody waits for |
| `WriteMachine.Netconn.Resume` | firmware/lwip141/lwip-1.4.1/src/api/api_msg.c:276-337 | The sent and poll callbacks resume a write whose message is still there, and signal exactly once when it ends |
| `WriteMachine.Netconn.Wake` | firmware/lwip141/lwip-1.4.1/src/api/tcpip.c:305-322 | A signal releases one sleeping thread, no matter which, and keeps the balance; if it is the thread of the write in progress, the message of that write is gone |
| `WriteMachine.BlockingWrite` | firmware/lwip141/lwip-1.4.1/src/api/api_msg.c:1207-1389 | For any answers of TCP, until the thread goes on: the bytes taken are the buffer in order without gap or repeat; the thread goes on before all of them are taken, and leaves a write in progress without its message, if and only if a signal was pending at the start and the first attempt did not take everything; it does go on when TCP makes room |
| `WriteMachine.Run` | firmware/lwip141/lwip-1.4.1/src/api/api_msg.c:276-1389 | Over any sequence of writes by any threads, callbacks and wake-ups, up to the first early release: the count is the sleeping threads, less the one whose write is in progress, and one for every oversized non-blocking write that core locking let through (at most, and without blocking writes exactly, as many as there are among the events); so a thread can be woken during a write if and only if a second one sleeps or a stray signal was given |
| `WriteMachine.StraySignal` | firmware/lwip141/lwip-1.4.1/src/api/api_msg.c:1244-1366 | With core locking a non-blocking write of 70000 bytes leaves a signal, and the next blocking write goes on before a byte is taken |
| `WriteMachine.RefusedWriteWakes` | firmware/lwip141/lwip-1.4.1/src/api/api_msg.c:1347-1388 | Without core locking the acknowledgement of a refused write wakes the thread whose write is in progress |
| `SsiText.TagsAreRecognised` | firmware/lwip141/contrib/apps/httpserver_raw/httpd.c:1197-1341 | A text of the shape of a tag is recognised with its name wherever the search reaches it; `SsiPieces.ReachedExactly` says where that is |
| `SsiText.RecognisedAreTags` | firmware/lwip141/contrib/apps/httpserver_raw/httpd.c:1197-1341 | Whatever is recognised has the shape of a tag: lead-in, gap, name of at most the maximum length, gap, lead-out |
| `SsiText.CutText` | firmware/lwip141/contrib/apps/httpserver_raw/httpd.c:1189-1462 | What is sent is the text with every insert, less the insert of a tag that ends the file |
| `SsiText.EndInsertNeedsLeadOut` | firmware/lwip141/contrib/apps/httpserver_raw/httpd.c:1189-1462 | No insert is lost unless the file ends with a lead-out |
| `SsiPieces.LeadInLocal` | firmware/lwip141/contrib/apps/httpserver_raw/httpd.c:1197-1341 | What a match finds depends only on the characters it has read |
| `SsiPieces.PrefixOfTag` | firmware/lwip141/contrib/apps/httpserver_raw/httpd.c:1197-1341 | No tag is a proper beginning of another, as far as the search can tell |
| `SsiPieces.FailsAtFalseStart` | firmware/lwip141/contrib/apps/httpserver_raw/httpd.c:1222-1299 | Where the search gives a tag up, it has read a beginning of a tag and one character with which nothing can become a tag |
| `SsiPieces.FalseStartFails` | firmware/lwip141/contrib/apps/httpserver_raw/httpd.c:1222-1299 | And wherever such a false start stands, the search gives up exactly behind it |
| `SsiPieces.OpenIsUnfinished` | firmware/lwip141/contrib/apps/httpserver_raw/httpd.c:1189-1462 | The file ends within a match if and only if its rest is a beginning of a tag |
| `SsiPieces.FallsIntoPieces` | firmware/lwip141/contrib/apps/httpserver_raw/httpd.c:1189-1462 | Every file falls into plain characters, tags, false starts and at most one open end |
| `SsiPieces.PiecesGiveText` | firmware/lwip141/contrib/apps/httpserver_raw/httpd.c:1189-1462 | However it does, what is sent is these pieces with the insert behind each tag among them |
| `SsiPieces.ReachedExactly` | firmware/lwip141/contrib/apps/httpserver_raw/httpd.c:1189-1462 | The search reaches a position if and only if the text in front of it, by itself, falls into plain characters, tags and false starts |
| `SsiPieces.ReachedTagIsFilled` | firmware/lwip141/contrib/apps/httpserver_raw/httpd.c:1189-1462 | A tag that is reached is followed by the insert of the call that counts the tags in front of it |
| `SsiPieces.LastInsertIs` | firmware/lwip141/contrib/apps/httpserver_raw/httpd.c:1342-1367 | The insert of the last piece is the answer to the call that counts the tags in front of it |
| `SsiPieces.EndInsertOfPieces` | firmware/lwip141/contrib/apps/httpserver_raw/httpd.c:1189-1462 | The insert that gets lost is that of the last piece of the file, if that is a tag, and none otherwise |
| `SsiPieces.StrayLess` | firmware/lwip141/contrib/apps/httpserver_raw/httpd.c:1222-1246 | In `<<!--#a-->x` the tag is not reached and gets no insert |
| `SsiPieces.TagAtTheEnd` | firmware/lwip141/contrib/apps/httpserver_raw/httpd.c:1189-1462 | The insert of the file `<!--#a-->` is left out |
| `SsiParser.ParserStep` | firmware/lwip141/contrib/apps/httpserver_raw/httpd.c:1199-1322 | Reading a character in any parser state sends it and leaves the text that the new state stands for |
| `SsiParser.LeadInEnds` | firmware/lwip141/contrib/apps/httpserver_raw/httpd.c:1226-1230 | Leaving the lead-in reads nothing |
| `SsiParser.TagEnds` | firmware/lwip141/contrib/apps/httpserver_raw/httpd.c:1314-1345 | The last character of a tag is followed by its insert, unless it ends the file |
| `HttpSsi.Connection.constructor` | firmware/lwip141/contrib/apps/httpserver_raw/httpd.c:2146-2169 | A new connection has the whole text before it |
| `HttpSsi.Connection.HttpWrite` | firmware/lwip141/contrib/apps/httpserver_raw/httpd.c:606-640 | On success a nonempty beginning of the data was taken, and the length says how much; otherwise nothing was |
| `HttpSsi.Connection.SendFile` | firmware/lwip141/contrib/apps/httpserver_raw/httpd.c:1176-1188 | The file position moves by the bytes taken |
| `HttpSsi.Connection.SendParsed` | firmware/lwip141/contrib/apps/httpserver_raw/httpd.c:1166-1182 | What is parsed and not sent goes out as far as the send buffer allows |
| `HttpSsi.Connection.Parse` | firmware/lwip141/contrib/apps/httpserver_raw/httpd.c:1199-1322 | One round of the parser keeps: sent, parsed, waiting and future text make the whole |
| `HttpSsi.Connection.ParseName` | firmware/lwip141/contrib/apps/httpserver_raw/httpd.c:1248-1299 | The name state of the parser |
| `HttpSsi.Connection.TagComplete` | firmware/lwip141/contrib/apps/httpserver_raw/httpd.c:1314-1340 | A complete tag puts its insert in line behind it |
| `HttpSsi.Connection.SendTag` | firmware/lwip141/contrib/apps/httpserver_raw/httpd.c:1386-1462 | File data up to the tag, then the insert, then back to searching; each round that succeeds leaves less |
| `HttpSsi.Connection.Round` | firmware/lwip141/contrib/apps/httpserver_raw/httpd.c:1189-1462 | One round of the loop keeps the whole and makes progress by a well-founded measure |
| `HttpSsi.Connection.SendDataSsi` | firmware/lwip141/contrib/apps/httpserver_raw/httpd.c:1147-1495 | Bytes that were taken are always reported, and some are taken unless TCP refuses or has no room |
| `HttpSsi.Connection.Send` | firmware/lwip141/contrib/apps/httpserver_raw/httpd.c:1504-1567 | The connection is closed if and only if all of the file was sent; a call that TCP does not hinder sends something or closes |
| `HttpSsi.Connection.SentIsText` | firmware/lwip141/contrib/apps/httpserver_raw/httpd.c:1147-1567 | In every state the bytes taken are a prefix of the text, and all of it once closed |
| `HttpSsi.Serve` | firmware/lwip141/contrib/apps/httpserver_raw/httpd.c:1147-1567 | Over any number of calls and any answers of TCP: a prefix of the file with each tag followed by its insert; complete when closed, except for the insert of a tag that ends the file; and closed after enough unhindered calls |
| `HttpSsi.ClosedSendsPieces` | firmware/lwip141/contrib/apps/httpserver_raw/httpd.c:1147-1567 | Once closed, the pieces of the file were sent with the insert behind each tag among them, except for that of the last piece, if that is a tag |
| `HttpSsi.LostInsert` | firmware/lwip141/contrib/apps/httpserver_raw/httpd.c:1147-1567 | Serving the file `<!--#a-->` ends without its insert |
| `DnsTable.TickCountsDown` | firmware/lwip141/lwip-1.4.1/src/core/dns.c:635-711 | Each tick takes one off the ticks an unanswered request has left, and it is given up on exactly at the last |
| `DnsTable.WaitsSum` | firmware/lwip141/lwip-1.4.1/src/core/dns.c:661-691 | The waits between retries add up to R(R - 1)/2 |
| `DnsTable.UnansweredFor` | firmware/lwip141/lwip-1.4.1/src/core/dns.c:635-711 | Until then the request is still being asked |
| `DnsTable.RequestTimesOut` | firmware/lwip141/lwip-1.4.1/src/core/dns.c:635-727 | An unanswered request is given up on after exactly servers in a row times (1 + R(R - 1)/2) ticks, at most `DNS_MAX_SERVERS` times that, and not before |
| `DnsResolver.Resolver.constructor` | firmware/lwip141/lwip-1.4.1/src/core/dns.c:635-727 | A new table owes no callback |
| `DnsResolver.Resolver.CheckEntry` | firmware/lwip141/lwip-1.4.1/src/core/dns.c:635-711 | A tick of one entry; giving up calls back once with no address |
| `DnsResolver.Resolver.CheckEntries` | firmware/lwip141/lwip-1.4.1/src/core/dns.c:717-727 | A tick of every entry |
| `DnsResolver.Resolver.Choose` | firmware/lwip141/lwip-1.4.1/src/core/dns.c:867-895 | An entry is found if and only if one is unused, or one is completed with a positive age, or the first is completed; it is the first unused one, else the first of the oldest by the 8-bit sequence numbers |
| `DnsResolver.Resolver.Admit` | firmware/lwip141/lwip-1.4.1/src/core/dns.c:897-913 | The entry chosen takes the request, with all its ticks before it, and no other entry changes |
| `DnsResolver.CompletedMayBeMissed` | firmware/lwip141/lwip-1.4.1/src/core/dns.c:875-889 | A table with a completed entry can be reported as full after the sequence number has wrapped around |
| `DnsResolver.MissedAfterWrap` | firmware/lwip141/lwip-1.4.1/src/core/dns.c:762-914 | A run from the empty table that ends there: 254 failed requests, one that waits, one that is completed with number 255, and a request that is refused |
| `DnsResolver.FoundBeforeWrap` | firmware/lwip141/lwip-1.4.1/src/core/dns.c:867-895 | While all completed entries have numbers below the counter, an entry is found if and only if one is unused or completed |
| `DnsResolver.Resolver.Enqueue` | firmware/lwip141/lwip-1.4.1/src/core/dns.c:859-914 | Accepted if and only if there is such an entry; no request that waits is displaced; the new one is asked at once |
| `DnsResolver.Resolver.Settle` | firmware/lwip141/lwip-1.4.1/src/core/dns.c:815-843 | Ending a request calls back exactly once |
| `DnsResolver.Resolver.Recv` | firmware/lwip141/lwip-1.4.1/src/core/dns.c:762-843 | An answer completes the request it names with its first address, an error ends it, both with one callback; anything else changes nothing |
| `DnsResolver.FirstAddressIsFirst` | firmware/lwip141/lwip-1.4.1/src/core/dns.c:795-822 | No answer record in front of the one used is an address |
| `DnsResolver.CalledBackOnce` | firmware/lwip141/lwip-1.4.1/src/core/dns.c:635-914 | Every accepted request is called back once or still waits in the table, never both |
| `DnsResolver.Handle` | firmware/lwip141/lwip-1.4.1/src/core/dns.c:635-914 | A tick takes one off the ticks a waiting request has left; no answer to others and no new request changes or displaces it |
| `DnsResolver.HandleAll` | firmware/lwip141/lwip-1.4.1/src/core/dns.c:635-914 | The same over any sequence of events |
| `DnsResolver.Lifecycle` | firmware/lwip141/lwip-1.4.1/src/core/dns.c:635-914 | Whatever ticks, answers and requests come, a waiting request is called back exactly once by the time its ticks have run out, and never again |
| `DnsName.JoinSplit` | firmware/lwip141/lwip-1.4.1/src/core/dns.c:586-602 | A name is its labels with dots between them, and its encoding is one byte longer |
| `DnsName.WriteLabel` | firmware/lwip141/lwip-1.4.1/src/core/dns.c:591-600 | A label is written behind its length, kept in one byte, and nothing else changes |
| `DnsName.WriteName` | firmware/lwip141/lwip-1.4.1/src/core/dns.c:586-602 | The buffer holds the encoding of the whole name and nothing outside it changes |
| `DnsName.EncodingFits` | firmware/lwip141/lwip-1.4.1/src/core/dns.c:576-602 | The encoding fits `DNS_MAX_NAME_LENGTH` if and only if the name is at least two bytes shorter than that |
| `DnsName.LongestNameDoesNotFit` | firmware/lwip141/lwip-1.4.1/src/core/dns.c:576-944 | Of the names that `dns_gethostbyname` admits exactly those of 255 bytes do not fit; their encoding has 257 bytes |
| `DnsName.Parse` | firmware/lwip141/lwip-1.4.1/src/core/dns.c:527-548 | The loop of `dns_parse_name` computes the recursive walk |
| `DnsName.Compare` | firmware/lwip141/lwip-1.4.1/src/core/dns.c:492-517 | The loops of `dns_compare_name` compute the recursive comparison |
| `DnsName.HoldsEncoding` | firmware/lwip141/lwip-1.4.1/src/core/dns.c:586-602 | The labels stand in a message one by one if and only if their encoding stands there |
| `DnsName.ParseEndsBehind` | firmware/lwip141/lwip-1.4.1/src/core/dns.c:527-548 | For any list of labels the walk ends behind the terminator if and only if the labels are told apart from pointers and terminator |
| `DnsName.WalkEndsBehindName` | firmware/lwip141/lwip-1.4.1/src/core/dns.c:527-602 | The walk over what the encoder wrote ends behind it if and only if no label is 192 bytes or longer and none but the first is empty |
| `DnsName.WalkStopsAtEmptyLabel` | firmware/lwip141/lwip-1.4.1/src/core/dns.c:527-548 | The walk over the encoding of "a." ends one byte too early |
| `DnsName.WalkStopsAtLongLabel` | firmware/lwip141/lwip-1.4.1/src/core/dns.c:527-548 | The walk over any label of 192 bytes takes it for a pointer and ends behind two bytes |
| `DnsName.CompareIsAgreement` | firmware/lwip141/lwip-1.4.1/src/core/dns.c:492-517 | An uncompressed name of any length compares equal if and only if every label byte equals the query byte at its position |
| `DnsName.CompareStaysInside` | firmware/lwip141/lwip-1.4.1/src/core/dns.c:492-517 | If the query buffer is as long as the name, no byte outside of it is read |
| `DnsName.EncodedNameCompares` | firmware/lwip141/lwip-1.4.1/src/core/dns.c:492-602 | The encoding of a name compares equal to that name |
| `DnsName.ComparesExactly` | firmware/lwip141/lwip-1.4.1/src/core/dns.c:492-517 | Comparing equal means the same name if and only if the lengths are equal and the query has dots between the labels, for names of any length |
| `DnsName.ShorterNameCompares` | firmware/lwip141/lwip-1.4.1/src/core/dns.c:492-517 | "ab" compares equal to the query "ab.c" |
| `DnsName.LongerNameCompares` | firmware/lwip141/lwip-1.4.1/src/core/dns.c:492-517 | "ab.c" compares equal to the query "ab" in a buffer that held "ab.c" before |
| `MempLists.Meeting` | firmware/lwip141/lwip-1.4.1/src/core/memp.c:181-199 | There is a step at which the list has ended or the tortoise and the hare meet, on any links |
| `MempLists.MeetingIsEndless` | firmware/lwip141/lwip-1.4.1/src/core/memp.c:181-199 | Where they meet, the list goes in a circle |
| `MempLists.Repeats` | firmware/lwip141/lwip-1.4.1/src/core/memp.c:181-199 | A walk over finitely many elements ends or comes back |
| `MempLists.PutEnds` | firmware/lwip141/lwip-1.4.1/src/core/memp.c:458-463 | After putting an element in front the list ends if and only if the element was not on it |
| `MempLists.ListEnds` | firmware/lwip141/lwip-1.4.1/src/core/memp.c:181-199 | A free list ends after as many steps as it has elements |
| `MempLists.ListIsSound` | firmware/lwip141/lwip-1.4.1/src/core/memp.c:181-199 | Along a free list only its own links are followed |
| `MempLists.LinkedIsSound` | firmware/lwip141/lwip-1.4.1/src/core/memp.c:181-199 | Where no link of any element is wild, every walk stays among the elements |
| `MempLists.PoolCounts` | firmware/lwip141/lwip-1.4.1/src/core/memp.c:354-461 | Free elements and elements handed out add up to the size of the pool |
| `MempLists.PoolTake` | firmware/lwip141/lwip-1.4.1/src/core/memp.c:405-417 | Taking the first element keeps the pool, and nobody held it |
| `MempLists.PoolPut` | firmware/lwip141/lwip-1.4.1/src/core/memp.c:458-459 | Putting an element back keeps the pool, whatever its holder wrote over its link |
| `MempLists.PoolGrows` | firmware/lwip141/lwip-1.4.1/src/core/memp.c:360-369 | One step of `memp_init` |
| `Memp.PoolsAreSound` | firmware/lwip141/lwip-1.4.1/src/core/memp.c:335-463 | In every state of the pools nothing is lost, no list goes in a circle and no wild link is followed |
| `Memp.TakeKeeps` | firmware/lwip141/lwip-1.4.1/src/core/memp.c:405-417 | Taking from one pool keeps all pools, and the element is held nowhere |
| `Memp.PutKeeps` | firmware/lwip141/lwip-1.4.1/src/core/memp.c:456-459 | Putting back into one pool keeps all pools |
| `Memp.OverwriteKeeps` | firmware/lwip141/lwip-1.4.1/src/core/memp.c:104-110 | Whatever is written over the link of an element that is handed out, all pools are kept |
| `Memp.Memory.constructor` | firmware/lwip141/lwip-1.4.1/src/core/memp.c:337-369 | `memp_init`: all elements are free |
| `Memp.Memory.Carve` | firmware/lwip141/lwip-1.4.1/src/core/memp.c:354-369 | One pool is carved out of its stretch of memory and no other is touched |
| `Memp.Memory.NoCircle` | firmware/lwip141/lwip-1.4.1/src/core/memp.c:188-196 | The inner loop ends on any links, none it follows being wild, and answers whether the list ends |
| `Memp.Memory.Sanity` | firmware/lwip141/lwip-1.4.1/src/core/memp.c:181-199 | `memp_sanity` ends on any links, none it follows being wild, and is true if and only if no list goes in a circle |
| `Memp.Memory.Malloc` | firmware/lwip141/lwip-1.4.1/src/core/memp.c:388-431 | NULL if and only if the pool does not exist or is empty; otherwise an element that nobody holds |
| `Memp.Memory.Free` | firmware/lwip141/lwip-1.4.1/src/core/memp.c:434-467 | The element is free again, and the sanity check that follows succeeds |
| `Memp.Memory.Write` | firmware/lwip141/lwip-1.4.1/src/core/memp.c:104-110 | A holder may write anything into its element without damage to the pools |
| `DhcpOptions.DecodeFits` | firmware/lwip141/lwip-1.4.1/src/core/dhcp.c:1449-1474 | The values of an accepted option always have their places inside the tables |
| `DhcpRoundTrip.HoldsEncoding` | firmware/lwip141/lwip-1.4.1/src/core/dhcp.c:1267-1301 | A message with an encoded list has each option and the end mark in its place |
| `DhcpRoundTrip.DecodesData` | firmware/lwip141/lwip-1.4.1/src/core/dhcp.c:1449-1475 | Decoding in place reads exactly the data of the option, without remains of earlier values |
| `DhcpRoundTrip.DataLands` | firmware/lwip141/lwip-1.4.1/src/core/dhcp.c:1449-1475 | Several values of an option land in consecutive places |
| `DhcpRoundTrip.OptionLands` | firmware/lwip141/lwip-1.4.1/src/core/dhcp.c:1394-1475 | An option fills the places for its code and no others, unless they are taken |
| `DhcpRoundTrip.ScanReads` | firmware/lwip141/lwip-1.4.1/src/core/dhcp.c:1379-1488 | A list of options is accepted if and only if every recognised one has a proper length |
| `DhcpRoundTrip.ApplyIsFirst` | firmware/lwip141/lwip-1.4.1/src/core/dhcp.c:1379-1488 | Each place holds the value of the first option with its code |
| `DhcpRoundTrip.RoundTrip` | firmware/lwip141/lwip-1.4.1/src/core/dhcp.c:1336-1488 | Both together, for any list of options and anything behind the end mark |
| `Dhcp.LongRoundTrip` | firmware/lwip141/lwip-1.4.1/src/core/dhcp.c:1293-1301 | A 32-bit value is read back as it was written |
| `Dhcp.Message.constructor` | firmware/lwip141/lwip-1.4.1/src/core/dhcp.c:1718-1722 | Nothing is written yet |
| `Dhcp.Message.Header` | firmware/lwip141/lwip-1.4.1/src/core/dhcp.c:1267-1273 | Code and length are appended |
| `Dhcp.Message.Put` | firmware/lwip141/lwip-1.4.1/src/core/dhcp.c:1278-1301 | A byte, short or long is appended, the most significant byte first |
| `Dhcp.Message.WriteOption` | firmware/lwip141/lwip-1.4.1/src/core/dhcp.c:1267-1301 | The encoding of one option is appended |
| `Dhcp.Message.Hostname` | firmware/lwip141/lwip-1.4.1/src/core/dhcp.c:1303-1323 | As much of the name as fits is appended, and room for the trailer remains |
| `Dhcp.Message.Trailer` | firmware/lwip141/lwip-1.4.1/src/core/dhcp.c:1755-1768 | End mark and zero padding up to the minimum length and a multiple of four, or the end of the buffer |
| `Dhcp.Message.Write` | firmware/lwip141/lwip-1.4.1/src/core/dhcp.c:1267-1768 | A list of options that fits is written as its encoding, the end mark and padding |
| `Dhcp.Received.DecodeValues` | firmware/lwip141/lwip-1.4.1/src/core/dhcp.c:1449-1475 | The loop over the values of an option computes the recursive decoding |
| `Dhcp.Received.ParseReply` | firmware/lwip141/lwip-1.4.1/src/core/dhcp.c:1336-1492 | `ERR_BUF` if and only if there is no byte of options, `ERR_VAL` if and only if an option has a wrong length, else the values of the scan |
| `Dhcp.Exchange` | firmware/lwip141/lwip-1.4.1/src/core/dhcp.c:1267-1531 | What the writer wrote the parser accepts, without overload and with proper lengths, and each place gets the value of the first option with its code |
| `WordStr.ZeroTest` | firmware/mylib.c:382-382 | The mask test fires if and only if the word holds a zero byte |
| `WordStr.Bytes` | firmware/mylib.c:384-399 | Shifting and masking give the bytes of the word in memory order |
| `WordStr.EndsInWord` | firmware/mylib.c:380-383 | A word of the string holds a zero byte if and only if the string ends in it |
| `WordStr.Memory.CopyTail` | firmware/mylib.c:382-401 | The last word is copied up to the terminator and no further |
| `WordStr.Memory.StoreWord` | firmware/mylib.c:403-403 | A whole word of the string is copied |
| `WordStr.Memory.CopyWords` | firmware/mylib.c:378-406 | The word loop copies the rest of the string and its terminator |
| `WordStr.Memory.Strcpy` | firmware/mylib.c:367-407 | For all alignments the string and its terminator are copied and no other byte of memory changes |
| `WordStr.LexIsOrder` | firmware/mylib.c:409-457 | The comparison is 0 exactly for equal strings and antisymmetric |
| `WordStr.OrderAt` | firmware/mylib.c:409-457 | The first bytes that differ decide, or the common end does |
| `WordStr.FourCommon` | firmware/mylib.c:450-454 | Equal words: the strings end in them together or go on behind them |
| `WordStr.Memory.CompareTail` | firmware/mylib.c:429-448 | Two different words decide |
| `WordStr.Memory.CompareWords` | firmware/mylib.c:423-456 | The word loop gives the sign of the lexicographic comparison |
| `WordStr.Memory.Strcmp` | firmware/mylib.c:409-457 | For all alignments and contents the result is the sign of the lexicographic comparison of the two strings |

## Left out

- TCP, UDP, pbuf and netif internals, mailboxes and semaphores: present only as the answers they give.
- `mem_malloc` on top of pools and `mem_calloc`: thin wrappers.
- The `prev` field of `ram_end`, the statistics `max` and `avail`, and the mutex of the heap.
- Heaps with a 32-bit `mem_size_t` (`MEM_SIZE` above 64000).
- Closing of sockets while a select call or an accept is under way; sockets stay open in the models.
- The sets that `lwip_selscan` returns; the model keeps their number only.
- Wrap-around of `rcvevent` and `select_cb_ctr` in `Select`; they are unbounded there. `Accept` models the 16 bits of `rcvevent`, with an unbounded `conn->socket`.
- Datagram sockets, socket options, `ioctl`, addresses and error codes of the socket layer.
- `WriteMachine.Netconn.Resume`: does not cover callbacks after the thread of the write has gone on early, because the message they would use is gone; `WriteMachine.Run` ends there.
- Send timeouts, closing while writing, and fatal TCP errors in `api_msg.c`.
- HTTP/0.9, tags left out of the output, inserts in several parts, files read in blocks, headers, POST.
- `DnsResolver.Resolver.Recv`: takes the result of the name check and the decoded records of a response as given, because the message around names is not modelled; `DnsName` has the name check itself.
- The local host list and `dns_gethostbyname`.
- Compressed names in `dns_compare_name` and `dns_parse_name`: the model follows the code, which stops there; the theorems are about names without pointers.
- Overflow checks of pools, and the error statistics beyond counting.
- The DHCP lease machine, overloaded fields, and options spread over several pbufs.
- `Dhcp.Received.ParseReply`: does not cover messages longer than 65278 bytes, in which the 16-bit offset could wrap around.
- `WordStr.Memory.Strcpy`: does not say anything about overlapping strings, for which C gives `strcpy` no meaning.
- The other firmware sources (drivers, benchmarks, the Xilinx glue) and the processor core.
