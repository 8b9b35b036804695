# libuo: a verified model

libuo is a C library of data structures, codecs and an event-driven TCP and HTTP stack. This project
models its hardest parts in Dafny and proves what they are for. One module stands for one component.

- **Ordered hash table** (`Bits`, `LinkList`, `OrderedMap`, `ProbeTable`, `HashTable`). Open addressing with
  linear probing, tombstones, doubling and same-size rehashing, and a doubly linked list threaded through
  the slots. `HashTable.HashTable` is the mutable table; `OrderedMap` is the reference it refines;
  `HashTable.Run` is the statement about whole runs, with the amortised bound.
- **Concurrent protocols** (`Queue`, `ThreadPool`, `TcpWake`). Step systems in which every step is one atomic
  access; theorems are about every interleaving of any number of threads.
- **Connections** (`Callback`, `TcpConn`, `TcpFlow`, `HttpConn`, `HttpFlow`, `HttpServer`, `HttpOrder`, `Framing`).
  Callbacks that edit themselves while they run, the connection driver built from them, the HTTP server's functions
  on it, request handlers, and length-prefixed framing. `TcpFlow`, `HttpFlow` and `HttpOrder` say, over whole runs,
  which functions are invoked and in which order.
- **HTTP messages** (`CText`, `HttpParser`, `HttpWire`, `HttpFault`, `HttpBounds`, `HttpReceiver`, `HttpWriter`).
  `HttpParser` says what the incremental parser does, with its faults; `HttpReceiver` is the object that does it;
  `HttpWire` says what the bytes of a request mean and proves when parsing agrees for every division into
  receives; `HttpFault` and `HttpBounds` say when it reads and writes out of bounds; `HttpWriter` prints requests
  and closes the round trip.
- **Codecs and matching** (`Base64`, `Json`, `JsonSpelling`, `ReqPattern`). `JsonSpelling` states the grammar of string escapes.
- **Node pool** (`LinkPool`).

`dafny verify dfyconfig.toml` checks everything.

## Where the code does not do what one would expect

The model follows the code. Where a natural property is false of it, the exact condition is proved.

- After a header with an empty value the parser skips the line end and takes the next header line for the value,
  which is then lost (`HttpWire.KeptIff`, `HttpWire.SomeSwallowed`).
- A request without a body whose method may have one (PUT, POST, OPTIONS) and that gives no content-length, or
  whose content-length line is lost like this, is marked invalid and never completes
  (`HttpWire.CompleteWithoutLength`, `HttpWire.UnannouncedWaits`). Parsing gives a message back exactly when no header is empty and its body is
  announced (`HttpWire.OneReceive`, `HttpWriter.PrintParse`).
- Incremental HTTP parsing looks for a header end again while it waits for a body, from two bytes before the
  body on. It is independent of how the bytes arrive exactly when, besides, no such blank line completes before
  the last body byte (`HttpWire.SplitInvariance`).
- The header parser reads behind its copy of the headers when a name runs to their end, for instance when
  the last line has no colon (`HttpFault.FaultsAtOpenName`, `HttpFault.CrashesIff`).
- The terminator behind a body is written beyond the receive buffer when the body completes on a later receive
  that fills the buffer (`HttpBounds.OverrunsIff`).
- `uo_http_msg_write_to_buf` empties the message's own buffer first, so printing a message into that buffer replaces
  what was there (`HttpWriter.SendRequest.WriteToBuf`).
- `uo_http_msg_set_content` with empty content announces length 0 and keeps an earlier body
  (`HttpWriter.ContentFramed`).
- When a read cannot be registered, its event stays on the callback's stack. The HTTP server's functions for a send and
  a close then take it for the connection; the one for a finished receive does not, but leaves the wrong object
  for the functions after it (`HttpConn.ForgottenEvent`, `HttpConn.BottomStays`).
- The standard base64 decoder has no end check when the last group is unpadded. It inverts the encoder exactly
  for lengths not divisible by three, or when padding happens to follow in memory (`Base64.StdRoundTrip`).
- The queue takes a ticket before it writes the slot. Without exclusion among the callers of each side its
  order is guaranteed exactly for capacities up to one (`Queue.InOrderForAllCallers`).
- A length prefix split over two receives is not waited for, and lengths are computed in 32 bits
  (`Framing.FramingRoundTrip`, `Framing.BeforeSend`).
- Waking an idle connection starts a driver only for callers whose second compare-exchange fails. A lone caller
  starts none, and from three calls from outside on two drivers can be alive (`TcpWake.WakeUpDrivers`,
  `TcpWake.OneDriverIff`).
- The thread-pool manager decides on a copy of the count that exits do not refresh
  (`ThreadPool.HiresIff`, `ThreadPool.BelowTarget`).
- `uo_linkpool_rent` tests a function name instead of calling it, so a returned node is never handed out again
  (`LinkPool.Run`).
- The guard that should halve a sparse hash table compares a truth value with 16; the branch is dead
  (`HashTable.HashTable.Remove`). An initial capacity above 2^63 gives a table without slots
  (`HashTable.HashTable.constructor`).

## Model

| member | source | states |
|---|---|---|
| `HashTable.Run` | uo_hashtbl/src/include/uo_hashtbl/uo_hashtbl.h:213-342 | every run of set, get and remove on a new table, through all its doublings and rehashes, leaves the ordered map's contents and returns the ordered map's answers, and all resizes together move at most two entries per set or remove |
| `HashTable.ReadsLastWrite` | uo_hashtbl/src/include/uo_hashtbl/uo_hashtbl.h:281-342 | after every run, reading a key gives the value last set under an equal key and not removed since |
| `HashTable.HashTable.constructor` | uo_hashtbl/src/include/uo_hashtbl/uo_hashtbl.h:213-226 | an empty table: of 16 slots for fewer than 16, otherwise of the least power of two that is at least the capacity asked for, usable exactly when that is at most 2^63; above, one without slots |
| `HashTable.FindLink` | uo_hashtbl/src/include/uo_hashtbl/uo_hashtbl.h:236-250 | the masked probe ends, at the first slot from the home position that is vacant or holds an equal key, whenever some slot is vacant |
| `HashTable.HashTable.Get` | uo_hashtbl/src/include/uo_hashtbl/uo_hashtbl.h:192-200 | the ordered map's value for the key, or NULL |
| `HashTable.HashTable.Set` | uo_hashtbl/src/include/uo_hashtbl/uo_hashtbl.h:281-305 | the new contents are the ordered map's update: an existing key keeps its place, a new one comes last; the capacity doubles exactly when a new entry makes the table half full; the invariant (power of two, count below half, tombstones below a quarter) holds again; at most two more moves are accounted for |
| `HashTable.HashTable.Remove` | uo_hashtbl/src/include/uo_hashtbl/uo_hashtbl.h:307-342 | returns the old value or NULL, deletes exactly that entry and keeps the capacity and the invariant; the halving branch is proved unreachable as its guard is written |
| `HashTable.HashTable.Resize` | uo_hashtbl/src/include/uo_hashtbl/uo_hashtbl.h:252-279 | the contents keep their values and their order, no tombstone is left, and exactly the live entries are moved |
| `HashTable.HashTable.GrowIfHalfFull` | uo_hashtbl/src/include/uo_hashtbl/uo_hashtbl.h:300-304 | doubling restores the invariant and is paid for by earlier insertions |
| `HashTable.HashTable.CompactIfQuarterRemoved` | uo_hashtbl/src/include/uo_hashtbl/uo_hashtbl.h:329-333 | the same-size rehash restores the invariant and is paid for by earlier removals |
| `HashTable.HashTable.Walk` | uo_hashtbl/src/include/uo_hashtbl/uo_hashtbl.h:186-190 | following next from the head visits exactly the live entries, in insertion order |
| `HashTable.Rehash` | uo_hashtbl/src/include/uo_hashtbl/uo_hashtbl.h:267-275 | re-inserting the listed entries into zero-filled slots rebuilds index and list for the same entries in the same order |
| `ProbeTable.FoundUnique` | uo_hashtbl/src/include/uo_hashtbl/uo_hashtbl.h:241-249 | a key has at most one slot at which its search can stop |
| `ProbeTable.EntriesUnique` | uo_hashtbl/src/include/uo_hashtbl/uo_hashtbl.h:236-250 | the probing invariant implies that no two live slots have equal keys |
| `ProbeTable.Locate` | uo_hashtbl/src/include/uo_hashtbl/uo_hashtbl.h:236-250 | where a search stops decides membership: at a live slot exactly when the ordered map has the key, at the entry for it |
| `ProbeTable.InsertSlot` | uo_hashtbl/src/include/uo_hashtbl/uo_hashtbl.h:291-298 | filling the vacant slot where the search stopped keeps every other key findable |
| `ProbeTable.RemoveSlot` | uo_hashtbl/src/include/uo_hashtbl/uo_hashtbl.h:320-324 | turning a live slot into a tombstone keeps every other key findable |
| `ProbeTable.VacantExists` | uo_hashtbl/src/include/uo_hashtbl/uo_hashtbl.h:245-247 | fewer filled slots than slots means that a vacant one exists, so the probe has where to stop |
| `OrderedMap.LookupPut` | uo_hashtbl/src/include/uo_hashtbl/uo_hashtbl.h:281-305 | in the reference map a stored value is read back under every equal key and other keys are unaffected |
| `OrderedMap.LookupDelete` | uo_hashtbl/src/include/uo_hashtbl/uo_hashtbl.h:307-342 | in the reference map a deleted key is gone and other keys are unaffected |
| `OrderedMap.PutKeepsOrder` | uo_hashtbl/src/include/uo_hashtbl/uo_hashtbl.h:291-298 | updating a key of the reference map leaves every entry at its place |
| `Bits.CeilPow2` | uo_util/src/include/uo_util/uo_util.h:20-33 | the least power of two that is at least n for n from 1 to 2^63, and 0 for every other 64-bit n |
| `Bits.SmearedOut` | uo_util/src/include/uo_util/uo_util.h:25-30 | six shift-or steps fill every bit below the highest one |
| `Bits.MaskIsMod` | uo_hashtbl/src/include/uo_hashtbl/uo_hashtbl.h:241-247 | masking with a power of two less one is the remainder |
| `LinkList.SelfLink` | uo_linklist/src/include/uo_linklist/uo_linklist.h:138-142 | a self-linked head is the empty ring |
| `LinkList.IsEmpty` | uo_linklist/src/include/uo_linklist/uo_linklist.h:150-154 | true exactly for the ring without nodes |
| `LinkList.InsertBefore` | uo_linklist/src/include/uo_linklist/uo_linklist.h:162-170 | inserts the link at the chosen place of the ring and moves nothing else |
| `LinkList.Remove` | uo_linklist/src/include/uo_linklist/uo_linklist.h:172-179 | takes exactly the chosen link out of the ring and zero-fills it |
| `LinkList.RingLaws` | uo_linklist/src/include/uo_linklist/uo_linklist.h:138-179 | in every ring next and prev undo each other and are never null |
| `LinkList.RingUnique` | uo_linklist/src/include/uo_linklist/uo_linklist.h:138-179 | the pointers of a ring determine the sequence of its nodes |
| `LinkPool.Run` | uo_linkpool/src/include/uo_linkpool/uo_linkpool.h:105-187 | over every run of grow, rent and return: free and held nodes partition the allocated ones, no node is handed out while held, the free list stays a ring, and, because renting always allocates, no node is ever handed out twice |
| `LinkPool.Pool.constructor` | uo_linkpool/src/include/uo_linkpool/uo_linkpool.h:146-155 | a thread's pool starts with an empty free list and no block |
| `LinkPool.Pool.Grow` | uo_linkpool/src/include/uo_linkpool/uo_linkpool.h:166-176 | the fresh block joins the free list at its end, in order, and the partition is kept |
| `LinkPool.Pool.Rent` | uo_linkpool/src/include/uo_linkpool/uo_linkpool.h:178-187 | hands out an unlinked, freshly allocated node; the other 31 nodes of its block become free |
| `LinkPool.Pool.Return` | uo_linkpool/src/include/uo_linkpool/uo_linkpool.h:105-109 | a held node becomes the last free one and the partition is kept |
| `LinkPool.ReturnedBetween` | uo_linkpool/src/include/uo_linkpool/uo_linkpool.h:105-109 | between two times that one node is handed out it is returned |
| `LinkPool.NodesConserved` | uo_linkpool/src/include/uo_linkpool/uo_linkpool.h:166-187 | allocated nodes are as many as free and held ones together |
| `Queue.EveryRun` | uo_queue/src/uo_queue.c:35-66 | in every interleaving of any number of threads: free permits, ready permits and operations in flight add up to the capacity, no ticket is held twice, and 0 <= head - tail <= capacity |
| `Queue.StepInv` | uo_queue/src/uo_queue.c:35-66 | each atomic step keeps permits conserved and tickets unique |
| `Queue.InitialInv` | uo_queue/src/uo_queue.c:8-23 | a new queue satisfies the invariants |
| `Queue.FifoStep` | uo_queue/src/uo_queue.c:40-65 | with at most one thread in each operation, a step keeps every item written but not read in its slot and the items read a prefix of those enqueued |
| `Queue.ExclusiveRunIsFifo` | uo_queue/src/uo_queue.c:40-65 | in every run without overlap on either side the items dequeued are a prefix of those enqueued, none lost, repeated or overwritten |
| `Queue.ProducersOverlap` | uo_cb/src/uo_cb_queue.c:60-67 | for every capacity of two or more, a run with two producers in which a slot is read before it is written |
| `Queue.ConsumersOverlap` | uo_cb/src/uo_cb_queue.c:69-86 | for every capacity of two or more, a run with two consumers that read out of order |
| `Queue.InOrderForAllCallers` | uo_queue/src/uo_queue.c:35-66 | without any discipline among the callers the order holds exactly for capacities up to one |
| `Queue.NeverStuck` | uo_queue/src/uo_queue.c:35-66 | in every run of a queue with room: a thread inside an operation can always go on, enqueuing can start exactly when ready permits and operations in flight are fewer than the capacity, dequeuing exactly when an item is ready, and some thread can always make a step |
| `ThreadPool.EveryRun` | uo_cb/src/uo_cb_thrdpool.c:87-149 | in every interleaving of manager and workers: the target is in [2,16] once set, the thread count is the number of workers that have not taken the exit step plus the one being hired and at most 16, and unfinished workers hold different slots, all marked running |
| `ThreadPool.ExitKeepsMinimum` | uo_cb/src/uo_cb_thrdpool.c:103-108 | only an exit step lowers the thread count, by one, and never below 2 |
| `ThreadPool.ScanCanEnd` | uo_cb/src/uo_cb_thrdpool.c:130-146 | whenever the manager looks for a slot, one is free or is held by a worker whose next step frees it |
| `ThreadPool.HiresIff` | uo_cb/src/uo_cb_thrdpool.c:121-130 | when it compares, the manager hires exactly if the target exceeds the thread count by more than the exits since its last hire |
| `ThreadPool.BelowTarget` | uo_cb/src/uo_cb_thrdpool.c:121-130 | a reachable state below the target in which the manager does not hire |
| `ThreadPool.StepInv` | uo_cb/src/uo_cb_thrdpool.c:87-196 | each step of manager, worker or quit keeps the counting, target and slot invariants |
| `ThreadPool.TargetStep` | uo_cb/src/uo_cb_thrdpool.c:167-196 | raising and lowering keep the target in range, and no worker compares with a target below the minimum |
| `ThreadPool.TargetMoves` | uo_cb/src/uo_cb_thrdpool.c:115-196 | in every run the target is set to 4 at the start and then moves by one within 2 and 16, only when the manager samples |
| `ThreadPool.CountMoves` | uo_cb/src/uo_cb_thrdpool.c:101-130 | in every run the thread count rises by one exactly when the manager hires and falls by one exactly when a worker's loaded count exceeds its loaded target and is still the thread count; exactly such a worker leaves |
| `ThreadPool.ScanMoves` | uo_cb/src/uo_cb_thrdpool.c:130-146 | while it looks for a slot the manager goes round all 16 slots one after the other, joins at an exited one and stays at a free one |
| `ThreadPool.NeverStuck` | uo_cb/src/uo_cb_thrdpool.c:87-149 | in every run the manager can go on until it has stopped and every worker exactly until it is done |
| `ThreadPool.QuitEnds` | uo_cb/src/uo_cb_thrdpool.c:87-113 | in every run, once the pool is quitting it stays so, and each worker is done after at most five steps of its own |
| `TcpConn.OneDriver` | uo_tcp/src/uo_tcp_conn.c:53-195 | in every reachable state exactly one core continuation is pending until the connection is idle or destroyed; close and destroy happen at most once, in this order; nothing runs afterwards |
| `TcpConn.StepInv` | uo_tcp/src/uo_tcp_conn.c:53-195 | each step keeps handlers first and one core continuation last |
| `TcpConn.CalledInv` | uo_tcp/src/uo_tcp_conn.c:53-195 | each of the connection's own functions leaves exactly one core continuation behind, or ends the connection |
| `TcpConn.FirstRequestWins` | uo_tcp/src/uo_tcp_conn.c:32-45 | of several next_* requests before advance, the first decides |
| `TcpConn.AdvanceObeys` | uo_tcp/src/uo_tcp_conn.c:164-195 | advance starts what the first request asked for |
| `TcpFlow.Opens` | uo_tcp/src/uo_tcp_conn.c:270-278 | in every run, after the connection is opened all after_open handlers are invoked, in order, with nothing but what handlers put in front between them, and then advance is next |
| `TcpFlow.Receives` | uo_tcp/src/uo_tcp_conn.c:119-162 | in every run, at the end of a read of some bytes these are received and all after_recv handlers are invoked, in order, with nothing but what handlers put in front between them, and then advance is next; a read of no bytes invokes none, and requests a close unless something is requested |
| `TcpFlow.Received` | uo_tcp/src/uo_tcp_conn.c:119-143 | in every run, whenever the received count rises, a read of some bytes has just ended, and exactly the after_recv handlers follow, then advance |
| `TcpFlow.Sends` | uo_tcp/src/uo_tcp_conn.c:75-117 | in every run, after each send all after_send handlers are invoked, in order, then after_send, then advance |
| `TcpFlow.Closes` | uo_tcp/src/uo_tcp_conn.c:53-73 | in every run, after the close all after_close handlers are invoked, in order, and then the function that destroys the connection |
| `TcpFlow.Counters` | uo_tcp/src/uo_tcp_conn.c:53-143 | in every run the counts of receives, sends, closes and destroys move by one in the function for each and in no other step |
| `TcpFlow.Obeys` | uo_tcp/src/uo_tcp_conn.c:32-195 | in every run, of all requests since advance last ran, by handlers and from outside, the first decides: the handlers before that operation are invoked, in order, and then it is next; without a request advance looks a second time |
| `TcpFlow.EndOfInput` | uo_tcp/src/uo_tcp_conn.c:133-138 | in every run, a read of no bytes at whose end nothing is requested leads to the before_close handlers and the close, whatever is requested after it |
| `TcpFlow.Decides` | uo_tcp/src/uo_tcp_conn.c:164-195 | the second look of advance: a request made meanwhile leads back to advance and stays pending, and without one the connection is idle |
| `TcpFlow.FirstPending` | uo_tcp/src/uo_tcp_conn.c:32-45 | between two runs of advance what is pending is the first of all requests made |
| `TcpFlow.NeverStuck` | uo_tcp/src/uo_tcp_conn.c:53-195 | in every run the connection can make a step of its own exactly until it is idle or destroyed |
| `TcpWake.WakeUpDrivers` | uo_tcp/src/uo_tcp_conn.c:32-45 | in every interleaving of any number of calls on an idle connection, the drivers they start and the calls these make: the drivers are counted exactly by the waking calls and the times the connection went and was found idle; fewer drivers than waking calls, none for one, with the request of one of the callers pending, and exactly one for two |
| `TcpWake.OneDriverIff` | uo_tcp/src/uo_tcp_conn.c:32-45 | however many calls the drivers' own handlers make, no two drivers are ever alive if and only if at most two calls come from outside |
| `TcpWake.MoveInv` | uo_tcp/src/uo_tcp_conn.c:32-45 | each access of a caller or a driver keeps the counts |
| `TcpWake.DriverIsConn` | uo_tcp/src/uo_tcp_conn.c:164-195 | the two accesses of a driver are those of the connection machine |
| `TcpWake.PendingMoves` | uo_tcp/src/uo_tcp_conn.c:32-45 | calls from outside and by handlers: while the connection is not idle a call does what a request does in the connection machine, and the second access stores the caller's own request exactly when the connection is still idle |
| `HttpConn.HttpRuns` | uo_http/src/uo_http_server.c:16-233 | every run of the HTTP server's functions, whose stack exchanges are modelled as they are, is a run of the connection machine, and every function finds exactly the object it works on, if user functions leave the stack alone and reads can be registered |
| `HttpConn.HookStep` | uo_http/src/uo_http_server.c:16-233 | each function of the server, run on the object it needs, leaves the object that the next function needs |
| `HttpConn.DoesFits` | uo_http/src/uo_http_server.c:16-233 | whatever a function puts in front of the list ends with the object that the function after it finds |
| `HttpFlow.Answers` | uo_http/src/uo_http_server.c:98-215 | in every run of the server, after a receive that completes a request, when nothing is pending and only the flow asks for operations: the user's functions, then the search for request handlers, then the hand-back and the request to send are invoked, all and in this order, and then advance starts a send before which the user's functions, the writing of the response and the hand-back are invoked |
| `HttpFlow.ReceivesHttp` | uo_http/src/uo_http_server.c:169-215 | in every run, after each receive either the search for handlers runs behind the user's functions, followed by the hand-back, or another receive is requested first |
| `HttpFlow.ReceivesFirst` | uo_http/src/uo_http_server.c:217-233 | in every run, when only the flow asks for operations, the first advance starts a receive |
| `HttpFlow.SendsHttp` | uo_http/src/uo_http_server.c:98-136 | in every run, between advance and a send the user's functions, the writing of the response and the hand-back are invoked, in this order |
| `HttpFlow.SentHttp` | uo_http/src/uo_http_server.c:66-96 | in every run, after a send the user's functions, the reset of both messages, the hand-back and the default request are invoked, in this order, after a request to close or to receive |
| `HttpFlow.ClosesHttp` | uo_http/src/uo_http_server.c:52-64 | in every run, between advance and the close the user's functions and the hand-back are invoked |
| `HttpFlow.ClosedHttp` | uo_http/src/uo_http_server.c:26-50 | in every run, after the close the user's functions are invoked and the HTTP connection is disposed of, before the TCP connection is destroyed |
| `HttpFlow.EveryOutcome` | uo_http/src/uo_http_server.c:16-233 | in every run each function that is next can run with every outcome the code has: a receive may complete the request or not, after a send a close or a receive may be requested, the search for handlers may find one or not |
| `HttpConn.ForgottenEvent` | uo_io/src/uo_io.c:330-345 | after a read that cannot be registered, the next function to run is the server's for a finished receive, a send or a close, and it finds its object, at the place of the stack where it looks, if and only if it is the first of these; the others take the forgotten event |
| `HttpConn.BottomStays` | uo_http/src/uo_http_server.c:169-215 | on a stack with a forgotten event the function for a finished receive leaves the TCP connection where user functions and the search for handlers look for the HTTP connection |
| `HttpConn.SomeForgotten` | uo_http/src/uo_http_server.c:52-64 | a run in which the server takes a forgotten event for its connection |
| `Framing.FramingRoundTrip` | uo_tcp/src/uo_tcp_conn.c:280-320 | for every message and every division of its frame, which is the length as four bytes with the most significant first and then the message: it is handed over intact with the last byte exactly when the first receive has the whole prefix and the frame is shorter than 2^32 bytes |
| `Framing.CollectsAll` | uo_tcp/src/uo_tcp_conn.c:299-320 | every proper prefix of a frame asks for another receive, and the last byte delivers |
| `Framing.HookFirst` | uo_tcp/src/uo_tcp_server.c:155-191 | the hook's request overrides the default next step of the flow |
| `Framing.BeforeSend` | uo_tcp/src/uo_tcp_conn.c:280-297 | stays within the buffer exactly when one doubling makes room; the buffer then holds the four-byte big-endian length followed by the message exactly when the message is shorter than 2^32 bytes |
| `Framing.AfterRecv` | uo_tcp/src/uo_tcp_conn.c:299-320 | the receive buffer is judged as too short, incomplete or a full message, which then stands alone in it |
| `Framing.BigEndianRoundTrip` | uo_tcp/src/uo_tcp_conn.c:280-320 | ntohl undoes htonl |
| `Framing.FrameIff` | uo_tcp/src/uo_tcp_conn.c:292-294 | four bytes whose value to base 256, most significant first, is the length, and then the message: the frame is the only such sequence |
| `Framing.JudgeIs` | uo_tcp/src/uo_tcp_conn.c:306-317 | on every buffer of fewer than 2^32 bytes: too short below four bytes, incomplete while the announced bytes are not all there, and otherwise full, with any further bytes handed over too |
| `Framing.Buf.Realloc2x` | uo_buf/src/uo_buf.c:20-33 | doubles the size and keeps the contents |
| `HttpWire.SplitInvariance` | uo_http/src/uo_http_server.c:169-215 | for every request with a proper request line and header lines, and any body: every division of its bytes into non-empty receives ends with the same complete message, and not before the last byte, if and only if its header table is read as it was sent, the headers or the method announce the body, and no blank line is seen in the body before its last byte |
| `HttpWire.SplitInvarianceByValues` | uo_http/src/uo_http_server.c:169-215 | the same for requests with different header names, with the first condition being that no header value is empty |
| `HttpWire.KeptIff` | uo_http/src/uo_http_msg.c:470-478 | with different header names, the table is read as it was sent if and only if no value is empty |
| `HttpWire.SomeSwallowed` | uo_http/src/uo_http_msg.c:470-478 | a concrete request with an empty value, whose next header line becomes the value and is lost |
| `HttpWire.MisreadBreaks` | uo_http/src/uo_http_msg.c:424-546 | for every body whose length the receiver can tell and that has such a blank line, a division of the request that does not give the message |
| `HttpWire.OneReceive` | uo_http/src/uo_http_msg.c:266-546 | a request that arrives in one piece is understood exactly when its header table is read as it was sent and its body is announced |
| `HttpWire.UnannouncedWaits` | uo_http/src/uo_http_msg.c:523-545 | a request whose headers, as they are read, give no content-length although its method may have a body is never complete, however it arrives, unless its body holds a blank line: it ends invalid and waiting |
| `HttpWire.CompleteWithoutLength` | uo_http/src/uo_http_msg.c:523-545 | for every request without content-length and body whose table is read as it was sent: it is complete with its last byte, for every division, if and only if its method is GET, HEAD, DELETE, CONNECT or TRACE; a PUT, POST or OPTIONS ends invalid and waiting |
| `HttpWire.SomeMisread` | uo_http/src/uo_http_msg.c:433-446 | a concrete announced request on which parsing depends on the division |
| `HttpWire.SomeUnannounced` | uo_http/src/uo_http_msg.c:523-545 | a concrete request, OPTIONS without headers, that is never complete |
| `HttpWire.StartLineAt` | uo_http/src/uo_http_msg.c:266-422 | the request line is accepted as soon as it is complete, with its method, URI and version, and not before |
| `HttpWire.LineIs` | uo_http/src/uo_http_msg.c:122-181 | the request line in characters: the method's name, a space, the URI, a space, HTTP/1.0, HTTP/1.1 or HTTP/2, carriage return and line feed |
| `HttpWire.TokenIsMethod` | uo_http/src/uo_http_msg.c:351-422 | a token is taken for a method exactly when it is one of the eight names in capitals |
| `HttpWire.CaseIgnored` | uo_http/src/uo_http_msg.c:456-468 | header names that differ only in the case of letters give the same table |
| `HttpWire.FindBlankIs` | uo_http/src/uo_http_msg.c:433-446 | the header end that strstr finds is the first carriage return, line feed, carriage return, line feed that no terminator comes before |
| `HttpWire.HeadersAt` | uo_http/src/uo_http_msg.c:424-484 | the header section is accepted exactly when its blank line is complete, as the table that the parser reads from its fields |
| `HttpWire.BodyAt` | uo_http/src/uo_http_msg.c:486-546 | a body whose length can be told from the headers as read is accepted exactly when all its bytes are there |
| `HttpWire.BodyUnread` | uo_http/src/uo_http_msg.c:486-546 | with all bytes there, any other body is not read as it was sent |
| `HttpWire.FieldsParsed` | uo_http/src/uo_http_msg.c:456-481 | for all header lines, the tokenising loop stores each value under its name, or, where the value is empty, the whole next line |
| `HttpFault.FaultIff` | uo_http/src/uo_http_msg.c:456-481 | whether the tokenising loop reads behind its copy depends on the text alone, not on the table it fills |
| `HttpFault.FaultsAtOpenName` | uo_http/src/uo_http_msg.c:456-481 | for every text, by positions in it: the loop reads behind its copy exactly when the text is headers, one behind the other, and then a name that no delimiter ends |
| `HttpFault.ReceiveFaultsIff` | uo_http/src/uo_http_server.c:169-215 | for every message state and buffer: a receive faults exactly when no body is complete and the header text now complete has such a name |
| `HttpFault.LastLineDecides` | uo_http/src/uo_http_msg.c:456-481 | behind header lines, the loop faults exactly when the last line has no delimiter after its leading ones and is not taken for the value of an empty header before it |
| `HttpFault.CrashesIff` | uo_http/src/uo_http_server.c:169-215 | for every division into receives, a header section with such a last line crashes the reception, and if nothing follows, exactly such a one does |
| `HttpFault.SomeCrash` | uo_http/src/uo_http_msg.c:424-484 | the single line foo in place of headers crashes the reception |
| `HttpBounds.WritesBeyondIff` | uo_http/src/uo_http_msg.c:486-521 | for every message state and buffer: the terminator behind a body is written beyond the buffer exactly when the headers were complete before this receive and the body ends with the last byte of a full buffer |
| `HttpBounds.OverrunsIff` | uo_http/src/uo_http_server.c:169-215 | for every division of a request into receives that fit the growing buffer, the terminator is written beyond it exactly when the last receive starts within the body and fills the buffer |
| `HttpBounds.SizeIsLeast` | uo_buf/src/uo_buf.c:20-33 | in every reception that fits, the size of the buffer during the last receive is the least doubling of its first size that exceeds the bytes before it |
| `HttpBounds.SomeOverrun` | uo_http/src/uo_http_msg.c:502-521 | every request with a body has such receives, for a buffer of its own size |
| `HttpReceiver.ReceiveRequest` | uo_http/src/uo_http_server.c:169-215 | the message object, fed any division of a request, ends complete with the denoted message if the table is read as it was sent and the body is announced and not misread; fed at once, exactly if the first two hold; and without a length read although the method may have a body, it stays invalid and waiting |
| `HttpReceiver.Receive` | uo_http/src/uo_http_server.c:169-215 | feeding any chunks to the object computes the reception function, faults included |
| `HttpReceiver.RecvRequest.ParseStartLine` | uo_http/src/uo_http_msg.c:266-422 | updates the object as the start-line function says |
| `HttpReceiver.RecvRequest.ParseHeaders` | uo_http/src/uo_http_msg.c:424-484 | updates the object as the header function says, or faults where it does |
| `HttpReceiver.RecvRequest.StoreFields` | uo_http/src/uo_http_msg.c:456-481 | the tokenising loop stores exactly the fields of the text |
| `HttpReceiver.RecvRequest.ParseBody` | uo_http/src/uo_http_msg.c:486-546 | updates the object as the body function says |
| `HttpReceiver.RecvRequest.AfterRecv` | uo_http/src/uo_http_server.c:169-215 | one receive takes the object and the request for more bytes where the driver function does |
| `HttpServer.NoEarlySend` | uo_http/src/uo_http_server.c:169-215 | after any prefix of a request that is not misread the next operation is a receive, and after the last byte a send exactly when the receiver can tell, from the headers as it reads them, that it was the last |
| `HttpOrder.HandleRequest` | uo_http/src/uo_http_server.c:138-167 | for every list of patterns, request text and behaviour of the user functions, which may set the status line and put functions in front: handling ends; each function of each handler found is invoked exactly once, those of one handler in the order of its list and the handlers in registration order, and no other; what a function puts in front is invoked exactly once each, in order, directly after it; the handlers found are those whose pattern the request is an instance of, in registration order, up to the one that sets the status line; the request data holds exactly their parameters' values |
| `HttpServer.TreeAppend` | uo_cb/src/uo_cb.c:118-179 | running two lists of functions that put functions in front, one behind the other, is running the first and then the second |
| `HttpServer.Handling.InvokeUser` | uo_cb/src/uo_cb.c:166-179 | a user function is taken off the list, and what it prepends comes before everything else |
| `HttpServer.NextHandler` | uo_http/src/uo_http_server.c:150-163 | the loop finds the first handler from a position on whose pattern matches, and stores its parameters |
| `HttpServer.Register` | uo_http/src/uo_http_server.c:275-293 | a registered handler has the memory that create makes of its pattern |
| `HttpServer.Handling.ProcessReqHandlers` | uo_http/src/uo_http_server.c:138-167 | finds the next match behind prev_handler, stores its parameters and puts its functions and itself in front, or lets the callback go on |
| `HttpServer.Handling.Handle` | uo_cb/src/uo_cb.c:166-179 | invoking until the list is empty keeps the handling invariant and ends |
| `HttpServer.ProcessInv` | uo_http/src/uo_http_server.c:145-164 | a search step keeps the handlers found equal to the matching ones passed |
| `HttpServer.MatchingIncreases` | uo_http/src/uo_http_server.c:150-163 | the matching handlers in registration order: ascending, all matching, none left out |
| `HttpWriter.PrintParse` | uo_http/src/uo_http_msg.c:122-586 | for every method, URI, version, lower-case header table and body: printing then parsing gives them back, the table in order, if and only if no header value is empty and the headers announce the body (sections 3.1 to 3.3 of RFC 7230) |
| `HttpWriter.SendAndReceive` | uo_http/src/uo_http_msg.c:36-586 | for every sequence of set_header and set_content calls: printing and receiving gives the message that was set, if and only if no header value is empty and the headers announce the body, which holds whenever the last call stored a body |
| `HttpWriter.ContentFramed` | uo_http/src/uo_http_msg.c:46-82 | set_content leaves a message whose headers announce its body if and only if it stored a body or there was none before |
| `HttpWriter.ContentHeaders` | uo_http/src/uo_http_msg.c:46-82 | for every header name: set_content leaves the length under content-length, the type under content-type unless the content is empty, and every other header as before |
| `HttpWriter.SendRequest.SetRequestLine` | uo_http/src/uo_http_msg.c:122-181 | refuses unknown methods and versions and empty URIs and otherwise stores both halves of the line |
| `HttpWriter.SendRequest.SetContent` | uo_http/src/uo_http_msg.c:46-82 | the table and the body after set_content; empty content leaves an earlier body in the message, which is then announced wrongly, and that is the only such case |
| `HttpWriter.SendRequest.WriteToBuf` | uo_http/src/uo_http_msg.c:555-586 | empties the message's own buffer, and then appends the start line, the headers in table order, the blank line and the body; what it appends thus replaces what was in its own buffer |
| `HttpWriter.HeadersRebuilt` | uo_http/src/uo_http_msg.c:456-481 | storing the printed fields one by one rebuilds the table in order |
| `CText.StrtoullDecimal` | uo_http/src/uo_http_msg.c:502-513 | reading back a printed content length gives the length |
| `CText.StrtoullIs` | uo_http/src/uo_http_msg.c:502-513 | on white space, a sign, digits and anything else, strtoull gives the decimal value, negated in 64 bits behind a minus, or refuses a value of 2^64 or more |
| `CText.DecimalShortest` | uo_http/src/uo_http_msg.c:46-82 | a printed length has no leading zero |
| `CText.SameName` | uo_http/src/uo_http_msg.c:456-468 | two names become equal in lower case exactly when they differ at most in the case of the 26 letters |
| `CText.Djb2Is` | uo_util/src/include/uo_util/uo_util.h:35-46 | the string hash: 5381 times 33 to the length, plus each character times 33 to the number of characters behind it, in 64 bits |
| `Callback.AppendRunsInSequence` | uo_cb/src/uo_cb.c:166-179 | if a uses up exactly its own data and does the same with the data of b beneath it, running append(a, b) runs a and then is exactly b |
| `Callback.Framed` | uo_cb/src/uo_cb.c:151-179 | running with another callback appended runs the same and leaves the other's functions and data untouched |
| `Callback.NoDataBeneath` | uo_cb/src/uo_cb.c:151-179 | every callback does the same with a callback beneath that carries no data |
| `Callback.AppendAssociative` | uo_cb/src/uo_cb.c:151-164 | append is associative |
| `Callback.PrependAssociative` | uo_cb/src/uo_cb.c:127-140 | prepend is associative |
| `Callback.PrependIsAppend` | uo_cb/src/uo_cb.c:86-164 | prepending a to b gives what appending b to a clone of a gives |
| `Callback.Callback.AppendCb` | uo_cb/src/uo_cb.c:151-164 | functions A then B over stack B then A; the appended callback is unchanged |
| `Callback.Callback.PrependCb` | uo_cb/src/uo_cb.c:127-140 | functions B then A over stack A then B; the prepended callback is unchanged |
| `Callback.SelfNeverEnds` | uo_cb/src/uo_cb.c:127-164 | appending or prepending a callback that has functions to itself never ends |
| `Callback.Callback.Clone` | uo_cb/src/uo_cb.c:86-101 | a fresh callback with the same functions and stack |
| `Base64.EncodesBits` | uo_base64/src/uo_base64.c:37-84 | symbol k is the character of the standard or the URL-safe alphabet, written out, at the index that the next six bits of the input give, zero-filled at the end; every further character up to a multiple of four is '=' in standard encoding, and there is none in the other (sections 4 and 5 of RFC 4648) |
| `Base64.ValuesAre` | uo_base64/src/uo_base64.c:12-29 | the decoding tables give each character of the alphabet its index, a mark of its own to the padding character of the standard one, and one mark to everything else |
| `Base64.EncodeLength` | uo_base64/src/uo_base64.c:31-84 | how many symbols and padding characters there are, for both alphabets |
| `Base64.EncodeTo` | uo_base64/src/uo_base64.c:149-198 | the back-to-front loop writes the encoding of the original bytes even when both buffers are one |
| `Base64.UrlRoundTrip` | uo_base64/src/uo_base64.c:200-242 | decoding inverts URL-safe encoding for every byte string |
| `Base64.StdRoundTrip` | uo_base64/src/uo_base64.c:86-121 | decoding inverts standard encoding if and only if the length is not divisible by 3 or padding happens to follow the text in memory |
| `Base64.DecodeUrlInPlace` | uo_base64/src/uo_base64.c:200-242 | decoding within one buffer gives the decoded bytes |
| `Base64.DecodeInPlace` | uo_base64/src/uo_base64.c:86-121 | decoding within one buffer gives the decoded bytes, or reads beyond the memory exactly where the function says |
| `Base64.UrlInPlace` | uo_base64/src/uo_base64.c:149-242 | encoding and decoding within one buffer restores every byte string |
| `Base64.StdInPlace` | uo_base64/src/uo_base64.c:37-121 | encoding and decoding within one buffer restores the bytes exactly under the condition of StdRoundTrip |
| `Json.EncodeDecode` | uo_json/src/uo_json.c:11-96 | decoding inverts encoding for every byte string, whatever follows in memory |
| `Json.ParityIsLexing` | uo_json/src/uo_json.c:132-196 | on every text the backward backslash-parity test agrees with a forward lexer of escapes (section 7 of RFC 8259) |
| `Json.FindsEncodedEnd` | uo_json/src/uo_json.c:185-196 | on an encoded string followed by any text the search stops exactly at its end |
| `Json.EncodeUtf8` | uo_json/src/uo_json.c:66-96 | the encoding loop writes the escape of each byte between quotes, or null for a null pointer |
| `Json.DecodeUtf8` | uo_json/src/uo_json.c:11-64 | the decoding loop computes the decoding function, with its failures and the write through a null pointer |
| `JsonSpelling.DecodesSpellings` | uo_json/src/uo_json.c:11-64 | for every text and every spelling of it, piece by piece as plain characters, the eight short escapes of section 7 of RFC 8259 or four hexadecimal digits, between quotes and with anything behind it in memory: decoding gives the text, with code points from 0x80 on as the bytes of section 3 of RFC 3629 |
| `JsonSpelling.RefusesEscape` | uo_json/src/uo_json.c:24-58 | an escape that is none of these is refused, wherever it stands |
| `JsonSpelling.Utf8Is` | uo_util/src/include/uo_util/uo_util.h:100-135 | the bytes of a code point are those whose payload bits, recomposed, give it |
| `JsonSpelling.EscapeIs` | uo_json/src/uo_json.c:66-96 | what the encoder writes for each byte: the quote and the backslash behind a backslash, other control characters as four hexadecimal digits, anything else as it is |
| `Json.IsCharEscaped` | uo_json/src/uo_json.c:132-141 | true exactly when an odd number of backslashes stands before the character |
| `Json.FindStrEnd` | uo_json/src/uo_json.c:185-196 | the search loop computes the search function |
| `ReqPattern.CreateAndTry` | uo_http/src/uo_http_req_handler.c:9-120 | for every documented pattern and request text without '{': it matches exactly the instances of the pattern, and stores exactly the values of the instance under their names |
| `ReqPattern.Try` | uo_http/src/uo_http_req_handler.c:45-120 | a registered pattern matches exactly its instances and stores exactly the values of the instance |
| `ReqPattern.MatchIff` | uo_http/src/uo_http_req_handler.c:45-96 | the match attempt stays within its strings and succeeds with given value positions exactly when the text is the pattern instantiated with values free of their delimiter there |
| `ReqPattern.Sound` | uo_http/src/uo_http_req_handler.c:45-96 | every match is an instance |
| `ReqPattern.Complete` | uo_http/src/uo_http_req_handler.c:45-96 | every instance is matched, with exactly its values |
| `ReqPattern.Prepares` | uo_http/src/uo_http_req_handler.c:9-35 | create turns the text of a documented pattern into its memory and counts its parameters |
| `ReqPattern.ValueStored` | uo_http/src/uo_http_req_handler.c:98-120 | the stored value is the matched part of the request text, although the copy is cut at every value's end |
| `ReqPattern.MatchParams` | uo_http/src/uo_http_req_handler.c:45-96 | the matching loop computes the match function and finds values in order |
| `ReqPattern.StoreParams` | uo_http/src/uo_http_req_handler.c:98-120 | the storing loops cut the copy and update the table in pattern order |
| `ReqPattern.DiffAfter` | uo_util/src/include/uo_util/uo_util.h:164-175 | the first difference of two strings with a common prefix lies behind it |

## Left out

- Operating-system input and output, sockets, TLS, accept and connect: a read is some bytes, or none.
- Memory limits: allocation always succeeds, and the hash table's capacity, the queue's tickets and the buffer sizes do not reach the width of size_t.
- HashTable.Run: starts from initial capacities up to 2^63, because a table made with more has no slot to probe.
- HashTable.HashTable.Set: asks that the value is not the removed tag, as the table stores that value to mark tombstones.
- Keys are compared by the table's equality; which of two equal string pointers a slot holds is modelled only as the key stored first.
- The weak memory of real hardware: every step of `Queue`, `ThreadPool`, `TcpConn` and `TcpWake` is an atomic access in one global order. These protocols are step systems over values, since the source runs them on several threads at once; what a thread object is is not captured.
- Semaphore time-outs and interrupted waits: a call that fails changes nothing and is not a step.
- The thread pool's throughput arithmetic, clocks and pauses: a sample may raise, lower or keep the target.
- TcpConn.OneDriver: assumes that handlers put the connection back at the bottom of the stack before its own functions run, which `HttpConn.HttpRuns` proves of the HTTP server's, and that writes succeed; the send-failure branch and the write loop's pointer are not modelled.
- HttpConn.HttpRuns: user functions leave the stack as they found it, and request handlers' callbacks carry no data of their own; the HTTP client is not modelled.
- HttpFlow.Answers: says what is invoked for a complete request; that a receive completes one is stated of the parser, in `HttpWire` and `HttpServer.NoEarlySend`. It starts from runs in which every read can be registered, as `HttpConn.HttpRuns` does.
- TcpWake.WakeUpDrivers: what a driver does between two runs of advance is one step; that a driver may destroy the connection under another is not followed further.
- Liveness of idle connections: no theorem says that a request on an idle connection is carried out.
- Callback.AppendRunsInSequence: speaks of functions that put others in front of the running list; functions that append to it, as those of a connection do, are modelled in `TcpConn`.
- What the terminator byte that parse_body writes behind the body overwrites, and pipelined requests that share a receive.
- Callback.Callback.AppendCb: takes another callback, because on itself the loop never ends (`Callback.SelfNeverEnds`).
- Callback.Callback.PrependCb: takes another callback, for the same reason.
- HttpWire.SplitInvariance: speaks of requests; parsing responses, Transfer-Encoding and the status tables are not modelled.
- Header names and values are text without terminators; white space behind a value belongs to it; tolower and isspace are those of the C locale.
- ReqPattern.CreateAndTry: speaks of patterns with non-empty literals between parameters and request texts without '{', for which the documentation describes matching.
- HttpOrder.HandleRequest: takes the same patterns and request texts; user functions that put others in front without end, or take functions off the list, are not modelled.
- Base64.DecodeUrlInPlace: for text of a length that no encoder produces it states what the loop computes, not that the text is rejected, because the code does not reject it.
- Framing.FramingRoundTrip: messages are shorter than 2^32 bytes, because longer ones have no prefix.
- LinkPool.Run: speaks of one thread that keeps its pool; a thread that takes over another's block stack starts with an empty free list and does not reuse those blocks.
- The JSON object, array and number scans, uo_jwt, the HTTP client and the static-file cache.
- Reference counts, reference stacks, destruction and freeing.
- uo_stack and uo_buf beyond what the callbacks and the framing hooks use: they would only add easy members.
