# Models of the socket, list and text programs

Each module models one program (or one protocol of two cooperating programs)
and proves what the program is for. Programs that work in place keep that
form: classes, arrays, linked nodes and loops, with each method proved against
a specification that does not follow its steps. Code that several processes,
threads or handlers run together is a state machine: a `State`, one transition
per step that can be interleaved, an invariant kept by each transition, and
theorems about every state of every run (`Runs.IsRun`).

| module | program | what is settled |
|---|---|---|
| `InetText`, `InetNtop`, `InetPton`, `InetRoundTrip`, `InetGrammar`, `InetCase` | `inet_ntop`, `inet_pton` | parsing undoes printing for every address; the abbreviated run is the leftmost longest one; exactly which texts are accepted and what each denotes |
| `TailQueue` | `TAILQ_*` macros | the slot pointers always represent one sequence, and every macro is the matching sequence operation |
| `Prefork` | descriptor-passing server | counts, ownership and unreachable exits in every interleaving |
| `DgSendRecv`, `Rtt` | request/reply over UDP | a reply is never stale for the n-th call exactly when n is at most 2^32; bounded effort and timers |
| `Rcu` | copy, publish, retire, free | no reader holds freed memory; freed once; reads are current; no update lost |
| `SigioEcho` | SIGIO echo server | no pending slot overwritten; datagrams echoed once, in order |
| `ThreadPool` | descriptor ring with a condition variable | FIFO, no overwritten slot, no lost wakeup |
| `WebFetch` | parallel fetch scheduler | exact counters, connection limit, unreachable exit, exit only when all is done |
| `StrCli` | nonblocking client | byte streams conserved under every pattern of short reads and writes; FIN exactly once, exactly when due |
| `Readline` | buffered and byte-at-a-time `readline` | both store the same bytes for every way of splitting the stream |
| `Comments`, `CommentText` | in-place C comment remover | blanks exactly the comments that a lexer of the original text finds; what becomes of each kind of comment and literal, from the text alone; idempotent |
| `DnsName` | DNS names with compression | decoding spells the labels or reports too long; round trips, with and without compression |
| `GaPort` | `ga_port`, `ga_clone`, `ga_serv` | the growing list ends as one block per host in a fixed order |
| `LevelTree` | level-order tree | printing returns the input |
| `InCksum` | Internet checksum | two folds give the ones' complement sum, exactly when the sum fits 32 bits; a stored checksum always verifies |

## How the environment appears

- System calls are parameters or steps: `read`, `write`, `select`, `accept`,
  `connect` and signals may give any outcome that their documentation allows
  (short counts, would-block, EINTR, end of file, any set of ready
  descriptors). A run is any sequence of such outcomes.
- The datagram network holds two sets that only grow. A datagram in a set may
  be received never, once or often, in any order: loss, duplication and
  reordering. Sequence numbers are 32 bits wide and wrap.
- Mutexes, condition variables, spinlocks and grace periods are steps enabled
  by their documented condition. Steps are sequentially consistent.
- Floating-point values in `rtt.c` are reals. Machine integers are written out
  where their width matters: sequence numbers, the checksum's accumulator,
  groups and octets of addresses, label lengths.
- Memory allocation succeeds.
- A C string is a `string` that ends at its first `'\0'` or at its end.

## Where the code and its documentation differ

The models follow the code.

- `inet_pton6` says that `::` in a full address is silently ignored
  (unixNetV1/libfree/inet_pton.c:134). It zeroes everything after the `::`;
  `InetRoundTrip.ColonsInFullAddress` says exactly when nothing is lost.
- `inet_pton6` accepts one colon after the last group
  (`InetGrammar.FinalColon`).
- `inet_ntop4` does not count the terminator in its size test, so text of
  exactly that size is accepted and its terminator lands one place further
  (`InetNtop.InetNtop4`, `InetNtop.QuadOverrun`); `inet_ntop6` counts it.
- The buffered `readline` returns `maxlen` with `maxlen - 1` bytes stored when
  the buffer fills; the other two versions also count one too many after a
  final line without a newline. `Readline.Reader.Readline`,
  `Readline.Reader.ReadlineR` and `Readline.ReadlineUnbuffered` state the
  returned number in each case.
- A call of `dg_send_recv` after 2^32 others can return an old reply
  (`DgSendRecv.StaleReply`).
- The checksum is wrong for every buffer whose words add up to 2^32 or more
  (`InCksum.CorrectExactly`), and then in general depends on the byte order
  (`InCksum.ByteOrderExactly`). It still verifies once stored
  (`InCksum.StoredChecksumVerifies`).
- A DNS name whose pointers lead strictly backwards can still be endless: a
  label may run up to a pointer back to it (`DnsName.PointerLoop`). Decoding
  terminates because the room for text shrinks.

## Model

| member | source | states |
|---|---|---|
| InetText.BestRunUnique | unixNetV1/libfree/inet_ntop.c:135-156 | there is only one leftmost longest run of two or more zero words |
| InetText.BestRunExists | unixNetV1/libfree/inet_ntop.c:135-156 | a run is abbreviated whenever two adjacent words are zero |
| InetText.BytesOfWordsOf | unixNetV1/libfree/inet_ntop.c:132-134 | packing bytes into words loses nothing |
| InetText.NoLeadingZero | unixNetV1/libfree/inet_ntop.c:181 | no printed numeral but zero starts with a zero |
| InetNtop.InetNtop4 | unixNetV1/libfree/inet_ntop.c:85-101 | writes the dotted quad and its terminator, or nothing exactly when the text is longer than the size; the terminator falls outside the announced bytes if and only if the text has exactly that many characters |
| InetNtop.QuadOverrun | unixNetV1/libfree/inet_ntop.c:94-99 | 255.255.255.255 with size 15 is such an input |
| InetNtop.PackWords | unixNetV1/libfree/inet_ntop.c:132-134 | the words are the address's bytes taken in pairs, high byte first |
| InetNtop.CloseRun | unixNetV1/libfree/inet_ntop.c:144-148 | replacing the best run only by a strictly longer one keeps the leftmost longest run |
| InetNtop.FindBestRun | unixNetV1/libfree/inet_ntop.c:135-156 | the result is the leftmost of the longest runs of at least two zero words, or -1 when there is none |
| InetNtop.ProgressStep | unixNetV1/libfree/inet_ntop.c:162-183 | what one iteration adds to the text, whichever side of the run it is on |
| InetNtop.EmbeddedText | unixNetV1/libfree/inet_ntop.c:173-179 | stopping after six words and a dotted quad gives the compatible and mapped IPv4 forms |
| InetNtop.PlainText | unixNetV1/libfree/inet_ntop.c:162-187 | the iterations, with the extra colon of a trailing run, give the groups around a double colon |
| InetNtop.Format | unixNetV1/libfree/inet_ntop.c:161-187 | the buffer holds the presentation form with the given run abbreviated, and the terminator fits |
| InetNtop.InetNtop6 | unixNetV1/libfree/inet_ntop.c:109-198 | writes exactly the presentation form and its terminator, or nothing when they do not fit; they always fit the temporary buffer |
| InetNtop.TextOfMapped | unixNetV1/libfree/inet_ntop.c:174-179 | after ten zero bytes and two of all ones, the text is `::ffff:` and the dotted quad of the last four bytes |
| InetNtop.TextOfCompatible | unixNetV1/libfree/inet_ntop.c:174-179 | after twelve zero bytes and a word that is not zero, the text is `::` and the dotted quad |
| InetPton.InetPton4 | unixNetV1/libfree/inet_pton.c:86-125 | writes the four octets the text denotes, or leaves the destination alone when the text is refused |
| InetPton.ShiftToEnd | unixNetV1/libfree/inet_pton.c:205-218 | the backward shift in place leaves the bytes before the double colon, zeros, and the bytes after it; with no gap left the tail is zeroed |
| InetPton.ScanGroups | unixNetV1/libfree/inet_pton.c:162-204 | the bytes written from the front and the position of the double colon are those of the scan, and the rest of the buffer is still zero |
| InetPton.InetPton6 | unixNetV1/libfree/inet_pton.c:141-223 | writes the sixteen bytes the text denotes, and does not touch the destination otherwise |
| InetGrammar.Pton4Exactly | unixNetV1/libfree/inet_pton.c:95-124 | a text is accepted if and only if it is four decimal numerals up to 255 between dots, and their values are returned |
| InetGrammar.Rest6Exactly | unixNetV1/libfree/inet_pton.c:162-204 | reading the fields one at a time accepts exactly the well-formed lists and writes two bytes per group before the double colon |
| InetGrammar.ScanFields6 | unixNetV1/libfree/inet_pton.c:162-204 | the character scan, from the middle of any field, agrees with reading whole fields between colons |
| InetGrammar.ScanExactly | unixNetV1/libfree/inet_pton.c:162-204 | the scan of a text succeeds if and only if its fields are well formed, with the bytes and the mark they determine |
| InetGrammar.Pton6Exactly | unixNetV1/libfree/inet_pton.c:152-223 | which texts are accepted, if and only if: a leading colon is doubled, groups have at most 16 bits, at most one inner field is empty, only the last may be a quad or empty, and the bytes fit; and which address each denotes |
| InetGrammar.FinalColon | unixNetV1/libfree/inet_pton.c:175-204 | a full address followed by one colon is accepted as that address |
| InetCase.DecValueExactly | unixNetV1/libfree/inet_pton.c:91-101 | a decimal digit has the value of its position in the digit string, and no other character has one |
| InetCase.HexValueExactly | unixNetV1/libfree/inet_pton.c:145-169 | a hexadecimal digit has the value of its position in the lower-case or the upper-case digit string, and no other character has one |
| InetCase.CaseIgnored | unixNetV1/libfree/inet_pton.c:162-174 | writing the digits of any text in upper case changes neither acceptance nor the address |
| InetRoundTrip.RoundTrip4 | unixNetV1/libfree/inet_pton.c:95-124 | parsing the dotted quad of four octets returns them |
| InetRoundTrip.ScanQuad | unixNetV1/libfree/inet_pton.c:191-196 | a quad at the start of a group is handed over whole at its first dot |
| InetRoundTrip.PtonOfAbbreviated | unixNetV1/libfree/inet_pton.c:205-218 | whatever run is abbreviated, the parser restores the words around it and fills the gap with zeros |
| InetRoundTrip.PtonOfText | unixNetV1/libfree/inet_pton.c:152-223 | every admissible abbreviation of an address, not only the printer's, parses back to it |
| InetRoundTrip.RoundTrip6 | unixNetV1/libfree/inet_ntop.c:132-187 | for every sixteen bytes, parsing the printed text returns them |
| InetRoundTrip.Text6Injective | unixNetV1/libfree/inet_ntop.c:132-187 | different addresses are printed differently |
| InetRoundTrip.ColonsInFullAddress | unixNetV1/libfree/inet_pton.c:205-218 | a double colon written in a full address keeps the address if and only if every word after it is zero |
| TailQueue.RepresentsUnique | dataStructure/tailq/queue.h:387-464 | a head and its links represent at most one sequence of elements |
| TailQueue.LinkedInRepresents | dataStructure/tailq/queue.h:392-424 | links rewritten around a new element represent the sequence with it inserted |
| TailQueue.BypassedRepresents | dataStructure/tailq/queue.h:426-433 | links rewritten past an element represent the sequence without it, and the element still remembers its place |
| TailQueue.ChainedRepresents | dataStructure/tailq/queue.h:445-452 | links joined end to end represent the concatenation |
| TailQueue.Store | dataStructure/tailq/queue.h:392-433 | writing through a slot pointer changes the one pointer that the slot names |
| TailQueue.Head.constructor | dataStructure/tailq/queue.h:387-390 | a new head is a valid empty queue |
| TailQueue.Head.Init | dataStructure/tailq/queue.h:387-390 | the queue is valid and empty |
| TailQueue.Head.InsertHead | dataStructure/tailq/queue.h:392-400 | the sequence gains the element in front, and stays validly linked |
| TailQueue.Head.InsertTail | dataStructure/tailq/queue.h:402-407 | the sequence gains the element at its end, and stays validly linked |
| TailQueue.Head.InsertAfter | dataStructure/tailq/queue.h:409-417 | the sequence gains the element right after the given one |
| TailQueue.Head.InsertBefore | dataStructure/tailq/queue.h:419-424 | the sequence gains the element right before the given one, found through its slot pointer |
| TailQueue.Head.Bypass | dataStructure/tailq/queue.h:426-433 | what pointed at the element points past it, and no other link changes |
| TailQueue.Head.Remove | dataStructure/tailq/queue.h:426-433 | the sequence loses exactly that element; repeating the removal at once changes no link of the queue |
| TailQueue.Head.Concat | dataStructure/tailq/queue.h:445-452 | the first queue is the concatenation and the second is valid and empty |
| TailQueue.Head.Last | dataStructure/tailq/queue.h:461-462 | reading a slot as if it were a head gives the last element, or null for an empty queue |
| TailQueue.Head.Prev | dataStructure/tailq/queue.h:463-464 | reading a slot as if it were a head gives the previous element, or null for the first |
| TailQueue.Head.Foreach | dataStructure/tailq/queue.h:435-438 | visits the sequence in order |
| TailQueue.Head.ForeachReverse | dataStructure/tailq/queue.h:440-443 | visits the sequence in exactly the reverse order |
| Prefork.FirstFree | unixNetV1/server/serv05.c:54-59 | the first child with status 0, if there is one |
| Prefork.FindAvailable | unixNetV1/server/serv05.c:54-59 | the loop stops at the first free child, and runs past the end exactly when none is free |
| Prefork.InitInv | unixNetV1/server/serv05.c:30-39 | the invariant holds once the children are made |
| Prefork.AcceptInv | unixNetV1/server/serv05.c:49-68 | accepting and passing a descriptor keeps the invariant; a free child is always found |
| Prefork.ScanInv | unixNetV1/server/serv05.c:70-80 | reading the ready bytes keeps the invariant, whatever select reported |
| Prefork.ChildStepInv | unixNetV1/server/child05.c:40-50 | each step of a child keeps the invariant |
| Prefork.NextInv | unixNetV1/server/serv05.c:43-81 | every step of every process keeps the invariant |
| Prefork.OwnedExact | unixNetV1/server/serv05.c:60-64 | the connections recorded for a child are exactly those given to it, in order |
| Prefork.RunSafe | unixNetV1/server/serv05.c:43-81 | in every state of every interleaving: `navail` counts the free children, the error exits are unreached, counts add up to the connections accepted, a child has at most one outstanding connection, each connection is with exactly one child, and a child's connections keep their order |
| Prefork.Dispatches | unixNetV1/server/serv05.c:45-68 | with a free child, a waiting connection can be accepted and goes to the first free child |
| Prefork.MarksFree | unixNetV1/server/serv05.c:71-79 | a child that reported can be marked free |
| Prefork.ChildCycle | unixNetV1/server/child05.c:40-50 | a child that receives a connection serves it, closes it and reports, in three steps |
| Rtt.MinMax | unixNetV1/lib/rtt.c:12-20 | the result lies in the range, and values in the range are kept |
| Rtt.MinMaxNearest | unixNetV1/lib/rtt.c:12-20 | no value of the range is nearer to the argument than the result |
| Rtt.Initial | unixNetV1/lib/rtt.c:22-35 | the first timeout is three seconds |
| Rtt.RttCell.Init | unixNetV1/lib/rtt.c:22-35 | sets every estimator and leaves the retransmission count alone |
| Rtt.RttCell.NewPack | unixNetV1/lib/rtt.c:56-60 | only the retransmission count is reset |
| Rtt.RttCell.Stop | unixNetV1/lib/rtt.c:80-102 | the estimators move toward the measurement with gains 1/8 and 1/4, and the timeout is recomputed |
| Rtt.RttCell.Timeout | unixNetV1/lib/rtt.c:111-119 | the timeout doubles, the count grows, and giving up is reported beyond the maximum |
| Rtt.StopKeepsBounded | unixNetV1/lib/rtt.c:80-102 | if every measurement is at most M, then `srtt` stays in [0, M] and `rttvar` in [0, max(0.75, M)] |
| Rtt.MirroredRtt | unixNetV1/lib/rtt.c:93-99 | measurements equally far above and below `srtt` give the same deviation and move `srtt` by opposite amounts |
| Rtt.ConstantRtt | unixNetV1/lib/rtt.c:80-102 | after n equal measurements R, `srtt` is R(1 - (7/8)^n), with the matching closed form for `rttvar` |
| Rtt.ConstantRto | unixNetV1/lib/rtt.c:101 | the timeout is then the clamped sum of `srtt` and four times `rttvar` |
| DgSendRecv.BeginInv | unixNetV1/rtt/dg_send_recv.c:26-63 | starting a call keeps the invariant |
| DgSendRecv.ExpireInv | unixNetV1/rtt/dg_send_recv.c:68-79 | a timeout, whether it retransmits or gives up, keeps the invariant |
| DgSendRecv.ServeInv | unixNetV1/rtt/dg_echo.c:10-15 | the echo of any datagram in the network keeps the invariant |
| DgSendRecv.ReceiveInv | unixNetV1/rtt/dg_send_recv.c:81-92 | receiving any datagram in the network, matching or not, keeps the invariant |
| DgSendRecv.RunInv | unixNetV1/rtt/dg_send_recv.c:26-92 | the invariant holds throughout every run |
| DgSendRecv.ReplyIsFresh | unixNetV1/rtt/dg_send_recv.c:81-92 | with loss, duplication and reordering, a successful n-th call with n up to 2^32 returned the echo of the n-th request |
| DgSendRecv.FailingCall | unixNetV1/rtt/dg_send_recv.c:68-79 | from any idle state a call can fail after using up its retransmissions, leaving its datagrams in the network |
| DgSendRecv.StaleReply | unixNetV1/rtt/dg_send_recv.c:32 | for every n above 2^32 there is a run whose n-th call returns another request's reply |
| DgSendRecv.FreshExactly | unixNetV1/rtt/dg_send_recv.c:32-92 | the n-th call is safe in all runs if and only if n is at most 2^32 |
| DgSendRecv.BoundedEffort | unixNetV1/rtt/dg_send_recv.c:56-79 | a call transmits at most RTT_MAXNREXMT + 1 times, and fails only after that many timeouts |
| DgSendRecv.TimersInRange | unixNetV1/lib/rtt.c:56-119 | in every run each timer is in [2, 480] seconds, each new packet's timeout in [2, 60], and the estimators stay within their bounds |
| DgSendRecv.Backoff | unixNetV1/lib/rtt.c:62-119 | in every run the timer of a waiting call is the timeout it began with, doubled at each timeout and rounded; between calls the timeout is the clamped estimate |
| DgSendRecv.WholeReply | unixNetV1/rtt/dg_send_recv.c:81-92 | a reply is the request, cut only to the server's 4088 payload bytes and to the caller's room |
| DgSendRecv.GoodCall | unixNetV1/rtt/dg_send_recv.c:26-92 | from any idle state, when the network delivers, a call returns the echo after one transmission |
| Rcu.InitInv | mod/rcu/rcu.c:48-62 | the invariant holds when the first structure is published and nobody is active |
| Rcu.ReadLockInv | mod/rcu/rcu.c:69 | entering a read-side section keeps the invariant |
| Rcu.DereferenceInv | mod/rcu/rcu.c:71 | the structure a reader fetches is live and stays protected |
| Rcu.ReadInv | mod/rcu/rcu.c:72 | the field a reader loads is the `a` of the structure current when it fetched the pointer |
| Rcu.ReadUnlockInv | mod/rcu/rcu.c:73 | leaving a read-side section keeps the invariant, and can only shorten a grace period |
| Rcu.AllocateInv | mod/rcu/rcu.c:52 | a new structure is private to its updater |
| Rcu.LockInv | mod/rcu/rcu.c:53 | taking the spinlock keeps the invariant |
| Rcu.LookInv | mod/rcu/rcu.c:54 | the pointer read under the lock is the published one |
| Rcu.CopyInv | mod/rcu/rcu.c:55 | copying reads a live structure and writes a private one |
| Rcu.FillInv | mod/rcu/rcu.c:56 | setting the field touches a private structure only |
| Rcu.PublishInv | mod/rcu/rcu.c:57 | replacing the pointer makes the new structure current and leaves the old one readable by those that hold it |
| Rcu.UnlockInv | mod/rcu/rcu.c:59 | releasing the spinlock keeps the invariant |
| Rcu.RetireInv | mod/rcu/rcu.c:60 | a grace period started after unlinking waits for every reader that may hold the old structure |
| Rcu.KfreeInv | mod/rcu/rcu.c:61 | freeing what no reader and no updater references keeps the invariant |
| Rcu.FreeAfterSyncInv | mod/rcu/rcu.c:60-61 | when `synchronize_rcu` returns, nobody references the old structure |
| Rcu.ReclaimInv | mod/rcu/rcu.c:91-110 | when a callback is due, nobody references its structure |
| Rcu.NextInv | mod/rcu/rcu.c:48-131 | every step of every reader, updater and callback keeps the invariant |
| Rcu.RunSafe | mod/rcu/rcu.c:35-131 | in every state of every run: no access has touched freed memory, no reader holds a freed structure, each structure is retired and freed at most once and retired first, the current one is neither, every value returned is the `a` of a structure that was current between the reader's entry and exit, at its dereference, and each structure published is the one before it with only `a` replaced, as its update asked: other fields are carried over and no update is lost |
| Rcu.ReadsCurrent | mod/rcu/rcu.c:64-75 | an undisturbed reader can run to its end and returns the current value |
| Rcu.Prepares | mod/rcu/rcu.c:52-56 | an undisturbed updater can run up to a private copy with `a` replaced |
| Rcu.Publishes | mod/rcu/rcu.c:57-59 | the copy can be published and the spinlock released, and nothing else changes |
| Rcu.Frees | mod/rcu/rcu.c:60-61 | with no reader inside, the old structure can be freed, in the blocking and the callback variant |
| SigioEcho.PutSlotFree | unixNetV1/sigio/dgecho01.c:86-92 | unless the ring is full, the slot the handler fills is neither pending nor being sent |
| SigioEcho.MainInv | unixNetV1/sigio/dgecho01.c:57-73 | each statement of the main loop keeps the ring invariant |
| SigioEcho.ReadOneInv | unixNetV1/sigio/dgecho01.c:86-105 | a datagram read by the handler keeps the ring invariant, at any point of interruption |
| SigioEcho.ReadNoneInv | unixNetV1/sigio/dgecho01.c:93-107 | the handler's end keeps it too, and its histogram index is in range |
| SigioEcho.NextInv | unixNetV1/sigio/dgecho01.c:57-107 | every step, with the handler at any permitted point, keeps the invariant |
| SigioEcho.RunSafe | unixNetV1/sigio/dgecho01.c:57-107 | in every run: what was sent is a prefix of what was received, the difference is the queue's length but for one datagram already sent, `iput` is `iget` (or the slot before it, once `iget` has moved on) plus `nqueue` modulo QSIZE, and indices are in range |
| SigioEcho.PendingKept | unixNetV1/sigio/dgecho01.c:85-107 | no step changes the slot of a datagram that is pending or being sent |
| SigioEcho.SlotBeingSent | unixNetV1/sigio/dgecho01.c:64-68 | the slot being sent holds the oldest datagram, and the handler writes elsewhere |
| SigioEcho.SendsOldest | unixNetV1/sigio/dgecho01.c:57-73 | with a datagram queued, one turn of the main loop sends the oldest one and takes it off the count |
| SigioEcho.WaitsWhenEmpty | unixNetV1/sigio/dgecho01.c:58-59 | with none queued, the loop waits and tests again |
| SigioEcho.HandlerReads | unixNetV1/sigio/dgecho01.c:85-105 | wherever SIGIO is not blocked the handler can run, and while a slot is free it can read any datagram |
| ThreadPool.PutSlotFree | unixNetV1/server/serv08.c:40-42 | the slot the acceptor fills holds no untaken descriptor |
| ThreadPool.PutInv | unixNetV1/server/serv08.c:39-45 | putting a descriptor keeps the invariant |
| ThreadPool.MainInv | unixNetV1/server/serv08.c:35-47 | the acceptor's other steps keep the invariant |
| ThreadPool.TakeInv | unixNetV1/server/pthread08.c:21-27 | taking a descriptor keeps the invariant |
| ThreadPool.WorkerInv | unixNetV1/server/pthread08.c:20-32 | a worker's other steps keep the invariant |
| ThreadPool.NextInv | unixNetV1/server/serv08.c:35-47 | every step of every thread keeps the invariant |
| ThreadPool.Fifo | unixNetV1/server/pthread08.c:24-28 | in every run descriptors enter the ring in the order `accept` returned them and leave it in that order, each by one worker, and `thread_count` counts a worker's takes |
| ThreadPool.ServesItsTake | unixNetV1/server/pthread08.c:24-31 | in every run a busy worker holds the very descriptor that `accept` returned for its latest take |
| ThreadPool.TakesOldest | unixNetV1/server/pthread08.c:21-27 | a worker that gets the mutex with the ring not empty can take the oldest descriptor and go on |
| ThreadPool.PutsNext | unixNetV1/server/serv08.c:37-44 | the main thread can accept any connection and put it into the ring |
| ThreadPool.UntakenKept | unixNetV1/server/serv08.c:40-44 | no step changes the slot of an untaken descriptor |
| ThreadPool.NoLostWakeup | unixNetV1/server/pthread08.c:22-23 | with at least one worker and a non-empty ring, some worker is not asleep, except between a put and its signal |
| ThreadPool.MutualExclusion | unixNetV1/server/serv08.c:39-46 | at most one thread is inside the mutex |
| StrCli.Client.constructor | unixNetV1/nonblock/strclinonb.c:22-24 | both buffers are empty and nothing has been read |
| StrCli.Client.SelectNotEmpty | unixNetV1/nonblock/strclinonb.c:30-39 | in every valid state at least one descriptor is selected for |
| StrCli.Client.ReadStdin | unixNetV1/nonblock/strclinonb.c:42-62 | the stream read gains exactly the bytes returned, never from a zero-length read; at end of file a FIN is sent if nothing is pending |
| StrCli.Client.ReadSocket | unixNetV1/nonblock/strclinonb.c:64-86 | the stream read gains exactly the bytes returned; end of file returns after end of standard input and quits before it |
| StrCli.Client.WriteStdout | unixNetV1/nonblock/strclinonb.c:89-103 | the stream written gains a prefix of what was pending, as long as the write reports |
| StrCli.Client.WriteSocket | unixNetV1/nonblock/strclinonb.c:105-122 | the stream written gains a prefix of what was pending; the FIN follows the last byte after end of file |
| StrCli.Client.Input | unixNetV1/nonblock/strclinonb.c:28-86 | what is read, that what was just read is tried for writing at once, and exactly when it quits or returns |
| StrCli.Client.Output | unixNetV1/nonblock/strclinonb.c:89-122 | what is written, that reading is not affected, and that it quits if and only if a write that was made failed |
| StrCli.Client.Iterate | unixNetV1/nonblock/strclinonb.c:28-122 | one iteration takes and gives exactly what the ready descriptors and call results say, and loses nothing; it quits if and only if a call it made failed or the socket ended before standard input, and returns if and only if the socket ended after it |
| StrCli.Client.FinExactly | unixNetV1/nonblock/strclinonb.c:52-53 | a FIN has been sent if and only if standard input has ended and every byte of it is written |
| StrCli.Client.Run | unixNetV1/nonblock/strclinonb.c:27-123 | under every pattern of partial and would-block calls: bytes written are a prefix of bytes read in both directions, the FIN is sent at most once and exactly when due, nothing is read after end of file, no read has length zero, and the loop goes on through every round unless a call fails or the socket ends |
| Readline.Descriptor.Read | unixNetV1/lib/readline.c:14-18 | a read returns some non-empty prefix of the stream, or end of file only at its end, or fails without consuming |
| Readline.LineLen | unixNetV1/lib/readline.c:35-45 | the length of a line: up to and including the first newline, cut at the room |
| Readline.LineLenFrom | unixNetV1/lib/readline.c:35-45 | a line's length may be computed from any point before its newline |
| Readline.Reader.constructor | unixNetV1/lib/readline.c:4-6 | nothing is buffered at first |
| Readline.Reader.Refill | unixNetV1/lib/readline.c:12-21 | refilling, with any number of interrupted reads, neither loses nor repeats a byte |
| Readline.Reader.Take | unixNetV1/lib/readline.c:23-25 | taking a byte removes exactly the next one |
| Readline.Reader.MyRead | unixNetV1/lib/readline.c:8-26 | returns the next byte of buffer and stream, or end of file exactly when both are exhausted |
| Readline.Reader.FillLine | unixNetV1/lib/readline.c:34-45 | the bytes stored are a prefix of what was ahead, ending as the reason given says |
| Readline.Reader.Readline | unixNetV1/lib/readline.c:28-49 | stores exactly the next line and a terminator, leaves the rest unread, and returns its length, one more when the buffer fills first |
| Readline.Reader.ReadlineR | unixNetV1/server/readline_r.c:38-61 | the same line for the reentrant version, with its own count |
| Readline.ReadByte | unixNetV1/server/readline.c:12-22 | one byte from the stream, end of file only at its end, or an error (EINTR included) that consumes nothing |
| Readline.FillLineUnbuffered | unixNetV1/server/readline.c:10-23 | the byte-at-a-time loop stores a prefix of the stream |
| Readline.ReadlineUnbuffered | unixNetV1/server/readline.c:4-27 | stores exactly the next line and a terminator, and returns the count of the simple version |
| Readline.LinesConserve | unixNetV1/lib/readline.c:28-49 | the lines of a stream and what is left over make up the stream |
| Readline.LinesSnoc | unixNetV1/lib/readline.c:28-49 | one more call takes one more line from what is left over |
| Readline.BufferedLines | unixNetV1/lib/readline.c:28-49 | successive buffered calls store the lines of the stream, for every way of splitting it into reads, and leave the rest ahead |
| Readline.UnbufferedLines | unixNetV1/server/readline.c:4-27 | successive byte-at-a-time calls store the same lines and leave the same rest |
| Comments.CleanExactly | item/check_zh_cn/zh_str_check.c:219-234 | every byte of the cleaned text is a space if it lies in a line comment (its line end excepted) or in a closed block comment, and is the original byte otherwise |
| Comments.ErasesLow | item/check_zh_cn/zh_str_check.c:189-208 | nothing before the current comment, or before the current character outside one, is erased later |
| Comments.SlashIsSingle | item/check_zh_cn/zh_str_check.c:128-136 | reports whether an odd number of backslashes precedes, in the original text |
| Comments.SingleQuoteProc | item/check_zh_cn/zh_str_check.c:138-155 | moves as the lexer does and keeps at most one flag set |
| Comments.DoubleQuoteProc | item/check_zh_cn/zh_str_check.c:157-171 | moves as the lexer does and keeps at most one flag set |
| Comments.SlashProc | item/check_zh_cn/zh_str_check.c:173-187 | moves as the lexer does and keeps at most one flag set |
| Comments.StarProc | item/check_zh_cn/zh_str_check.c:189-197 | blanks a closed block comment, delimiters included, and nothing else |
| Comments.EndProc | item/check_zh_cn/zh_str_check.c:199-208 | blanks a line comment up to its line end, keeping a carriage return |
| Comments.Dispatch | item/check_zh_cn/zh_str_check.c:210-230 | every character is handled as the lexer handles it, and the scan advances within the text |
| Comments.EraseLastLine | item/check_zh_cn/zh_str_check.c:231-233 | a line comment that the text's end cuts off is blanked as well |
| Comments.RemoveCAnnotation | item/check_zh_cn/zh_str_check.c:219-234 | in place, the buffer becomes the cleaned original text and nothing past its size changes |
| Comments.OutsideKept | item/check_zh_cn/zh_str_check.c:138-187 | wherever the lexer of the whole text reads outside comments, literals included, and starts none, the byte is kept |
| Comments.ReachedErases | item/check_zh_cn/zh_str_check.c:219-230 | at any point the scan comes to, what is still open is decided by the rest of the scan alone |
| Comments.LineBlanked | item/check_zh_cn/zh_str_check.c:199-208 | of a line comment that the scan comes to, every byte becomes a space; the newline and a carriage return before it stay |
| Comments.BlockBlanked | item/check_zh_cn/zh_str_check.c:189-197 | every byte of a closed block comment that the scan comes to becomes a space, delimiters included |
| Comments.OpenBlockKept | item/check_zh_cn/zh_str_check.c:189-197 | a block comment that the text does not close is left as it is |
| CommentText.MovedErases | item/check_zh_cn/zh_str_check.c:128-230 | what a scan erases does not depend on the text before the comment or literal it is in |
| CommentText.PlainText | item/check_zh_cn/zh_str_check.c:219-230 | a text without quotes and slashes is kept |
| CommentText.LoneSlash | item/check_zh_cn/zh_str_check.c:173-187 | a slash not followed by a slash or a star is kept, and cleaning goes on after it |
| CommentText.LineComment | item/check_zh_cn/zh_str_check.c:178-180 | after plain text, `//` up to the newline becomes spaces (a carriage return before the newline stays), and cleaning goes on after the newline |
| CommentText.LastLine | item/check_zh_cn/zh_str_check.c:231-233 | `//` up to the end of the text becomes spaces |
| CommentText.BlockComment | item/check_zh_cn/zh_str_check.c:181-197 | `/*` up to the first `*/` after it becomes spaces, and cleaning goes on after it |
| CommentText.OpenBlock | item/check_zh_cn/zh_str_check.c:181-197 | `/*` that is never closed is kept with all that follows |
| CommentText.StringLiteral | item/check_zh_cn/zh_str_check.c:157-171 | a string literal of plain characters and backslash pairs is kept, and cleaning goes on after its closing quote |
| CommentText.OpenString | item/check_zh_cn/zh_str_check.c:157-171 | a string literal that is never closed is kept with all that follows |
| CommentText.CharConstant | item/check_zh_cn/zh_str_check.c:138-155 | a character constant is kept, an escaped quote included, and cleaning goes on after it |
| CommentText.OpenConstant | item/check_zh_cn/zh_str_check.c:138-155 | a character constant that is never closed is kept with all that follows |
| Comments.Quiet | item/check_zh_cn/zh_str_check.c:219-234 | a second scan, in step with the first, erases nothing |
| Comments.CleanIdempotent | item/check_zh_cn/zh_str_check.c:219-234 | running it twice equals running it once |
| DnsName.SpellsUnique | item/dns/dns_lookup.cpp:278-328 | the bytes at a position spell at most one list of labels |
| DnsName.CopyLabels | item/dns/dns_lookup.cpp:290-303 | the labels up to a pointer, the end or the first that does not fit are copied, each with its dot |
| DnsName.DecodeDotStr | item/dns/dns_lookup.cpp:278-328 | terminates; succeeds with the text of the labels spelled, ended in place of its last dot, and the number of bytes the name takes where it stands, modulo 2^16; or fails, and then every reading of the name is too long for the room (or a pointer was met without the packet); nothing outside the room is written |
| DnsName.PointerLoop | item/dns/dns_lookup.cpp:304-321 | backward pointers alone do not rule out an endless name |
| DnsName.WireLength | item/dns/dns_lookup.cpp:240-243 | the encoding is at most one byte longer than the text |
| DnsName.EncodeDotStr | item/dns/dns_lookup.cpp:236-269 | refuses exactly when the room is below the text's length plus two; otherwise writes the labels between dots, each after its length, and a zero |
| DnsName.WireSpells | item/dns/dns_lookup.cpp:236-269 | encoded labels spell themselves and take up as many bytes as were written |
| DnsName.WireWellFormed | item/dns/dns_lookup.cpp:236-269 | encoded labels are a well-formed name |
| DnsName.TokensJoin | item/dns/dns_lookup.cpp:252-266 | splitting joined labels at the dots returns the labels |
| DnsName.TokensExactly | item/dns/dns_lookup.cpp:252-266 | of any text, the labels encoded are nonempty, free of dots, and together the text without its dots |
| DnsName.EncodedSpells | item/dns/dns_lookup.cpp:236-328 | an encoded buffer spells the encoded labels from its start |
| DnsName.DecodeSpelled | item/dns/dns_lookup.cpp:278-328 | a name that spells given labels, and fits, decodes to their text |
| DnsName.RoundTrip | item/dns/dns_lookup.cpp:236-328 | for labels of 1 to 63 bytes and enough room, decoding the encoding returns the name and the encoded length |
| DnsName.CompressedSpells | item/dns/dns_lookup.cpp:304-321 | labels followed by a pointer spell those labels and then the ones at the offset |
| DnsName.CompressedInPlace | item/dns/dns_lookup.cpp:304-317 | such a name takes up its labels and two bytes |
| DnsName.CompressedName | item/dns/dns_lookup.cpp:304-321 | with encoded labels at an earlier offset below 2^14, the bytes of a compressed name spell both lists and are well formed |
| DnsName.DecodeCompressed | item/dns/dns_lookup.cpp:278-328 | decoding such bytes gives the joined name of both lists and the length in place |
| GaPort.GaClone | unixNetV1/libgai/ga_clone.c:9-30 | links in, right after the entry, a copy with its own address structure and the clone flag off |
| GaPort.StampEntry | unixNetV1/libgai/ga_port.c:47-62 | sets the type and, for an Internet family only, the port, and counts it |
| GaPort.CloneAt | unixNetV1/libgai/ga_clone.c:16-29 | cloning inserts one entry into the list walked, and changes no other |
| GaPort.StampAt | unixNetV1/libgai/ga_port.c:47-62 | stamping updates one entry of the list walked, and changes no other |
| GaPort.Visit | unixNetV1/libgai/ga_port.c:37-63 | one iteration replaces the entry visited by its image and steps past what it inserted |
| GaPort.Advance | unixNetV1/libgai/ga_port.c:37-63 | an iteration takes the walk from one original entry to the next, whatever was inserted between them |
| GaPort.GaPort | unixNetV1/libgai/ga_port.c:31-65 | a pass over the growing list terminates and maps each original entry to its image, with the count of ports set and no shared address structure |
| GaPort.PassBlock | unixNetV1/libgai/ga_port.c:37-63 | a further pass adds one clone right after the entry that may be cloned |
| GaPort.PassBlocks | unixNetV1/libgai/ga_port.c:37-63 | and does so for every host's block |
| GaPort.PassesAreBlocks | unixNetV1/libgai/ga_port.c:31-65 | for any hosts and distinct nonzero types t1..tk, the passes leave, per host in order, t1, tk, ..., t2 with the right ports |
| GaPort.StreamThenDgram | unixNetV1/libgai/ga_serv.c:24-47 | with no socket type given and both services known, the passes leave for every host, in order, a STREAM entry with the TCP port and then a DGRAM entry with the UDP port |
| GaPort.PassTyped | unixNetV1/libgai/ga_port.c:37-63 | on entries that may not be cloned, a pass sets the port of the Internet entries of its type and changes nothing else |
| GaPort.HintedPorts | unixNetV1/libgai/ga_serv.c:16-47 | with a socket type given, exactly its Internet entries get the service's port, and nothing changes when the service has none |
| GaPort.FoundHinted | unixNetV1/libgai/ga_serv.c:50-55 | ports are then found if and only if the service has one and some entry has the type |
| GaPort.OnePass | unixNetV1/libgai/ga_serv.c:20-46 | a pass within the sequence adds its service to those done and its count to the total |
| GaPort.MakePasses | unixNetV1/libgai/ga_serv.c:15-48 | the hint and the service decide which passes are made; the list and the count are those of these passes |
| GaPort.GaServ | unixNetV1/libgai/ga_serv.c:15-56 | the list is that of the passes called for, and for no socket type the documented STREAM and DGRAM pair per host; the result tells whether anything was found and why not |
| LevelTree.AddTree | dataStructure/tree/tree.cpp:11-34 | a complete tree in level order gains the node at its end |
| LevelTree.Grown | dataStructure/tree/tree.cpp:19-28 | hanging a node at the first free place keeps the tree complete |
| LevelTree.Print | dataStructure/tree/tree.cpp:62-82 | prints the values of a complete tree in level order, nothing for an empty one |
| LevelTree.BuildAndPrint | dataStructure/tree/tree.cpp:84-102 | for every input, what is printed is the input up to its first zero |
| LevelTree.UpToZeroExactly | dataStructure/tree/tree.cpp:90-101 | what is read is the longest prefix of the input without a zero |
| InCksum.ComputeCksum | unixNetV1/libfree/in_cksum.c:16-31 | the sum of the 16-bit words in memory, an odd byte padded in memory order, kept in 32 bits, folded twice and complemented |
| InCksum.WordsStored | unixNetV1/libfree/in_cksum.c:16-25 | the words summed, written back in memory order, are the memory with its padding |
| InCksum.Add32 | unixNetV1/libfree/in_cksum.c:17 | addition wraps at 32 bits and tracks the exact sum |
| InCksum.FoldSum | unixNetV1/libfree/in_cksum.c:27-31 | folding a 32-bit sum twice gives the value from 1 to 65535 congruent to it (0 for 0), complemented |
| InCksum.FoldIsCanon | unixNetV1/libfree/in_cksum.c:27-29 | two folds suffice for every 32-bit sum |
| InCksum.OnesSumIsCanon | unixNetV1/libfree/in_cksum.c:11-19 | adding with end-around carry at each word gives the same value as adding first and folding last |
| InCksum.NoOverflow | unixNetV1/libfree/in_cksum.c:16-25 | up to 65537 words the sum fits 32 bits |
| InCksum.OverflowShows | unixNetV1/libfree/in_cksum.c:17 | a sum that wraps always changes the folded value |
| InCksum.CorrectExactly | unixNetV1/libfree/in_cksum.c:16-31 | the result is the complement of the ones' complement sum if and only if the words add up to less than 2^32, for every length an `int` can hold |
| InCksum.OverflowFails | unixNetV1/libfree/in_cksum.c:16-31 | 65538 words of all ones have a wrong checksum |
| InCksum.SafeLengths | unixNetV1/libfree/in_cksum.c:16-31 | the checksum of every buffer of n words is right if and only if n is at most 65537 |
| InCksum.ComplementFits | unixNetV1/libfree/in_cksum.c:27-31 | adding the checksum to the 32-bit sum it came from never overflows |
| InCksum.StoredChecksumVerifies | unixNetV1/libfree/in_cksum.c:16-31 | storing the result in the zeroed checksum word makes recomputation return 0, for every length and every sum |
| InCksum.SwapScales | unixNetV1/libfree/in_cksum.c:16-19 | swapping the bytes of every word multiplies the sum by 256 modulo 65535 |
| InCksum.ByteOrderExactly | unixNetV1/libfree/in_cksum.c:16-31 | byte-swapping every word byte-swaps the result if and only if the carries lost out of 32 bits scale by 256 modulo 65535 as well, and the kept sums are zero together |
| InCksum.ByteOrderIndependent | unixNetV1/libfree/in_cksum.c:16-31 | so it does whenever neither sum overflows |
| InCksum.ByteOrderFails | unixNetV1/libfree/in_cksum.c:16-31 | and it does not for 65538 words of all ones |
| InCksum.SameBytesInMemory | unixNetV1/libfree/in_cksum.c:16-31 | if neither sum overflows, machines of either byte order store the same two checksum bytes for the same memory |
| InCksum.ShortSameBytes | unixNetV1/libfree/in_cksum.c:16-31 | in particular for any memory of up to 131074 bytes |
| WebFetch.SetsStart | unixNetV1/nonblock/start_connect.c:20-27 | the descriptor sets stay exact when a connect starts |
| WebFetch.SetsReading | unixNetV1/nonblock/write_get_cmd.c:13-17 | and when a file begins to be read |
| WebFetch.SetsDone | unixNetV1/nonblock/web.c:70-74 | and when a file is done |
| WebFetch.LeftIsSum | unixNetV1/nonblock/web.c:28-29 | files not done are those unstarted and those active |
| WebFetch.Web.constructor | unixNetV1/nonblock/web.c:25-29 | all files are unstarted and the counters agree |
| WebFetch.Web.FindUnstarted | unixNetV1/nonblock/web.c:35-39 | the first unstarted file is found, so the error exit is unreachable |
| WebFetch.Web.WriteGetCmd | unixNetV1/nonblock/write_get_cmd.c:13-17 | the file is being read and selected for reading |
| WebFetch.Web.StartConnect | unixNetV1/nonblock/start_connect.c:20-30 | one file becomes connecting, or reading at once, with counters and sets exact |
| WebFetch.Web.StartConnections | unixNetV1/nonblock/web.c:33-43 | files are started in order until the limit is reached or none is left |
| WebFetch.Web.SelectNotEmpty | unixNetV1/nonblock/web.c:45-47 | while files are left, the read set is not empty and every descriptor is below the limit passed |
| WebFetch.Web.Visit | unixNetV1/nonblock/web.c:49-79 | a file moves from connecting to reading to done as its descriptor allows, and no other file moves |
| WebFetch.Web.Turn | unixNetV1/nonblock/web.c:32-80 | one turn starts what it may; then a connecting file is reading exactly if its descriptor is readable or writable, and a reading file is done exactly if its descriptor is readable and at end of file |
| WebFetch.Web.Run | unixNetV1/nonblock/web.c:32-80 | for every order of events the counters equal the counts, connections never exceed the limit, a file is done only after a round in which its connection was at end of file, and the loop ends exactly when all files are done |

## Left out

- `CIRCLEQ_*`, `STAILQ_*`, `SIMPLEQ_*`, `LIST_*`: the same kind of links as `TAILQ_*`, with easier members.
- Family dispatch and `errno` of `inet_ntop` and `inet_pton`: two-way switches.
- `ga_aistruct`, and the failure paths of `ga_port` and `ga_clone`: allocation succeeds in the model.
- `ai_canonname` and `ai_addrlen` of an address entry: copied or cleared, never read here.
- `remove_lua_annotation`, `remove_python_annotation`, `check_zh_cn`: the Python flags are not mutually exclusive; the Lua remover would repeat the C one.
- Comments.RemoveCAnnotation: the byte after the buffer, which the lookahead reads, must exist and be neither `/` nor `*`.
- DnsName.DecodeDotStr: a name without labels at the top level, which would write before the buffer, and offsets outside the packet are excluded; a null packet start is the flag `pointers`.
- DnsName.EncodeDotStr: texts of 65536 bytes or more are excluded: their length does not fit the unsigned short that sizes the working copy, so the program has no defined behaviour on them.
- DnsName.RoundTrip: states the round trip for names with at least one label, none longer than 63 bytes, as the wire format requires.
- StrCli.Client.Run: does not claim that all socket bytes reach standard output, because the program returns at end of file with bytes possibly still buffered.
- ThreadPool.NoLostWakeup: excludes the moment between a put and its signal, when the mutex is held.
- TailQueue.Head.Remove: the links of the removed element after other operations on the queue are not tracked; only an immediate repetition is.
- Readline.UnbufferedLines: for a stream without EINTR, because the byte-at-a-time version treats it as an error.
- Rounding of floats in `rtt.c`, the clock behind `rtt_ts`, and debug output.
- The window between `alarm` and `sigsetjmp` in `dg_send_recv`: a timeout is a step that happens while waiting.
- `readlinebuf`, and the wrappers that print an error and exit.
- Recursive traversals of the tree, which print in other orders.
- Memory ordering below sequential consistency in `rcu.c`; its first structure is static there and heap-allocated here, and a freed address is not given out again.
- Termination of servers, fairness and other liveness properties: the theorems are about every state of every finite run.
- A failed nonblocking connect in `web.c`: the program prints a message and goes on as if connected, and so does the model.
- Signal handlers that only print statistics, `home_page`, argument parsing, the other clients and servers, kernel modules, and foreign-library code.
