# The guest side of WSL's Linux init, modelled and proved

This project models the stateful core of the init process that WSL runs inside its Linux guest, and
proves what that code is for. `dafny verify dfyconfig.toml` checks all of it.

| file | what it models | main results |
|---|---|---|
| `TrackerThreads.dfy` | the three threads of the port tracker and the three single-slot cells between them | exactly one reply per notification and the right one, no deadlock, the lister is never forgotten, every release is justified, over every interleaving |
| `PortTracker.dfy` | the map of ports reserved on the host, with a history of what was asked of the host | the map is a function of the history; the loop that erases from the map it walks is a pointwise filter; when reservations and releases alternate |
| `Ports.dfy` | the map's keys and the sets a socket dump is turned into | `operator<` is a strict total order; the iteration order is unique |
| `WaitableValue.dfy` | the blocking cell, at the level of its mutex and condition variable | it refines a one-place FIFO, and no wakeup is lost |
| `SeccompFilter.dfy` | the classic BPF program, its interpreter, the dispatcher and the choice of parser | the filter notifies exactly on the intended calls, for every word of its input |
| `DnsUdp.dfy` | the request table and the expiration queue of the DNS server | the two index each other in every run; a response reaches the one live request with its id; a request waits exactly until it is settled |
| `DnsTcp.dfy` | the incremental deframer of one TCP connection | any chunking of a stream yields the frames of the stream |
| `CollapsePath.dfy` | the in-place path collapser | it refines a scan over segments, and equals a stack normaliser exactly where nothing is swallowed |
| `Escape.dfy` | the NT path escape, its length and the in-place unescape | the round trip, with its exact condition; the escaped path is legal |
| `StdinRelay.dfy` | the stdin half of the two relay loops | nothing is lost, duplicated or reordered |
| `ListeningSockets.dfy` | the listening-socket monitor | relays, sockets and host agree after each scan |
| `DrvFs.dfy` | the bitmap loop that mounts drives and the refresh of their owner | every set bit once in ascending order; a walk over the table being erased from; the table afterwards, volume by volume |
| `ListEntry.dfy` | the intrusive doubly linked list | a heap proof that the ring follows the abstract list |

Loops and objects are methods and classes here; each is tied to a function on values, and the
properties are proved of that function and of whole runs. Concurrency is a transition system: a run is
any sequence of enabled steps, and a theorem about runs speaks of every state of every run. What the
kernel, the host and the clock answer is a parameter and therefore arbitrary. Integers are unbounded;
the 32-bit request id, the 32-bit words of the filter, the 16-bit frame length and the bytes are bounded
explicitly. In a class, ghost fields hold histories and where the calling thread stands.

Five promises do not hold of the code as it stands. In each case the model keeps the code, one
member gives an input, and another states the exact condition:

* `..` consumes a `.` or an empty segment to its left as if it were the parent
  (`CollapsePath.SwallowExample`, `CollapsePath.CollapseMeetsStack`).
* A path that already holds a decodable triple is changed by escaping and unescaping
  (`Escape.RoundTripExample`, `Escape.RoundTrip`).
* A refused release still drops the entry, and a failed insertion is swallowed, so that the host can
  be asked for a port it already holds and a call can be allowed for a port that is not tracked
  (`PortTracker.RefusedReleaseBreaksAlternation`, `PortTracker.AlternationIffNoRegrant`,
  `PortTracker.SwallowedInsertAllowsUntracked`, `TrackerThreads.AllowedMeansTracked`). A release that
  throws likewise lets mirrored mode give up a port the other modes do not get to
  (`PortTracker.MirroredGivesUpMore`, `PortTracker.MirroredGivesUpLess`).
* The filter compares the low half of the first argument of a 32-bit `socketcall`, the parser all 64
  bits (`SeccompFilter.UpperHalfMissesParser`, `SeccompFilter.CallsReachTheirParser`).
* The owner refresh reports success without refreshing when automount is off or the namespace is
  unknown (`DrvFs.EarlyExitExample`, `DrvFs.AutomountTable.RefreshOwner`).

A frame of length zero also stops a TCP connection (`DnsTcp.AllFramesIffNoneEmpty`), and a failed write
directly after a read is the one way the relay drops bytes (`StdinRelay.LossOnlyOnWriteError`).

## Model

| member | source | states |
|---|---|---|
| TrackerThreads.ExactlyOneReply | src/linux/init/GnsPortTracker.cpp:72-186 | in every interleaving the notifications received are those answered, in order, plus at most the one in progress; each answer is the result the main loop computed for that very notification |
| TrackerThreads.MainNeverBlocksOnAPost | src/linux/init/GnsPortTracker.cpp:90-186 | in every run the reply slot is empty whenever the main loop posts a reply and the resume slot whenever it posts a token, so it waits only at the head on an empty event queue |
| TrackerThreads.NoDeadlock | src/linux/init/GnsPortTracker.cpp:41-186 | in every reachable state some thread can move, unless all are at rest with no port tracked; there a new notification is accepted |
| TrackerThreads.CallsAreServed | src/linux/init/GnsPortTracker.cpp:72-186 | while a notification is unanswered the dispatcher or the main loop can move: no call waits for the lister |
| TrackerThreads.HandleSettlesTheCall | src/linux/init/GnsPortTracker.cpp:108-145 | in every run the result settled on is 0 for a call that names no port and for a tracked port, the host's answer for any other port, and EIO exactly when asking the host throws; being allowed starts the port's sixty seconds, over again for a tracked port |
| TrackerThreads.LaterIsResolved | src/linux/init/GnsPortTracker.cpp:147-176 | in every run a port-zero bind, and only such a call, is looked up after its reply; the port found is requested like any other, and finding none changes nothing |
| TrackerThreads.ReconcileFollowsHistory | src/linux/init/GnsPortTracker.cpp:178-184 | in every run processing a listing takes a port off the map exactly when it is not listed, was seen since it was last tracked or was tracked more than 60 seconds before the listing, and no port up to it makes the walk throw; a listed port that is reached loses its deadline |
| TrackerThreads.OthersLeaveTheTracker | src/linux/init/GnsPortTracker.cpp:72-186 | no other step of any thread touches the map or the host |
| TrackerThreads.ListingIsTheLatest | src/linux/init/GnsPortTracker.cpp:50-59 | in every run the listing on offer, in the queue or being processed is the last one collected |
| TrackerThreads.ListerIsNotForgotten | src/linux/init/GnsPortTracker.cpp:41-104 | at every head of the main loop, after exceptions too, an unacknowledged listing means no port is tracked; a parked lister with a tracked port has its listing or its token in flight, and only one of the two |
| TrackerThreads.ListerRestsWithoutPorts | src/linux/init/GnsPortTracker.cpp:90-104 | a token is posted only at the end of a pass that leaves some port tracked, to a parked lister, and acknowledges its listing |
| TrackerThreads.AllowedMeansTracked | src/linux/init/GnsPortTracker.cpp:108-145 | whenever 0 is posted for a concrete port, that port is tracked unless entering it into the map has just thrown, and then it is not; a throw before a result posts EIO |
| TrackerThreads.HistoryIsLegal | src/linux/init/GnsPortTracker.cpp:106-304 | in every run each release is of a port absent from the listing being processed that was seen since it was last tracked or was tracked more than 60 seconds before that listing; a port is tracked exactly when the history claims it; every tracked port is held by the host; alternation has its exact condition |
| TrackerThreads.ExecutionInvariant | src/linux/init/GnsPortTracker.cpp:41-186 | the invariant over the three cells, the three threads, the map and the history holds in every reachable state |
| PortTracker.GnsPortTracker.Request | src/linux/init/GnsPortTracker.cpp:323-341 | a port already in the map is allowed without asking the host; otherwise the host's answer is returned and a grant enters the history; the map is untouched |
| PortTracker.GnsPortTracker.Track | src/linux/init/GnsPortTracker.cpp:642-652 | the port's deadline is 60 seconds from now, for a port already in the map too; only a failing insertion leaves the map as it was, and it is not reported |
| PortTracker.GnsPortTracker.RequestPort | src/linux/init/GnsPortTracker.cpp:124-139 | result and map by the inputs alone: 0 for a port in the map and the host's answer otherwise; the deadline is set to 60 seconds from now when allowed and enterable, and nothing else changes; keeps the invariant between map and history |
| PortTracker.RequestOutcome | src/linux/init/GnsPortTracker.cpp:124-139 | the same on values, with the history: the host grants the port exactly when it was asked and answered 0, the port then counts as tracked now and unseen, and it leaks exactly when its insertion throws |
| PortTracker.GnsPortTracker.ReconcileOne | src/linux/init/GnsPortTracker.cpp:259-302 | one turn of the loop: a listed port loses its deadline, an expired one is released and dropped, a throw leaves map and history alone |
| PortTracker.GnsPortTracker.ReconcileAllocatedPorts | src/linux/init/GnsPortTracker.cpp:247-304 | the iterator is a key of the map being erased from and goes to the next key of that map as it is; nevertheless it visits exactly the keys of the map at the start, each once and in order, up to a throw, and computes the fold that the lemmas below describe; keeps the invariant |
| PortTracker.RequestAndTrackKeepsInv | src/linux/init/GnsPortTracker.cpp:124-139 | map and history stay in step: a port is in the map exactly when claimed, with its deadline 60 seconds after it was last tracked or none once seen |
| PortTracker.ReconcileKeepsInv | src/linux/init/GnsPortTracker.cpp:247-304 | the same for a whole reconcile pass, complete or cut short by a throw; every release in it is justified |
| PortTracker.ReconcileIsPointwise | src/linux/init/GnsPortTracker.cpp:257-303 | a port goes exactly when it is absent from the listing, its deadline allows it and no release throws up to it; a listed port that is reached loses its deadline; all else is untouched |
| PortTracker.GoesExactlyWhenDue | src/linux/init/GnsPortTracker.cpp:257-303 | by the history alone: a port goes exactly when it is unlisted, was seen since it was last tracked or was tracked more than 60 seconds before the listing, and the walk reaches it; the host lets go of it exactly when it then answers 0 |
| PortTracker.TrackedIsHeld | src/linux/init/GnsPortTracker.cpp:247-341 | every tracked port is held by the host |
| PortTracker.AlternationIffNoRegrant | src/linux/init/GnsPortTracker.cpp:247-341 | successful reservations and releases of a port strictly alternate, starting with a reservation, if and only if the host never regrants it after the tracker lost its hold |
| PortTracker.RefusedReleaseBreaksAlternation | src/linux/init/GnsPortTracker.cpp:277-295 | for every port: granted, released with a refusal, granted again, with no release between |
| PortTracker.SwallowedInsertAllowsUntracked | src/linux/init/GnsPortTracker.cpp:642-652 | for every port: a grant whose insertion throws is answered 0 and leaves the host holding an untracked port |
| PortTracker.MirroredGivesUpLess | src/linux/init/GnsPortTracker.cpp:257-303 | mirrored mode gives up a subset of what the other modes give up if and only if no such port lies behind one whose release throws in the other modes only; without throws always |
| PortTracker.MirroredGivesUpMore | src/linux/init/GnsPortTracker.cpp:257-303 | two tracked ports and one listing where a throw makes the subset fail |
| Ports.LessIsStrictTotalOrder | src/linux/init/GnsPortTracker.h:57-97 | irreflexive, asymmetric, transitive, and incomparable exactly when equal field by field |
| Ports.EnumerationIsUnique | src/linux/init/GnsPortTracker.h:57-97 | a set of keys has one iteration order |
| Ports.Next | src/linux/init/GnsPortTracker.cpp:257-303 | the first key behind an iterator in a map, or the end |
| Ports.NextOfRest | src/linux/init/GnsPortTracker.cpp:257-303 | whatever was erased up to the iterator, the next key of what is left is the next key of the map at the start: erasing neither skips nor repeats an entry |
| Ports.ListBoundPorts | src/linux/init/GnsPortTracker.cpp:188-244 | the full set holds exactly, for each socket dumped, the entry with its port, family and protocol and its sixteen IPv6 bytes or its four IPv4 bytes and zeros; the pairs are exactly its projection |
| WaitableValue.CellIsFifo | src/linux/init/waitablevalue.h:25-75 | in every run the values taken followed by the slot are the values posted, in order; each step is a put into an empty slot, a take from a full one, or no change, so a timed-out try_get takes nothing |
| WaitableValue.ReturnsWhatItTook | src/linux/init/waitablevalue.h:40-75 | in every run a value that a get or try_get is about to return was in the slot when that very call found it full, and is the last value anyone took |
| WaitableValue.EmptyHandedOnlyOnTimeout | src/linux/init/waitablevalue.h:60-75 | in every run only a try_get whose wait had run out when it got the mutex back is about to return without a value, and it changed nothing |
| WaitableValue.TimeoutReturnsNothing | src/linux/init/waitablevalue.h:65-70 | such a try_get returns nothing also when a value has come in the meantime; any other waiter tests the slot again |
| WaitableValue.StepRefinesCell | src/linux/init/waitablevalue.h:25-75 | every step of the mutex-level machine is a step of the one-place cell |
| WaitableValue.NoLostWakeup | src/linux/init/waitablevalue.h:25-75 | whenever the mutex is free, a sleeping getter means an empty slot and a sleeping poster a full one; they never sleep together |
| WaitableValue.AwakeMeansProgress | src/linux/init/waitablevalue.h:25-75 | as long as one thread inside a call is awake, that thread or the holder of the mutex can step |
| WaitableValue.ExecutionInv | src/linux/init/waitablevalue.h:25-75 | mutual exclusion, the sleep condition, the results and conservation hold in every reachable state |
| SeccompFilter.Halts | src/linux/init/main.cpp:3480-3541 | any program with forward in-range jumps halts within its length, and more steps change nothing |
| SeccompFilter.FilterIsExact | src/linux/init/main.cpp:3480-3541 | for every architecture word, number and arguments the filter notifies exactly on native bind, listen and ioctl SIOCSIFFLAGS, on 32-bit Arm bind and listen, and on 32-bit x86 bind and listen made through socketcall |
| SeccompFilter.NotifiedCallsAreHandled | src/linux/init/localhost.cpp:506-545 | every notified call has a handler, the port tracker for bind and listen and the interface handler for the ioctl |
| SeccompFilter.RegisterAll | src/linux/init/localhost.cpp:506-545 | the registrations build that handler table |
| SeccompFilter.CallsReachTheirParser | src/linux/init/GnsPortTracker.cpp:518-570 | a bind or listen reaches the parser meant for it, the indirect one for a 32-bit x86 call and the direct one for any other, if and only if for a 32-bit x86 call the upper half of the first argument is clear; else it is let through |
| SeccompFilter.UpperHalfMissesParser | src/linux/init/GnsPortTracker.cpp:546-549 | a notified bind that is let through unparsed |
| SeccompFilter.SecCompDispatcher.Run | src/linux/init/SecCompDispatcher.cpp:74-153 | one response per notification received before shutdown or a receive error other than ENOENT, which is thrown out of the loop; in order and under its id, with the negated result, and the continue flag exactly for result zero; a missing handler or a throwing one lets the call continue |
| DnsUdp.TablesStayConsistent | src/linux/init/DnsServer.cpp:109-447 | in every run each entry points at its own queue node and each node at its entry, the queue is in deadline order, and each request is answered or forgotten at most once |
| DnsUdp.ResponseGoesToItsRequest | src/linux/init/DnsServer.cpp:109-141 | in every run a response is sent exactly when a live request has its id; that request is unique, the response goes to its address, and the id is free afterwards |
| DnsUdp.ResponseGoesToTheSender | src/linux/init/DnsServer.cpp:109-421 | in every run the response to a request that still waits is sent to the address its datagram came from |
| DnsUdp.RequestIsKept | src/linux/init/DnsServer.cpp:109-447 | in every run a request keeps the id and the sender's address it came with until it is gone |
| DnsUdp.CollisionRejectsTheNewcomer | src/linux/init/DnsServer.cpp:396-446 | a new request whose wrapped id is live changes no entry, node or history; a failed tunnel forgets the request it carried and no other |
| DnsUdp.WaitsUntilSettled | src/linux/init/DnsServer.cpp:109-447 | in every run an accepted request is in the queue at a later state if and only if no step between was its response, the failure of its tunnel, or an expiry pass at least 60 seconds after it came |
| DnsUdp.IdsCountDatagrams | src/linux/init/DnsServer.cpp:401-402 | in every run the next id is the number of datagrams so far, rejected ones included, modulo 2^32 |
| DnsUdp.AnsweredAtMostOnce | src/linux/init/DnsServer.cpp:109-141 | over a legal history a request is answered at most once and never once forgotten |
| DnsUdp.ExpireIsExact | src/linux/init/DnsServer.cpp:306-315 | the pass removes exactly the requests whose deadline has come, from queue and table |
| DnsUdp.WaitEndsAtDeadline | src/linux/init/DnsServer.cpp:306-323 | -1 with nothing pending, else 1 to 60000 ms: the wait does not end before the next deadline, and one millisecond less would |
| DnsUdp.StepKeepsInv | src/linux/init/DnsServer.cpp:109-447 | requests, tunnel results, responses and expiry in any order keep the invariant |
| DnsUdp.ExecutionInv | src/linux/init/DnsServer.cpp:109-447 | the invariant holds in every reachable state |
| DnsUdp.DnsServer.TrackRequest | src/linux/init/DnsServer.cpp:375-421 | an id is returned for tunneling exactly for a non-empty datagram whose id is free; it is the counter's old value, its entry holds the sender's address, and all other entries stay; a colliding id takes back its queue node; the counter wraps at 2^32 |
| DnsUdp.DnsServer.FinishTunnel | src/linux/init/DnsServer.cpp:423-446 | a tunnel failure removes the request if a response has not done so already |
| DnsUdp.DnsServer.HandleUdpDnsResponse | src/linux/init/DnsServer.cpp:109-141 | the address of the tracked request, which is then gone from both structures; nothing for an unknown id |
| DnsUdp.DnsServer.ExpireUdpRequestsAndGetTimeout | src/linux/init/DnsServer.cpp:306-323 | the expiry loop computes the pass and the wait that the lemmas describe |
| DnsTcp.SplitConserves | src/linux/init/DnsServer.cpp:208-265 | the frames of a stream followed by its rest are the stream |
| DnsTcp.SplitAppend | src/linux/init/DnsServer.cpp:208-265 | splitting as bytes arrive equals splitting at the end |
| DnsTcp.AllFramesIffNoneEmpty | src/linux/init/DnsServer.cpp:208-265 | a stream of length-prefixed messages yields exactly its frames, in order and with nothing left, if and only if no message is empty |
| DnsTcp.EmptyFrameStops | src/linux/init/DnsServer.cpp:222-234 | after a prefix that announces nothing no further byte completes a frame |
| DnsTcp.TcpConnectionContext.constructor | src/linux/init/DnsServer.h:58-63 | a two-byte buffer, nothing received |
| DnsTcp.TcpConnectionContext.HandleNewTcpData | src/linux/init/DnsServer.cpp:208-278 | after every call the frames tunneled followed by the bytes in the buffer are the bytes received, the buffer has size 2 below offset 2 and 2 plus the announced length afterwards; an error or an empty read closes the connection and tunnels nothing |
| DnsTcp.Deliver | src/linux/init/DnsServer.cpp:208-278 | however recv cuts a stream, the requests tunneled are the frames of the stream; the connection is closed if and only if the stream goes on behind a frame of length zero |
| CollapsePath.CollapseInPlace | src/linux/init/wslpath.cpp:159-228 | the buffer holds the collapsed path on 0, the result is -EINVAL exactly when somewhere from the left the `..` outnumber all other segments, and bytes behind the terminator are untouched |
| CollapsePath.ReadSegment | src/linux/init/wslpath.cpp:199-224 | one segment: the buffer, both positions and the counter follow the scan over segments |
| CollapsePath.FailsExactlyWhenOverdrawn | src/linux/init/wslpath.cpp:201-227 | the counter left over by the scan is positive, and the code fails, exactly when some prefix has more `..` than other segments |
| CollapsePath.StackFailsExactlyWhenShort | src/linux/init/wslpath.cpp:159-228 | the stack normaliser fails exactly when some prefix has more `..` than names |
| CollapsePath.CollapseMeetsStack | src/linux/init/wslpath.cpp:159-228 | the right-to-left scan equals the left-to-right stack normaliser if and only if the `..` somewhere from the left outnumber all other segments (then both fail), or no `.` or empty segment is followed by more `..` than other segments |
| CollapsePath.CollapseStringMeetsStack | src/linux/init/wslpath.cpp:159-228 | the same for the text of whole paths |
| CollapsePath.CollapseWithoutInteriorSkips | src/linux/init/wslpath.cpp:159-228 | without interior `.` or empty segments the two are equal, and failure means that some `..` has no parent |
| CollapsePath.SwallowExample | src/linux/init/wslpath.cpp:211-222 | `/a/./..` becomes `/a/` where the stack gives `/` |
| CollapsePath.CollapseIsIdempotent | src/linux/init/wslpath.cpp:159-228 | on success no segment after the first separator is `.`, `..` or empty except a trailing one, the text before the first separator is kept, and a second run changes nothing |
| CollapsePath.SegmentsOfJoin | src/linux/init/wslpath.cpp:159-228 | splitting a joined list of segments gives it back |
| CollapsePath.JoinOfSegments | src/linux/init/wslpath.cpp:159-228 | joining the segments of a path gives it back |
| Escape.EscapePathForNt | src/linux/init/escape.cpp:196-253 | the output starts with the escaped path, has no terminator, and is untouched behind it |
| Escape.EscapePathForNtLength | src/linux/init/escape.cpp:255-296 | exactly the number of bytes the escape writes |
| Escape.UnescapePathInplace | src/linux/init/escape.cpp:298-340 | the buffer holds the unescaped text and a terminator; for every byte string, malformed UTF-8 included, nothing past the original terminator is read or written |
| Escape.UnescapeByte | src/linux/init/escape.cpp:321-339 | one turn of the loop follows the recursive definition |
| Escape.EscapeIsPrivateUse | src/linux/init/escape.cpp:27-251 | a character other than the slash is escaped exactly when NTFS forbids it, and its three bytes are the UTF-8 form of U+F000 plus its code |
| Escape.WritesEachCharacter | src/linux/init/escape.cpp:225-252 | for every path, where each character ends up and what is written there: a backslash for a slash, that form of a forbidden character, any other character itself |
| Escape.DecodesExactly | src/linux/init/escape.cpp:321-334 | what is taken for an escape: 0xef, two bytes with their top bit set, whose low two and six bits make up a forbidden character other than the slash |
| Escape.TripleDecodes | src/linux/init/escape.cpp:237-334 | the three bytes written for a character are recognised and unpack to it |
| Escape.EscapedIsLegal | src/linux/init/escape.cpp:196-253 | the escaped path holds none of the characters NTFS forbids, except backslashes as separators |
| Escape.UnescapeOfEscape | src/linux/init/escape.cpp:196-340 | for every byte string, escaping, turning backslashes into slashes and unescaping gives what unescaping alone gives |
| Escape.RoundTrip | src/linux/init/escape.cpp:165-340 | that is the original string if and only if it holds no triple that decodes to an escapable character |
| Escape.RoundTripExample | src/linux/init/escape.cpp:298-340 | U+F03A comes back as a colon |
| Escape.UnescapeIsIdentity | src/linux/init/escape.cpp:298-340 | unescaping never grows a string and is the identity exactly without such a triple |
| StdinRelay.NothingIsLost | src/linux/init/init.cpp:1844-1939 | at every head of the loop the bytes written followed by the pending ones are the bytes received; the descriptor is closed only with every received byte written |
| StdinRelay.LossOnlyOnWriteError | src/linux/init/init.cpp:1844-1939 | in the last turn too, conservation fails if and only if the write directly after the read fails; what is written stays a prefix of what was received |
| StdinRelay.TurnFollowsTheCalls | src/linux/init/init.cpp:1844-1939 | a turn by what poll, read and the two writes return: which bytes are received and written, how many stay pending, that the descriptor is closed exactly on an empty read, and when the loop ends |
| StdinRelay.LossExample | src/linux/init/init.cpp:1913-1932 | one byte read and never written |
| StdinRelay.TurnKeepsInv | src/linux/init/WSLCInit.cpp:603-674 | every turn keeps conservation and the rule about closing |
| StdinRelay.ProcessRelay.TakeTurn | src/linux/init/init.cpp:1844-1939 | one turn: partial, complete, blocked and failed writes of pending and of new bytes |
| StdinRelay.ProcessRelay.Run | src/linux/init/WSLCInit.cpp:603-674 | the loop goes through an execution and stops exactly at the turn that breaks it |
| ListeningSockets.SameMeansSameKey | src/linux/init/localhost.cpp:170-192 | two socket addresses compare equal exactly when family, port and address agree |
| ListeningSockets.LegalAlternates | src/linux/init/localhost.cpp:195-248 | per address Start and Stop strictly alternate, beginning with Start, and an odd count means the host listens |
| ListeningSockets.Find | src/linux/init/localhost.cpp:208-209 | true exactly when the list has a socket on the same address |
| ListeningSockets.Monitor.StopStale | src/linux/init/localhost.cpp:206-220 | the relays left are those with a socket; the host still runs exactly those and the ones whose stop failed; success exactly without such a failure |
| ListeningSockets.Monitor.StartNew | src/linux/init/localhost.cpp:223-238 | duplicated sockets get one listener; success exactly when the start for the first socket on each new address got through, and then the relays are the sockets |
| ListeningSockets.Monitor.Scan | src/linux/init/localhost.cpp:203-244 | zero exactly when no message fails; then relays without duplicates, sockets and host listeners are the same set; each address gets at most one message, and none if it neither came nor went; the messages are legal in any case |
| ListeningSockets.Monitor.Watch | src/linux/init/localhost.cpp:195-251 | over any number of scans, ending at the first failure, the host has run through exactly the socket sets of the successful scans in order |
| DrvFs.VisitsAscend | src/linux/init/config.cpp:2123-2162 | only set bits are visited, in strictly ascending order |
| DrvFs.VisitsEveryBit | src/linux/init/config.cpp:2123-2162 | a bit is visited exactly when it is set and no lower set bit throws |
| DrvFs.CountsTurns | src/linux/init/config.cpp:2123-2162 | the number of turns is at most the bit count, and equals it without a throw |
| DrvFs.MountIsPointwise | src/linux/init/config.cpp:2123-2162 | a volume is recorded under the owner exactly when its bit is set, it mounts, nothing at or below it throws and the namespace is known; other entries are untouched |
| DrvFs.ClearingDropsCount | src/linux/init/config.cpp:2130-2131 | clearing a set bit drops the bit count by one: the loop's measure |
| DrvFs.AutomountTable.MountVolumes | src/linux/init/config.cpp:2123-2162 | the find-first-set loop computes the table and the visits that the lemmas describe |
| DrvFs.Next | src/linux/init/config.cpp:2354-2379 | the first entry behind the iterator in the table as it is now, or the end |
| DrvFs.SweepGoesOn | src/linux/init/config.cpp:2354-2379 | that entry is the next one of the table at the start: erasing neither skips nor repeats a volume |
| DrvFs.AutomountTable.SweepOne | src/linux/init/config.cpp:2356-2379 | one turn: what goes, what is to be remounted, and what counts as a failure |
| DrvFs.AutomountTable.Sweep | src/linux/init/config.cpp:2352-2381 | walking the hash table it erases from, in any order: entries no longer mounted go, stale ones go if they unmount and their bits are set, others stay; success exactly when every stale one unmounts; an exception leaves exactly the entries from there on as they were |
| DrvFs.AutomountTable.RefreshOwner | src/linux/init/config.cpp:2299-2394 | past the early exit and without an exception, zero exactly when every stale volume unmounts and mounts again, and each volume's fate is given on failure too; on a zero result the table is the volumes tracked before and still mounted, all under the new owner, if and only if the routine went past its early exit or every tracked volume was mounted under that owner already; an exception gives -1 and a table swept up to it |
| DrvFs.EarlyExitExample | src/linux/init/config.cpp:2323-2328 | the routine called with automount off returns zero with the old owner in place |
| ListEntries.InitializeListHead | src/linux/inc/lxdef.h:200-203 | a ring of one |
| ListEntries.IsListEmpty | src/linux/inc/lxdef.h:205-208 | true exactly when the anchor is alone |
| ListEntries.InsertTailList | src/linux/inc/lxdef.h:210-217 | from a well-formed ring to the ring with the entry at its end, touching only the entry, the anchor and its predecessor |
| ListEntries.RemoveEntryList | src/linux/inc/lxdef.h:219-226 | the ring without the entry, which keeps its stale links; true exactly when the list is then empty |
| ListEntries.RunScript | src/linux/inc/lxdef.h:200-226 | over any sequence of insertions and removals the ring stays well formed and follows the abstract list, and each removal answers whether it emptied the list |

## Left out

- System calls, kernel objects, the host and the clock: their results are parameters. Real elapsed time and fairness are not modelled; the theorems are about safety and about which steps are enabled.
- WaitableValue and TrackerThreads are transition systems rather than classes, because the source runs them on several threads; in TrackerThreads each post and get of a cell is one step, which WaitableValue justifies.
- CollapsePath.CollapseInPlace: does not say what the buffer holds when -EINVAL is returned, because no caller reads it then.
- `AbsolutePath`, `DosToCanonicalPath` and the rest of path translation: callers of the collapser that add only string plumbing.
- Escape.UnescapePathInplace: a decoded NUL shortens the C string; the contract speaks of the bytes up to the final terminator.
- `ReadRequest`, `ParseSocket`, `ParseListen`, `ReadProcessMemory` and the polling of port-zero lookups: what they find is a parameter of the step; only the choice of parser is modelled.
- The ioctl handler's message and the body of `QueryListeningSockets`: easy packing and parsing. Every socket the query returns is taken to be IPv4 or IPv6, as its request asks for; another family is fatal in the source.
- SeccompFilter.FilterIsExact: takes 32-bit x86 bind and listen to be the socketcall forms, as the source's own comments do; the numbers of the direct forms appear nowhere in the source.
- `UnregisterHandler`: nothing in the source calls it.
- Exceptions from memory allocation, except the insertion in `TrackPort` and the naming of a target in the owner refresh.
- The partial-send loop of `HandleUdpDnsResponse`, `HandleTcpDnsResponse`, the epoll loop, and the wrap of TCP connection ids, which the source assumes away.
- The stdout and stderr halves of the relay loops: they only forward what they read. Their exits are the `leave` flag of a turn.
- StdinRelay.ProcessRelay.Run: a failed write of pending bytes other than would-block is logged and retried by the source, and the model treats it the same as a blocked one.
- DrvFs.AutomountTable.RefreshOwner: takes the two lookups of the owner's group as one answer; exceptions are those of entering and listing the namespace, of naming a target and of the mount loop.
- DrvFs.AutomountTable.MountVolumes: requires a 32-bit bitmap and a table filled from such bitmaps, as the types of the source ensure.
- The mount command, its options and the list of mounted volumes: outcomes of an attempt.
- The network manager, the GNS engine, the tunneling channel, plan9, telemetry, binfmt, GPU hooks and configuration parsing: dispatch and input/output.
