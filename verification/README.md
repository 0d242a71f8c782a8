# Verification of the RTACO netlink core

RTACO turns netlink datagrams into typed events and request results. This
project models that path in Dafny, from received bytes to the values a caller or
subscriber sees, and proves what the path promises. The wire format is that of
RFC 3549 (sections 2.2, 2.3.2 and 3).

| file | models |
|---|---|
| Bytes.dfy, Wire.dfy | little-endian reads and writes, 32-bit conversions, the message header, constants |
| Framing.dfy | the frame walk: an unsigned counter that wraps, 32-bit alignment |
| Attributes.dfy | the attribute walk: a signed counter |
| Messages.dfy | packing messages into datagrams, cutting them, both walks together |
| Text.dfy | payloads as strings, numbers, hardware and IP addresses |
| Events.dfy, FixedParts.dfy, Decoders.dfy, EventLaws.dfy | the four events: which field comes from where, the decoders' loops, locality, attribute order |
| Tasks.dfy, RequestTask.dfy, Refinement.dfy | the request tasks: one message, the receive loop, and the declarative scan it refines |
| NeighborRequest.dfy, Requests.dfy | the request builders, and the request of each operation |
| OnTheWire.dfy | requests byte by byte, and what messages with given bytes decode to, in numbers |
| StaleReads.dfy | inputs on which results depend on stale memory |
| Gate.dfy, Control.dfy | the gate, the sequence counter, one operation, concurrent requests |
| Listener.dfy | the listener's read loop, dispatch and signals |

`dafny verify dfyconfig.toml` checks everything.

## How the model reads memory

A decoder gets a *view*: the memory from the message header to the end of the
receive buffer. It is read as the code reads it, including where the code does
not compare a read with the length of its message or attribute
(`attribute_address`, `attribute_string`, the error number). A byte past the end
of the receive buffer reads as zero; no result about well-formed input depends on
such a byte. Nothing is required of received bytes: every method accepts every
datagram of every length.

The frame walk counts `remaining` in 32 unsigned bits, and `NLMSG_ALIGN` of a
length above 2^32 - 4 is 0. After a wrap the walk can therefore reach a stale
frame it never leaves. The model reports that as `hangs` or `Spinning` instead of
looping, and `WalkIsSafeIff` says exactly for which received lengths neither this
nor a wrap can happen: multiples of 4, and lengths too short for a header.

## What is false of the code, and exactly when it holds

- The frame walk stays inside the received bytes for every content if and only if
  the received length is a multiple of 4 or less than 16 (`WalkIsSafeIff`); with
  17 bytes a stale message is processed (`StaleMessageIsDelivered`).
- The error code of an NLMSG_ERROR depends on its own bytes alone if and only if
  the message has at least 20 bytes (`ErrorCodeIsLocalIff`): request tasks do not
  check this, the listener does. A dump that receives a 16-byte error succeeds over
  one receive buffer and fails over another (`BareErrorHasTwoResults`).
- A decoded IP address depends on its own payload alone if and only if the payload
  has at least the width of the family (`AddressIsLocalIff`); a decoded string if
  and only if the payload is empty or holds a NUL (`StringIsLocalIff`). An empty
  IFA_LOCAL reports the four bytes behind the message, and an unterminated
  IFLA_IFNAME runs on into them (`EmptyLocalReadsStaleBytes`,
  `BareNameReadsStaleBytes`).
- The event of a whole message depends on that message alone if and only if the
  attributes that decide its fields are read inside it (`EventIsLocalIff`): the last
  of each type, the first filled name, and the peer address only without a local
  one.

A request reads only the header of a message with another sequence number, and of
its own messages the error number and the event of its type. `Legible` asks for
exactly these reads to lie inside the message; of foreign messages it asks only
that they are whole. `Audible` is the same for a listener. Under them, results do
not depend on what the buffer held before.

## Model

| member | source | states |
|---|---|---|
| Bytes.LittleEndian | include/rtaco/core/nl_common.hxx:148-150 | words are read least significant byte first |
| Bytes.ToInt32IsCongruent | src/events/nl_address_event.cxx:38 | the conversion to int gives the number in range that is congruent to the word |
| Framing.AlignedWalkIsSafe | include/rtaco/tasks/nl_request_task.hxx:142-153 | over any bytes and any received length that is a multiple of 4: `remaining` never wraps, offset plus `remaining` stays the received length, each frame lies wholly inside the received bytes, and there are at most bytes/16 frames |
| Framing.FramesTile | include/rtaco/tasks/nl_request_task.hxx:147-153 | each frame starts where the padded length of the one before it ends; nothing is skipped or read twice |
| Framing.WalkIsSafeIff | src/core/nl_listener.cxx:117-125 | the walk keeps inside the received bytes and ends, for all contents, exactly when the length is a multiple of 4 or shorter than a header |
| Framing.StaleMessageIsDelivered | include/rtaco/tasks/nl_request_task.hxx:142-153 | the concrete failure: one 17-byte message makes the walk hand on whatever stale message follows |
| Framing.StuckFrameHangs | include/rtaco/tasks/nl_request_task.hxx:147-153 | the concrete hang: after the wrap a stale length above 2^32 - 4 is processed for ever |
| Attributes.ForEachAttr | include/rtaco/core/nl_common.hxx:202-219 | the loop calls back with exactly the attributes of the specification walk, in order |
| Attributes.AttrCounter | include/rtaco/core/nl_common.hxx:208-218 | the signed counter ends at -3 at the lowest, and loses exactly the padded size of the attributes visited |
| Attributes.AttributesAreContained | include/rtaco/core/nl_common.hxx:214-218 | for any attribute bytes, every attribute visited starts at an aligned offset and ends inside the attribute area |
| Attributes.WalkExtends | include/rtaco/core/nl_common.hxx:214-218 | memory past the attribute area changes nothing in the walk but what follows each payload |
| Attributes.WalkIgnoresTail | include/rtaco/core/nl_common.hxx:214-218 | types and payloads visited do not depend on memory past the attribute area |
| Attributes.AttrRoundTrip | include/rtaco/core/nl_common.hxx:214-218 | walking an encoded attribute list gives back that list, whatever follows it |
| Messages.DeliveredAttributesAreContained | include/rtaco/tasks/nl_request_task.hxx:147-153 | both walks on arbitrary bytes: every attribute visited ends no later than its message, and every message no later than the received bytes |
| Messages.FittingIsMaximal | include/rtaco/tasks/nl_request_task.hxx:130-139 | the messages that survive a cut are a prefix that fits, and one more would not fit |
| Messages.TruncatedWalk | include/rtaco/tasks/nl_request_task.hxx:130-153 | cutting a packed datagram at any multiple of 4 makes the walk deliver exactly the messages that fit entirely, whatever stale bytes follow |
| Messages.PackedWalk | include/rtaco/tasks/nl_request_task.hxx:142-153 | a packed datagram is walked back into exactly its messages |
| Messages.OneMessageRoundTrip | include/rtaco/tasks/nl_request_task.hxx:142-153 | one encoded message comes back as one frame with the same parts |
| Messages.TwoLevelRoundTrip | include/rtaco/core/nl_common.hxx:190-219 | encode any messages with any attributes, pack them, walk frames and attributes: all headers, fixed parts and attributes come back in order |
| Text.AddressIsLeadingBytes | include/rtaco/core/nl_common.hxx:117-137 | a payload of the family's width or more is the address, byte for byte from its start; other families have none |
| Text.U32OfWord | include/rtaco/core/nl_common.hxx:143-151 | a payload that starts with a word is read as that word, one of fewer than four bytes as 0 |
| Text.CStringIsPrefix | include/rtaco/core/nl_common.hxx:95-107 | a string is the bytes of memory one by one up to the first NUL |
| Text.TrimString | include/rtaco/core/nl_common.hxx:31-36 | drops exactly the run of trailing NULs |
| Text.AttributeString | include/rtaco/core/nl_common.hxx:95-107 | empty for an empty payload, else the characters up to the first NUL in memory |
| Text.AttributeHwaddr | include/rtaco/core/nl_common.hxx:157-182 | the loop builds the hex text of the payload |
| Text.HwAddrFormat | include/rtaco/core/nl_common.hxx:168-181 | n bytes give 3n - 1 characters: byte k in hex at 3k, a colon before every byte but the first |
| Text.HwAddrReadsBack | include/rtaco/core/nl_common.hxx:171-179 | read as lowercase hexadecimal, high digit first, the text gives back every byte |
| Text.HwAddrInjective | include/rtaco/core/nl_common.hxx:157-182 | different payloads, of any lengths, print differently |
| Events.LastOfIsLast | src/events/nl_route_event.cxx:39-51 | the last-wins rule: the attribute used has its type and none of that type follows it; none is used exactly when there is none |
| Events.LastWins | src/events/nl_route_event.cxx:39-51 | told from a list: an attribute that no other of its type follows decides its field, whatever stands before |
| Events.BaseWithoutAttribute | src/events/nl_route_event.cxx:30-37 | a field without an attribute of its type keeps its base value |
| Events.FirstFilledWins | include/rtaco/core/nl_common.hxx:68-87 | the first name with a payload decides, and without one the name is empty |
| Decoders.ExtractIfname | include/rtaco/core/nl_common.hxx:55-88 | its own loop equals find-first non-empty IFLA_IFNAME over the attributes that for_each_attr enumerates |
| Decoders.LinkFromNlmsghdr | src/events/nl_link_event.cxx:11-35 | the step-by-step decoder gives the declared event, and the unknown event for other types and short messages |
| Decoders.AddressFromNlmsghdr | src/events/nl_address_event.cxx:14-59 | last IFA_LOCAL if it gives an address, else last IFA_ADDRESS; last IFA_LABEL |
| Decoders.RouteFromNlmsghdr | src/events/nl_route_event.cxx:12-58 | every attribute-driven field is the last attribute of its type; rtm_table gives way to the last RTA_TABLE, a short one reading as 0 |
| Decoders.NeighborFromNlmsghdr | src/events/nl_neighbor_event.cxx:12-48 | the last NDA_DST and the last NDA_LLADDR |
| FixedParts.LinkFields | src/events/nl_link_event.cxx:29-32 | the event reports the members that the sender wrote in ifinfomsg |
| FixedParts.AddressFields | src/events/nl_address_event.cxx:34-38 | the event reports the members that the sender wrote in ifaddrmsg, with the index as a signed int |
| FixedParts.RouteFields | src/events/nl_route_event.cxx:30-55 | the event reports the members that the sender wrote in rtmsg, and the last attribute of each type in its own field; `oif` is the decimal text of a non-zero interface, read back to it |
| FixedParts.NeighborFields | src/events/nl_neighbor_event.cxx:32-36 | the event reports the members that the sender wrote in ndmsg |
| EventLaws.EventIsLocal | include/rtaco/core/nl_common.hxx:95-182 | when the deciding attributes are read inside the message, the event is the same whatever follows it in memory |
| EventLaws.EventIsLocalIff | include/rtaco/core/nl_common.hxx:95-182 | and exactly then, for all event types and any attributes |
| EventLaws.AddressIsLocalIff | include/rtaco/core/nl_common.hxx:117-137 | an address depends on its own payload only exactly when the payload has at least the width of its family |
| EventLaws.StringIsLocalIff | include/rtaco/core/nl_common.hxx:95-107 | a string depends on its own payload only exactly when the payload is empty or holds a NUL |
| EventLaws.EncodedEvent | src/events/nl_route_event.cxx:12-58 | an encoded message decodes to the event its parts describe |
| EventLaws.AttributeOrderIsIrrelevant | src/events/nl_address_event.cxx:44-56 | on the wire, for all event types: permuting attributes of pairwise distinct types leaves the event unchanged |
| EventLaws.UnknownAttributeIsIrrelevant | src/events/nl_neighbor_event.cxx:38-45 | on the wire, for all event types: inserting an attribute of an unknown type anywhere leaves the event unchanged |
| Tasks.RunIsScan | src/tasks/nl_route_dump_task.cxx:30-83 | processing messages one by one equals the declarative scan: the first closing message decides, over the rows before it; otherwise exactly those rows are learned |
| Tasks.RowsAreAllAndOnly | src/tasks/nl_address_dump_task.cxx:63-81 | an event is among the rows exactly when a message of the request's own sequence carries it and it passes the filter |
| Tasks.DumpResult | src/tasks/nl_link_dump_task.cxx:33-82 | DONE or error zero returns all earlier rows in order; any other error returns its code and no rows; without either the dump is pending |
| Tasks.NeighborInIff | src/tasks/nl_neighbor_get_task.cxx:64-77 | a get accepts a message exactly when it is an RTM_NEWNEIGH whose last NDA_LLADDR has a payload, and reports that payload's text |
| Tasks.GetResult | src/tasks/nl_neighbor_get_task.cxx:33-77 | the first own RTM_NEWNEIGH whose last NDA_LLADDR is not empty is returned if it precedes any own DONE or ERROR; otherwise ENOENT or the kernel's code, or pending |
| Tasks.AckResult | src/tasks/nl_neighbor_flush_task.cxx:30-54 | a probe or flush ends at its first own ERROR, with its code or as acknowledged; DONE and everything else leaves it pending |
| Tasks.RunAppend | src/tasks/nl_neighbor_dump_task.cxx:35-85 | a prefix processed first and then the rest equals the whole |
| Tasks.ForeignMessagesAreIgnored | src/tasks/nl_address_dump_task.cxx:34-36 | messages with other sequence numbers, anywhere, change neither result nor rows |
| Tasks.RunIsLocal | include/rtaco/tasks/nl_request_task.hxx:147-153 | reading messages in place in a reused buffer equals processing the messages themselves, when the request's own are read inside themselves; foreign ones need only be whole |
| Tasks.ErrorCodeIsLocalIff | src/tasks/nl_route_dump_task.cxx:48-59 | the error code is independent of stale memory exactly when the message has 20 bytes |
| RequestTasks.RequestTask.ProcessMessage | src/tasks/nl_route_dump_task.cxx:30-42 | the imperative dispatch of all seven tasks is the specification step: new `learned_` and optional result |
| RequestTasks.RequestTask.DispatchRoute | src/tasks/nl_route_dump_task.cxx:61-83 | appends the decoded route exactly when it is new, in the main table, with an interface in 1..65535 |
| RequestTasks.RequestTask.DispatchAddress | src/tasks/nl_address_dump_task.cxx:63-81 | appends the decoded address exactly when it is new with an index in 1..65535 after the signed conversion |
| RequestTasks.RequestTask.DispatchLink | src/tasks/nl_link_dump_task.cxx:64-82 | appends the decoded link exactly when it is new with an index in 1..65535 |
| RequestTasks.RequestTask.DispatchNeighbor | src/tasks/nl_neighbor_dump_task.cxx:67-85 | appends the decoded neighbour exactly when it is new with an index in 1..65535 |
| RequestTasks.RequestTask.ReadLoop | include/rtaco/tasks/nl_request_task.hxx:127-155 | for every series of datagrams and failures, of any bytes: rows and status are those of the specification run over the reused buffer |
| RequestTasks.RequestTask.ProcessReceived | include/rtaco/tasks/nl_request_task.hxx:142-153 | the inner loop with its wrapping counter processes exactly the frames of the walk and stops at the first result |
| RequestTasks.RequestTask.SendRequest | include/rtaco/tasks/nl_request_task.hxx:106-125 | for every schedule of partial sends: the wire gets the payload's prefix without gap or repeat, all of it exactly on success; the first failed send before that is reported with its code, after exactly the bytes taken before it |
| RequestTasks.FailureAfterPartialSends | include/rtaco/tasks/nl_request_task.hxx:116-121 | any partial sends short of the request, then a failure with any code and anything after: that failure decides, after exactly those bytes |
| RequestTasks.PositiveSendsComplete | include/rtaco/tasks/nl_request_task.hxx:110-122 | sends that each take at least one byte never fail the request, and as many as the payload has bytes complete it |
| RequestTasks.RequestTask.AsyncRun | include/rtaco/tasks/nl_request_task.hxx:78-86 | prepare, send, read: the wire gets the encoding of the operation's own request, nothing is received unless all of it went out, and the first failed send's code is returned |
| Refinement.ReadIsRun | include/rtaco/tasks/nl_request_task.hxx:127-155 | reading packed datagrams of any sizes into any buffer equals processing the stream of messages that fit |
| Refinement.ReadIsScan | include/rtaco/tasks/nl_request_task.hxx:127-155 | end to end: the result is that of a declarative scan of the delivered stream, pending exactly when nothing closes it |
| Refinement.PackingIsIrrelevant | include/rtaco/tasks/nl_request_task.hxx:128-154 | datagrams that carry the same stream, split anywhere and with empty ones, give the same result and rows over any buffers |
| Refinement.ForeignTrafficIsIrrelevant | src/tasks/nl_neighbor_get_task.cxx:35-37 | datagrams that carry the same own messages give the same result, whatever whole messages else they carry |
| Refinement.ReadAppend | include/rtaco/tasks/nl_request_task.hxx:128-154 | stopping after any receives and continuing equals reading without a break, for arbitrary bytes |
| Refinement.DumpOfEncodedMessages | src/tasks/nl_route_dump_task.cxx:30-83 | from the kernel's messages to the caller's list: encode, pack, receive, decode, filter gives exactly the described events before the first own DONE or ERROR, or the error, or pending; any foreign messages between them |
| Refinement.GetOfEncodedMessages | src/tasks/nl_neighbor_get_task.cxx:33-77 | the same for a get: the first own described neighbour with a hardware address before DONE or ERROR, else ENOENT, the error, or pending |
| Refinement.AckOfEncodedMessages | src/tasks/nl_neighbor_probe_task.cxx:32-56 | the same for a probe or flush: acknowledged or failed at the first own ERROR, else pending |
| OnTheWire.RequestsInBytes | include/rtaco/tasks/nl_neighbor_task.hxx:42-67 | every operation's request byte by byte: length, type, flags, sequence number, fixed part, attribute |
| OnTheWire.RouteOnTheWire | src/events/nl_route_event.cxx:12-58 | a route message decodes to exactly the numbers and address bytes written under each attribute type; a dump keeps it exactly in table 254 with an interface in 1..65535 |
| OnTheWire.AddressOnTheWire | src/events/nl_address_event.cxx:14-59 | an address message decodes to its local bytes, or its peer bytes without local ones, and its label; a dump keeps it exactly with an index in 1..65535 |
| OnTheWire.LinkOnTheWire | src/events/nl_link_event.cxx:11-35 | a link message decodes to its index, flags, change mask and name; a dump keeps it exactly with an index in 1..65535 |
| OnTheWire.NeighborOnTheWire | src/events/nl_neighbor_event.cxx:12-48 | a neighbour message decodes to its fields, its destination bytes and a text that reads back as its hardware address; when a dump keeps it and a get accepts it |
| OnTheWire.ErrorOnTheWire | src/core/nl_listener.cxx:163-168 | an error message is emitted with its signed number and both headers, and ends an own request with the negated number, or as success (ENOENT, 2, for a get) when it is zero |
| OnTheWire.DoneOnTheWire | src/tasks/nl_neighbor_get_task.cxx:39-49 | DONE ends a dump with its rows and a get with ENOENT, 2; a probe or flush goes on |
| StaleReads.BareErrorReadsStaleBytes | src/tasks/nl_route_dump_task.cxx:48-59 | an own 16-byte NLMSG_ERROR ends a dump with the code that the buffer held behind it |
| StaleReads.BareErrorHasTwoResults | src/tasks/nl_route_dump_task.cxx:48-59 | the same datagram is success with no rows over one receive buffer and any chosen error over another |
| StaleReads.EmptyLocalReadsStaleBytes | src/events/nl_address_event.cxx:44-55 | an RTM_NEWADDR with an empty IFA_LOCAL reports the four bytes that follow it |
| StaleReads.BareNameReadsStaleBytes | include/rtaco/core/nl_common.hxx:74-84 | an RTM_NEWLINK with an unterminated IFLA_IFNAME reports a name that runs on behind it |
| StaleReads.EventsDiffer | include/rtaco/core/nl_common.hxx:95-137 | each of the two messages decodes to different events over different memory |
| StaleReads.StuckFrameSpins | include/rtaco/tasks/nl_request_task.hxx:142-153 | seventeen bytes over a buffer with a stuck frame make a request spin |
| StaleReads.StuckFrameSilences | src/core/nl_listener.cxx:117-133 | and leave a listener running with no read armed |
| NeighborRequests.NeighborTask.constructor | src/tasks/nl_neighbor_get_task.cxx:21-27 | the request keeps a copy of the 16 address bytes and an empty request |
| NeighborRequests.NeighborTask.BuildRequest | include/rtaco/tasks/nl_neighbor_task.hxx:42-67 | the exposed bytes fit the struct and are the encoding of the intended message |
| NeighborRequests.NeighborTask.PrepareRequest | src/tasks/nl_neighbor_probe_task.cxx:27-30 | each of the four neighbour operations asks with its own type, flags, state and address |
| NeighborRequests.RequestRoundTrip | include/rtaco/tasks/nl_neighbor_task.hxx:36-67 | a request frames as one message with the same fields and exactly one NDA_DST with the address (48 bytes), or no attribute when no interface is named (28 bytes) |
| Requests.RouteTask.BuildRequest | include/rtaco/tasks/nl_route_task.hxx:40-53 | the exposed bytes are the encoding of the route request asked for |
| Requests.AddressTask.BuildRequest | include/rtaco/tasks/nl_address_task.hxx:42-56 | the exposed bytes are the encoding of the address request asked for |
| Requests.LinkTask.BuildRequest | include/rtaco/tasks/nl_link_task.hxx:40-54 | the exposed bytes are the encoding of the link request asked for |
| Requests.PrepareRequest | src/tasks/nl_route_dump_task.cxx:25-28 | each of the seven operations prepares exactly the bytes of its own request |
| Requests.EveryRequestRoundTrips | include/rtaco/tasks/nl_request_task.hxx:78-86 | every operation's request is read back as one message with its type, parts and sequence number |
| NeighborRequests.ProbeAnnouncesItself | src/tasks/nl_neighbor_probe_task.cxx:27-30 | a probe request read back by the event decoder is the new entry it asks for; its family 0 gives no printable address |
| Gates.GateRuns | src/core/nl_control.cxx:242-258 | in every reachable state at most one wait is armed, and each earlier wait ended exactly once, by expiry or cancellation, in call order |
| Gates.OneWait | src/core/nl_control.cxx:250-257 | a wait ends with success as soon as the clock reaches its expiry, and nothing stays armed; until then it is armed, and the next call ends it as aborted |
| Gates.ExpiryIsMaxPlus | src/core/nl_control.cxx:243-250 | the k-th expiry is the maximum over i <= k of t_i + (k - i + 1) |
| Gates.GateOverRuns | src/core/nl_control.cxx:242-258 | over whole runs with a monotonic clock the expiry strictly grows and lies 1 to k nanoseconds after the k-th call |
| Controls.Control.AcquireSocketToken | src/core/nl_control.cxx:242-253 | the new expiry exceeds both the old one and the clock; armed waits are cancelled; one wait is armed |
| Controls.Control.AfterWait | src/core/nl_control.cxx:255-257 | expiry and cancellation continue normally, and exactly a failed timer raises the error |
| Controls.Control.FetchAdd | src/core/nl_control.cxx:149 | returns the counter and advances it modulo 2^32 |
| Controls.Control.Operate | src/core/nl_control.cxx:141-153 | a failed open costs no sequence number; otherwise the wire gets the operation's request with the number drawn, as far as it is sent, and on legible input the caller gets the scan's result |
| Controls.SequencesRepeatIff | include/rtaco/core/nl_control.hxx:137 | two draws are equal exactly when they are a multiple of 2^32 draws apart |
| Controls.ConcurrentRequestsDoNotInterfere | src/core/nl_control.cxx:149 | up to 2^32 consecutive requests: over any interleaving of their answers and unrelated messages no message is accepted twice, and each task ends as on its own answers alone |
| Controls.ConcurrentRequestsOnTheWire | src/core/nl_control.cxx:149 | the same for datagrams: whatever packing carries the interleaving, each task returns what its own answers give |
| Listeners.Listener.Start | src/core/nl_listener.cxx:59-71 | starts and arms one read only when not running and the socket opens |
| Listeners.Listener.HandleRead | src/core/nl_listener.cxx:100-115 | the state after any completion is that of the specification step, including re-arming on errors |
| Listeners.Listener.ProcessMessages | src/core/nl_listener.cxx:117-133 | emits exactly for the qualifying frames of the walk; a stop by a slot does not cut the datagram short but arms no read |
| Listeners.Listener.HandleMessage | src/core/nl_listener.cxx:135-208 | a qualifying message emits exactly once, any other not at all |
| Listeners.HandlerGetsItsEvent | src/core/nl_listener.cxx:33-39 | a message that passes has_payload never decodes to an unknown event and goes to the signal of its type |
| Listeners.QualifiesInNumbers | src/core/nl_listener.cxx:140-158 | what has a handler and is long enough: types and lengths in numbers |
| Listeners.RunningUnlessStopped | src/core/nl_listener.cxx:73-133 | over a run without a start, a running listener is running at the end exactly when no step is a stop and no slot that stops was among its emissions; read errors and datagrams of any bytes never stop it |
| Listeners.EverythingIsHeard | src/core/nl_listener.cxx:100-133 | over an uninterrupted run the messages heard are those of all packets read, as far as they fit, whatever errors come between |
| Listeners.UninterruptedRun | src/core/nl_listener.cxx:91-133 | after any mix of read errors and packed datagrams exactly one read is armed, and the emissions are one for each qualifying message that fits, in order |
| Listeners.StartedListenerHearsEverything | src/core/nl_listener.cxx:59-133 | the same from an idle listener and a start whose socket opens |
| Listeners.ReadDisciplineOverRuns | src/core/nl_listener.cxx:59-115 | in every reachable state at most one read is outstanding, and exactly one while running, unless the handler is stuck on a frame |
| Listeners.QuietAfterStop | src/core/nl_listener.cxx:73-80 | once stopped, no read is armed and nothing is emitted until a start whose socket opens, and no read is left once one completes |
| Listeners.StopInSlot | src/core/nl_listener.cxx:117-133 | a stop during an emission still delivers the rest of the datagram; over the rest of the run nothing more is read or emitted until a start |
| Listeners.DeliveryConservation | src/core/nl_listener.cxx:100-133 | over whole runs and arbitrary bytes, all emissions together are one for each qualifying frame of the reads handled while running, in order |
| Listeners.PacketsAreHeard | src/core/nl_listener.cxx:117-133 | when reads carry packed messages, of any sizes and with error messages of any length, the frames heard emit as the messages that fit, and the handler is never stuck |
| Listeners.EachSignalHearsItsMessages | src/core/nl_listener.cxx:135-161 | what one signal emits is, in order, what the messages of its types cause |
| Listeners.SignalConservation | src/core/nl_listener.cxx:117-208 | the same signal by signal, for arbitrary bytes: each signal emits exactly for the frames of its types among those heard, in order |
| Listeners.SignalsOfPackets | src/core/nl_listener.cxx:117-208 | and told from the messages alone: no stale byte reaches a subscriber |
| Listeners.EncodedMessagesAreAnnounced | src/core/nl_listener.cxx:163-208 | the emissions of encoded messages are, in order, what the messages announce |

## Left out

- RequestTasks.RequestTask: one class with an operation tag stands for the template and its seven derived classes; results and rows are sums over the operations.
- RequestTasks.RequestTask.ReadLoop: completions are a finite series given in advance; an exhausted series reads as pending, so nothing is said about liveness, and the source has no timeout.
- RequestTasks.RequestTask.AsyncRun: the request structs of the base classes are separate objects that live as long as the preparation.
- RequestTasks.RequestTask.ProcessReceived: a walk that can no longer leave its frame is reported as spinning; the rows it would append for ever are not modelled.
- Tasks.ErrorCodeIsLocalIff: negating an error number of -2^31 overflows in the source; the model negates without bound.
- Attributes.ForEachAttr: callbacks run after the walk in the model, during it in the source; they do not write to the message. Lengths of 2^31 and more, which only follow a wrap, overflow the source's subtraction; the model's does not.
- Text.AttributeString: reads past the receive buffer end the string, because the model reads zero there.
- Listeners.Listener.ProcessMessages: slots are seen only through whether they call stop(); signal connection, combiners and asynchronous slots are not part of this model.
- Listeners.ReadDisciplineOverRuns: a restart before the cancelled read of a stopped listener has completed, and a restart from inside a slot, are outside the claim.
- Gates.GateRuns: time is unbounded, so 64-bit overflow of a time point is not modelled; the gate does not hold its token during an operation and no mutual exclusion is claimed.
- Controls.Control.Operate: opening the socket is a parameter; that an open socket is bound and connected is not claimed.
- inet_ntop: an address is kept as family and bytes instead of text, so the trimming of its fixed buffer is left out too.
- Port ids: request tasks match sequence numbers only, and so does the model.
- Documentation: the comment of the flush task names other message types than the RTM_DELNEIGH it sends, and the comment of attribute_string promises an empty string for invalid payloads, which it does not check; the model follows the code in both.
- Socket options, endpoints, coroutines, strands, memory resources, logging, name tables, state_to_string and bitmask operators would add easy members only.
