# A verified model of the SOCKS5 proxy

The proxy is a single-threaded event loop (`src/selector.c`) that drives sessions. A
session goes through a small state engine (`src/stm.c`, `src/socks5.c`): it greets the
client, may authenticate it, reads one request, connects to the origin, and then relays
bytes both ways until one side stops. Name resolution runs on worker threads that report
back to the loop through a list and a signal. Every byte passes through a linear buffer
(`src/buffer.c`) and, before the relay, through one of three incremental parsers.

The project models these parts and proves what they promise:

- **The selector** (`SelectorTable`, `Capacity`, `Selectors`, `Dispatch`, `SelectorLaws`,
  `ScanLaws`): the item array
  agrees with the descriptor sets and the highest descriptor after every call; one scan
  after `pselect` is well behaved although the callbacks it runs may register, unregister
  and change interests at will. A callback is an arbitrary function of everything logged so
  far that answers with the selector calls it makes, so a lemma about all callbacks covers
  every adaptive behaviour.
- **Notifications** (`Notifications`): the main loop, the mutex, the pending signal and any
  number of workers as a step machine; no wakeup is lost and every job is settled once. The
  drain method of the selector is shown to be a run of that machine.
- **The byte path** (`Buffers`, `Drains`, `HelloParsers`, `AuthParsers`, `RequestParsers`,
  `RelayModel`, `Relays`, `RelayPeers`, `SessionStream`, `HelloStream`, `CopyStream`): the buffer is a
  first-in first-out queue, the parsers accept exactly their messages however these are cut
  into calls of their loops, and the origin of a greeted session gets a prefix of exactly
  what the client sent after its request. A session is greeted only if the one receive the
  code grants the request brings it whole; what the origin gets otherwise is stated too
  (`SessionStream.OriginGetsRest`). `RelayPeers` adds the two peers, and tells real ends of a stream from false ones;
  `HelloStream` shows that the HELLO handlers begin the stream of the session, `CopyStream`
  that the relay handlers continue it.
- **The table-driven parser** (`ParserEngine`, `StringCompare`): a string is compiled into a
  table, and the table compares.
- **Session bookkeeping** (`StateEngine`, `SessionPool`, `Users`, `Negotiation`, `Pop3`).

Classes carry the fields of the source's records and change them in place; each method is
proved equal to a function of the old state, and the lemmas are about those functions. A
proxy start creates its selector with 1024 descriptors (`src/main.c:107`), which gives an
array of 1025 slots (`Selectors.SelectorNew`). The dispatch is stated for such a full array:
then no callback can replace the array, and the item pointer that a turn of the scan keeps
across the read callback stays good. `Selectors.Selector.EnsureCapacity` says exactly when a
smaller array is replaced.

## Where the code does less than it promises

These are facts of the code, kept in the model, each with the exact condition:

- A user name or password of 255 bytes, which RFC 1929 allows, makes the parser store
  outside its array (`AuthParsers.OverrunsExactly`, `AuthParsers.ParsesMessage`).
- A domain name of 255 bytes, which RFC 1928 allows, is never finished
  (`RequestParsers.ParsesRequest`, `RequestParsers.LongDomainNeverEnds`).
- The request is given one receive, and the session goes on whether or not that completed
  it. It is greeted iff the receive brought the whole request
  (`SessionStream.OneReceiveDecides`, `SessionStream.GreetedIff`); a request cut behind its
  fourth byte goes on to COPY, where its tail reaches the origin as payload
  (`SessionStream.OriginGetsRest`, `SessionStream.CutRequestReachesOrigin`), and one cut
  before it, as any without a known address type, sends the session back to the password
  message (`SessionStream.CutRequestGoes`), because a reply code is returned as a state
  (`src/utils/connect.c:258`).
- A source that is read while its buffer has no room behind the write position is taken to
  have closed. A run comes to wait for such a read iff it contains a partial send from a full
  buffer while not closing (`RelayModel.EverStarvedIff`); without one every end is real
  (`RelayPeers.UnpinchedEndsAreReal`), and right after any one the stream of a peer that has
  not finished can be taken for finished (`RelayPeers.PinchAllowsFalseEnd`). An end in a run
  is false iff it is told to a source waiting without room whose peer has not finished
  (`RelayPeers.FalseEndIff`). A close may drop bytes also after a real end
  (`RelayModel.CloseIsLossless`).
- Bytes the client sent before the reply wait in the buffer with nobody asked to send them,
  until the client sends more (`RelayModel.EarlyBytesWait`, `RelayModel.EarlyBytesStay`).
- The listing of user names overflows its allocation by one byte when every name has 254
  characters (`Users.ListingFits`), and cannot be split back when a name has a space
  (`Users.ListingRoundTrip`).
- A write callback gets the data of an older registration of its descriptor when the read
  callback of the turn let it be registered anew with other data (`Dispatch.ScanDataIsExact`,
  `Dispatch.StaleDataExample`).
- A descriptor that callbacks give up and register anew within one scan is called on the
  readiness of the registration that is gone (`Dispatch.ReadinessIsOwn`,
  `Dispatch.ReusedDescriptorExample`). In COPY its receive may then fail, which ends the new
  session.
- POP3 credentials of 255 bytes or more make the scanner store outside its array
  (`Pop3.OverrunsExactly`).

## Model

| member | source | states |
|---|---|---|
| `Capacity.NextCapacity` | src/selector.c:171-187 | The result is one more than the least power of two strictly above the argument, capped at the platform limit; for a supported size it exceeds the argument. |
| `Capacity.GrowthRaisesBound` | src/selector.c:252-282 | A growth past an uncovered descriptor gives a strictly larger admissible size and uses up at least one of at most ten allocations. |
| `Selectors.Selector.constructor` | src/selector.c:290-299 | A new selector registers nothing and has agreeing indexes. |
| `Selectors.SelectorNew` | src/selector.c:288-305 | Creation fails exactly when too many descriptors are asked for or memory is missing; asked for 1024 it covers every descriptor. |
| `Selectors.Selector.EnsureCapacity` | src/selector.c:244-286 | The four outcomes with their conditions; the array is replaced exactly when it has to grow and memory is there, old items are kept and new ones unused, and the registrations do not change; a selector never makes more than ten allocations in all. |
| `Selectors.Selector.UpdateFdSets` | src/selector.c:223-237 | A descriptor is in each set afterwards iff it is used and interested. |
| `Selectors.Selector.ItemsMaxFd` | src/selector.c:209-221 | The result is the exact maximum of the used descriptors, zero if there is none. |
| `Selectors.Selector.Register` | src/selector.c:336-377 | The status in every case; on success just that registration is added, otherwise nothing changes; array, sets and maximum keep agreeing. |
| `Selectors.Selector.Occupy` | src/selector.c:357-373 | Filling a free slot adds one registration and keeps both indexes in agreement. |
| `Selectors.Selector.Unregister` | src/selector.c:379-413 | Runs the close callback of the registration, if it has one, and removes just that registration, or reports a bad argument; indexes keep agreeing. |
| `Selectors.Selector.AddInterest` | src/selector.c:414-425 | Adds interests of one registered descriptor, keeps everything else and the agreement. |
| `Selectors.Selector.RemoveInterest` | src/selector.c:427-438 | Removes interests of one registered descriptor, keeps everything else and the agreement. |
| `Selectors.Selector.SetInterest` | src/selector.c:440-457 | Replaces the interests of one registered descriptor, keeps everything else and the agreement. |
| `Selectors.WindowIsExact` | src/selector.c:138-142 | The window handed to `pselect` covers every interest, and no shorter one covers every registration. |
| `Selectors.Selector.Enter` | src/selector.c:493 | Whatever calls a callback makes, in any number, the indexes agree afterwards and the table is the one those calls give. |
| `Selectors.Selector.TakeTurn` | src/selector.c:484-506 | One descriptor's turn logs what the dispatch rules say, and the item pointer kept across the read callback is still into the current array. |
| `Selectors.Selector.HandleIteration` | src/selector.c:476-508 | The scan stays in bounds, keeps the agreement under any callbacks, and does exactly what `Dispatch.Scan` describes. |
| `Selectors.Selector.HandleBlockNotifications` | src/selector.c:510-532 | The drain under any callbacks does what `Dispatch.Drain` describes and leaves no job. |
| `Selectors.Selector.NotifyBlock` | src/selector.c:541-553 | A finished job goes to the front of the list, unless there is no memory for it. |
| `Selectors.Selector.Select` | src/selector.c:563-606 | One round: a failed wait does nothing and reports it; otherwise a scan, if descriptors were ready, and then a drain. |
| `Dispatch.ScanCallsAreDue` | src/selector.c:483-506 | Whatever earlier callbacks did, every callback hits a descriptor registered, ready and interested at that moment, and an abort means that such a descriptor lacked the callback. |
| `Dispatch.ScanAscends` | src/selector.c:483-506 | Callbacks go in ascending order of descriptor, read before write, at most one of each per descriptor, inside the scanned range. |
| `Dispatch.NoCallAfterUnregister` | src/selector.c:498-504 | After a callback unregistered a descriptor it gets no further callback in the scan unless it was registered again in between. |
| `Dispatch.UntouchedIsServed` | src/selector.c:485-505 | A registered descriptor nobody touched gets the read callback iff it was ready and interested in reading, likewise for writing. |
| `Dispatch.ScanDataIsExact` | src/selector.c:486-502 | A callback whose turn ran no read callback before it is handed the data of the current registration; one whose turn did is handed it iff the last registration of the descriptor since then, if any, carries the same data. |
| `Dispatch.ReadinessIsOwn` | src/selector.c:485-498 | A callback is entered on the readiness of its own registration, held ever since `pselect`, iff no call of the scan has registered its descriptor before. |
| `Dispatch.ReusedDescriptorExample` | src/selector.c:485-498 | The other case happens: a new registration is called on the readiness of the one it replaced. |
| `Dispatch.ClosesExactly` | src/selector.c:395-402 | In a scan and in a drain, each unregistration is preceded by the close callback of its registration, if it has one, with its data, and close callbacks run nowhere else. |
| `Dispatch.StaleDataExample` | src/selector.c:486-502 | That exception happens: a write callback gets the data of a registration that is gone. |
| `Dispatch.DrainSettlesEachOnce` | src/selector.c:516-530 | A drain that does not abort settles each job exactly once, in list order, although callbacks change the table. |
| `Dispatch.DrainDropsRightly` | src/selector.c:521-526 | Each job is delivered if its descriptor is registered at that moment, with the data of that registration, and dropped if not. |
| `ScanLaws.ScanIsOrderly` | src/selector.c:483-506 | Every callback of a scan is for the next event, in order of descriptor and read before write, that is ready and wanted when it is entered; none that is wanted when its turn comes is skipped, and the scan aborts exactly when the next one has no callback. |
| `ScanLaws.ScanObeys` | src/selector.c:493 | Behind each callback of a scan come exactly the calls it answers with, in order. |
| `ScanLaws.DrainObeys` | src/selector.c:525 | The same of a drain. |
| `ScanLaws.DrainAbortsExactly` | src/selector.c:516-530 | A drain settles its jobs in order, all of them unless it comes to one whose descriptor is registered at that moment without a block callback; exactly there it aborts. |
| `SelectorLaws.EntryIsHistory` | src/selector.c:336-457 | After any calls, a descriptor is registered iff the last registration or unregistration of it was the former; handler and data are those of the last registration, and each bit of the interest is what the last call said that speaks of it. |
| `SelectorLaws.InterestIsLast` | src/selector.c:414-457 | A registration and a setting give a bit, an addition can only raise it, a removal only clear it; the last such call decides. |
| `SelectorLaws.StatusesExactly` | src/selector.c:342-363 | When a call succeeds, finds its descriptor in use, or has bad arguments. |
| `Dispatch.UntouchedKeeps` | src/selector.c:336-457 | Calls on other descriptors leave an entry alone. |
| `Notifications.InvHolds` | src/selector.c:536-606 | Every run of workers and main loop keeps mutex ownership, the wakeup guarantee, the numbering and the accounting of jobs. |
| `Notifications.NoWakeupIsLost` | src/selector.c:550-557 | In every reachable state an unsettled job means a pending signal, a worker that still owes one, or a main loop that has left `pselect` and not drained yet. |
| `Notifications.NeverSleepsOnAJob` | src/selector.c:573-579 | A waiting main loop with a queued job and no worker under way can be woken by the signal at once. |
| `Notifications.EachJobOnce` | src/selector.c:510-561 | Over every run the pushed jobs are exactly the delivered, dropped and unsettled ones, and no job counts twice. |
| `Notifications.DrainClearsBacklog` | src/selector.c:515-531 | When a drain ends, every job pushed so far has been delivered or dropped. |
| `Notifications.RoundSettlesAll` | src/selector.c:573-604 | From every reachable state with a waiting main loop and finished workers, the signal and one drain settle every queued job by its registration. |
| `Notifications.DrainIsARun` | src/selector.c:510-532 | What the drain of the selector logs is a run of the drain steps: same deliveries, same drops, same order, same table. |
| `Notifications.SignalsBoundWakeups` | src/selector.c:557-579 | The signal coalesces and is consumed: it wakes the main loop at most as often as workers sent it. |
| `Notifications.EveryRoundDrains` | src/selector.c:573-604 | However it was woken, the main loop finishes a drain before it waits again. |
| `Notifications.NewestFirst` | src/selector.c:551-553 | In every reachable state the list holds its jobs newest first. |
| `Buffers.PipeConserves` | src/buffer.c:50-104 | Over any legal sequence of writes, reads and compactions, what went in is what came out followed by what is pending, and the positions stay ordered. |
| `Buffers.RoomExactly` | src/buffer.c:50-104 | What each operation does to pending bytes and room: a partial read reclaims no room, emptying the buffer or compacting it reclaims all. |
| `Buffers.Buffer.constructor` | src/buffer.c:18-23 | An empty buffer of the given size. |
| `Buffers.Buffer.Reset` | src/buffer.c:12-16 | The buffer is empty again. |
| `Buffers.Buffer.CanWrite` | src/buffer.c:26-29 | True iff there is room behind the write position. |
| `Buffers.Buffer.CanRead` | src/buffer.c:38-41 | True iff something is pending. |
| `Buffers.Buffer.WritePtr` | src/buffer.c:31-36 | The count returned is the room behind the write position. |
| `Buffers.Buffer.ReadPtr` | src/buffer.c:43-48 | The count returned is the number of pending bytes. |
| `Buffers.Buffer.WriteAdv` | src/buffer.c:50-56 | Appends the bytes stored behind the write position to the pending ones; a negative count changes nothing. |
| `Buffers.Buffer.ReadAdv` | src/buffer.c:58-69 | Takes that many bytes off the front and rewinds a buffer that ran empty. |
| `Buffers.Buffer.Read` | src/buffer.c:71-81 | The oldest byte, or zero and no change on an empty buffer. |
| `Buffers.Buffer.Write` | src/buffer.c:83-89 | Appends the byte, or drops it when there is no room. |
| `Buffers.Buffer.Compact` | src/buffer.c:91-104 | Keeps the pending bytes and leaves all other space free. |
| `Buffers.Buffer.MoveDown` | src/buffer.c:100 | The overlapping move to the front keeps the moved bytes. |
| `Buffers.Buffer.Receive` | src/state_machines/copy_st.c:149-153 | A receive into the free room appends exactly the received bytes. |
| `Drains.DrainSplits` | src/parsers/hello_parser.c:46-58 | The parsing loop cuts its input into what it consumed and what it leaves, leaves something only by stopping, and never consumes past the first stop. |
| `Drains.FeedIsOneFill` | src/parsers/hello_auth_parser.c:62-72 | However the input is split over fills, parser and left-over bytes are those of one fill. |
| `Drains.FeedOnSameParser` | src/parsers/request_read_parser.c:86-98 | Even a caller that goes on after the end gets the same parser. |
| `HelloParsers.RunIsAfter` | src/parsers/hello_parser.c:10-44 | The state and fields after any input, read off the input itself. |
| `HelloParsers.InBounds` | src/parsers/hello_parser.c:34 | No reachable parser stores outside the allocated methods. |
| `HelloParsers.Accepts` | src/parsers/hello_parser.c:10-58 | The end state is reached iff the input starts with a complete message; the methods are its methods and the loop stops right behind it. |
| `HelloParsers.RejectsExactly` | src/parsers/hello_parser.c:10-29 | The error state is reached iff the version is wrong or no method is offered. |
| `HelloParsers.RoundTrip` | src/parsers/hello_parser.c:10-58 | Parsing an encoded message gives its methods and leaves exactly what follows. |
| `HelloParsers.ChunkIndependent` | src/parsers/hello_parser.c:46-58 | Any split over receives gives the parser and the left-over of a single receive. |
| `HelloParsers.HelloParser.constructor` | src/parsers/hello_parser.c:4-8 | The initial parser. |
| `HelloParsers.HelloParser.ConsumeByte` | src/parsers/hello_parser.c:10-44 | One byte in place does one step of the parser. |
| `HelloParsers.HelloParser.Consume` | src/parsers/hello_parser.c:46-58 | The loop in place is the draining loop, and takes from the buffer just what it consumed. |
| `AuthParsers.RunIsAfter` | src/parsers/hello_auth_parser.c:12-60 | The state and fields after any input, read off the input itself. |
| `AuthParsers.OverrunsExactly` | src/parsers/hello_auth_parser.c:30-32 | A store outside an array happens iff the input completes a user name or a password of 255 bytes. |
| `AuthParsers.OverrunExample` | src/parsers/includes/hello_auth_parser.h:19-20 | A message allowed by RFC 1929 that overruns. |
| `AuthParsers.ParsesMessage` | src/parsers/hello_auth_parser.c:12-60 | A complete message of RFC 1929 is parsed to its end iff neither text has 255 bytes; then both are stored, zero-terminated. |
| `AuthParsers.Accepts` | src/parsers/hello_auth_parser.c:12-72 | The end state is reached iff the input starts with such a message, and the loop stops right behind it. |
| `AuthParsers.RejectsExactly` | src/parsers/hello_auth_parser.c:12-45 | The error state is reached iff the version is wrong, or the user name or the password behind a fitting user name is empty. |
| `AuthParsers.RoundTrip` | src/parsers/hello_auth_parser.c:12-72 | Parsing an encoded message stores both texts and leaves exactly what follows. |
| `AuthParsers.ChunkIndependent` | src/parsers/hello_auth_parser.c:62-72 | Any split over receives gives the parser and the left-over of a single receive. |
| `AuthParsers.AuthParser.constructor` | src/parsers/hello_auth_parser.c:6-10 | The initial parser. |
| `AuthParsers.AuthParser.ConsumeByte` | src/parsers/hello_auth_parser.c:12-60 | One byte in place does one step of the parser. |
| `AuthParsers.AuthParser.StoreUser` | src/parsers/hello_auth_parser.c:29-37 | One byte of the user name, its terminator at the end. |
| `AuthParsers.AuthParser.StorePass` | src/parsers/hello_auth_parser.c:46-54 | One byte of the password, its terminator at the end. |
| `AuthParsers.AuthParser.Consume` | src/parsers/hello_auth_parser.c:62-72 | The loop in place is the draining loop, and takes from the buffer just what it consumed. |
| `RequestParsers.RunIsAfter` | src/parsers/request_read_parser.c:16-84 | The state and fields after any input without a long domain, read off the input itself. |
| `RequestParsers.LongDomainNeverEnds` | src/parsers/request_read_parser.c:59 | After the header of a domain of 255 bytes the parser stays in the address state for ever. |
| `RequestParsers.InBounds` | src/parsers/request_read_parser.c:63-76 | No reachable parser stores outside the address or the port, for any input. |
| `RequestParsers.ParsesRequest` | src/parsers/request_read_parser.c:16-84 | A complete CONNECT request of RFC 1928 is parsed to its end iff its domain does not have 255 bytes; then address, terminator, type and port are its own. |
| `RequestParsers.Accepts` | src/parsers/request_read_parser.c:16-98 | The end state is reached iff the input starts with such a request, and the loop stops right behind it. |
| `RequestParsers.Rejections` | src/parsers/request_read_parser.c:86-98 | Exactly which inputs lead to the command and address-type errors, after which the loop has eaten everything. |
| `RequestParsers.RejectsExactly` | src/parsers/request_read_parser.c:16-62 | The error the loop stops on is reached iff the version is wrong, the reserved byte is not zero, or the domain name is empty. |
| `RequestParsers.EncodeIsRequest` | src/parsers/request_read_parser.c:16-84 | Encoding an IPv4, IPv6 or domain target and a port gives a complete request with that address and port. |
| `RequestParsers.RoundTrip` | src/parsers/request_read_parser.c:16-98 | Parsing an encoded request gives its address, zero-terminated, and its port, and leaves exactly what follows. |
| `RequestParsers.ChunkIndependent` | src/parsers/request_read_parser.c:86-98 | The loop called after each part of any split gives the parser of a single call; its handler calls it once. |
| `RequestParsers.RequestParser.constructor` | src/parsers/request_read_parser.c:6-14 | The initial parser. |
| `RequestParsers.RequestParser.ConsumeByte` | src/parsers/request_read_parser.c:16-84 | One byte in place does one step of the parser. |
| `RequestParsers.RequestParser.Consume` | src/parsers/request_read_parser.c:86-98 | The loop in place is the draining loop, and takes from the buffer just what it consumed. |
| `SessionStream.StreamConserves` | src/state_machines/copy_st.c:138-231 | From the first byte on, whatever the client sends, what it delivered is what the parsers consumed, in order, then what was sent to the origin, then what is buffered; the COPY part of such a run is any run of the relay handlers (`CopyStream.CopyRefines`). |
| `SessionStream.GreetedAreMessages` | src/state_machines/hello_st.c:89-129 | If the parsers that took part ended well, each consumed exactly one complete message, and the password message was consumed iff that method was chosen. |
| `SessionStream.PhasesEndExactly` | src/state_machines/hello_auth_st.c:54-95 | HELLO is left iff its parser was fed a complete message with a method the proxy has, for the phase of that method; the password phase iff its parser was fed a message that fits, or a malformed one. |
| `HelloStream.HelloBeginsStream` | src/state_machines/hello_st.c:41-129 | However the first bytes are cut, the HELLO handlers do a run of the session: same parser, same buffer, same next phase. |
| `SessionStream.OneReceiveDecides` | src/state_machines/request_read_st.c:62-104 | After the request's only receive its phase is over, and its parser has ended iff the buffered bytes start with a whole request without a long domain. |
| `SessionStream.GreetedIff` | src/state_machines/request_read_st.c:62-104 | Whatever the client sends, a session in COPY is greeted iff the request parser was given a whole request the first time it was called, and the password message, if due, was well formed. |
| `SessionStream.OriginGetsPayload` | src/state_machines/copy_st.c:194-231 | If the session was greeted, which needs the request whole in one receive, then for any other cutting and any sends the origin gets exactly a prefix of what the client sent after its request. |
| `SessionStream.OriginGetsRest` | src/state_machines/request_read_st.c:62-104 | For any cutting of a well-formed stream: the origin gets the payload if the request's receive brought all of it, else the tail of the request and the payload, less what came along with a long domain. |
| `SessionStream.CutRequestGoes` | src/state_machines/request_read_st.c:104 | A request cut before its fourth byte sends the session back to HELLO_AUTH, one cut later goes on, and its receive is used up. |
| `SessionStream.CutRequestReachesOrigin` | src/state_machines/request_read_st.c:104 | For every greeting without password, every request and every cut behind the fourth byte there is a run in which the origin is sent the tail of the request. |
| `RequestParsers.CutRequest` | src/parsers/request_read_parser.c:86-98 | What one call of the loop makes of any beginning of a request and what follows: it ends iff that holds a request without a long domain, else it has eaten everything. |
| `CopyStream.CopyRefines` | src/state_machines/copy_st.c:138-231 | Seen from the client, every run of the relay handlers, whatever ends it, is a run of the session in COPY: same bytes in, same bytes out, same buffer. |
| `CopyStream.RelaySendsRest` | src/state_machines/copy_st.c:194-231 | From the first byte through the relay handlers, for any cutting of a well-formed stream by a session at its first attempt: the handlers have sent a prefix of just what `OriginGetsRest` leaves for the origin and hold the rest. |
| `CopyStream.RelaySendsPayload` | src/state_machines/copy_st.c:194-231 | If the session was greeted, which needs the request whole in one receive, the relay handlers send the origin exactly a prefix of the payload and hold the rest, however everything else is cut. |
| `RelayModel.AlwaysProgress` | src/state_machines/copy_st.c:151-228 | In every reachable COPY state a destination waits to write iff its buffer holds bytes, an unread source has bytes pending, a closing session has bytes pending, and some descriptor has an interest. |
| `RelayModel.EarlyBytesWait` | src/state_machines/request_read_st.c:124-151 | Entering COPY starts that invariant iff both buffers are empty. |
| `RelayModel.EarlyBytesStay` | src/state_machines/request_read_st.c:124-151 | Entered with bytes of the client already buffered, no run of the relay sends any of them before the client delivers more. |
| `RelayModel.RelayConserves` | src/state_machines/copy_st.c:150-153 | Over any run, whatever ends it, the bytes sent are a prefix of those received per direction, the rest is pending, and the 64-bit counter grows by the bytes received. |
| `RelayModel.ReadVerdictExactly` | src/state_machines/copy_st.c:138-192 | For every answer of `recv`, exactly when the read handler stays in COPY, closes or fails, by room, pending bytes, the descriptors known, and the pending socket error. |
| `RelayModel.WriteVerdictExactly` | src/state_machines/copy_st.c:194-231 | The same for every answer of `send`. |
| `RelayModel.InterestsExactly` | src/state_machines/copy_st.c:167-228 | What an event that stays in COPY does to the four bits of interest and to the closing flag. |
| `RelayModel.CopyMeansUnbroken` | src/state_machines/copy_st.c:189-228 | A run still in COPY has met no socket error and no failed transfer. |
| `RelayModel.StopsReadingOnlyWhenFull` | src/state_machines/copy_st.c:167-171 | As long as neither side has ended, only a source whose buffer is full is not being read. |
| `RelayModel.StarvedIff` | src/state_machines/copy_st.c:207-220 | A source comes to be read with no room for it exactly by a partial send from a full buffer while not closing. |
| `RelayModel.EverStarvedIff` | src/state_machines/copy_st.c:151-220 | A run comes to be waiting to read a source with no room for it iff it contains such a send. |
| `RelayModel.StarvedReadCloses` | src/state_machines/copy_st.c:176-184 | Reading such a source marks the session as closing or ends it, whatever the peer does. |
| `RelayModel.ClosingSendsOnce` | src/state_machines/copy_st.c:180-223 | A closing session never opens again, and a send is the last thing it does, with the close verdict if it succeeds. |
| `RelayModel.CloseIsLossless` | src/state_machines/copy_st.c:180-223 | A normal close has delivered everything received iff the other direction had nothing pending and, on a send, the send took the whole buffer. |
| `RelayPeers.PeerConserves` | src/state_machines/copy_st.c:149-153 | Over any run of relay and peers, what a peer sent has been received in order or is still queued. |
| `RelayPeers.UnpinchedEndsAreReal` | src/state_machines/copy_st.c:149-184 | With `recv` answering zero also when it is given no room: a run without a partial send from a full buffer takes a stream for finished only after its peer has finished and all its bytes came in. |
| `RelayPeers.EndMeansAllReceived` | src/state_machines/copy_st.c:176-184 | Such a session that is told of an end has received everything that side ever sent. |
| `RelayPeers.FalseEndIff` | src/state_machines/copy_st.c:149-184 | Some end in a run is not real iff it is answered to a source that waits to be read with no room and whose peer has not finished. |
| `RelayPeers.PinchAllowsFalseEnd` | src/state_machines/copy_st.c:207-220 | In every state, right after a partial send from a full buffer that keeps the session going, the stream of an unfinished peer can be taken for finished. |
| `RelayPeers.FalseEndExample` | src/state_machines/copy_st.c:149-223 | A client that sends 4097 bytes and never finishes has its stream taken for finished after a partial send; the session closes with two of its bytes delivered. |
| `Relays.Relay.CopyRead` | src/state_machines/copy_st.c:138-192 | The read handler in place, on buffers and selector, gives the verdict and state of the relay step; a foreign descriptor is an error without effect. |
| `Relays.Relay.CopyWrite` | src/state_machines/copy_st.c:194-231 | The write handler in place gives the verdict and state of the relay step. |
| `Relays.Relay.AfterRecv` | src/state_machines/copy_st.c:167-175 | The interests after a receive. |
| `Relays.Relay.AfterSend` | src/state_machines/copy_st.c:209-228 | The interests and the verdict after a send. |
| `Relays.Relay.GotEnd` | src/state_machines/copy_st.c:176-189 | The end of a stream closes at once or marks the session. |
| `Pop3.ParsePop3` | src/state_machines/copy_st.c:46-136 | The scanner ends and equals its description by single looks. |
| `Pop3.ScanIsByLines` | src/state_machines/copy_st.c:46-136 | Byte by byte the scanner does, for every buffer and wherever the last one left it, what reading line by line does: whole state, finds and overruns. |
| `Pop3.FindsCredentials` | src/state_machines/copy_st.c:46-136 | Whatever was found before, a buffer that starts with a USER and a PASS line yields exactly the two texts iff both have fewer than 255 bytes, and otherwise overruns. |
| `Pop3.FindsAcrossBuffers` | src/state_machines/copy_st.c:46-161 | The same when the two lines come in different buffers. |
| `Pop3.FoundLeavesAtCommand` | src/state_machines/copy_st.c:117-129 | A find leaves the scanner reading commands again, both texts forgotten. |
| `Pop3.LogsEveryLogin` | src/state_machines/copy_st.c:117-161 | A client that logs in again and again, a login to a buffer, has every login logged. |
| `Pop3.OverrunsExactly` | src/state_machines/copy_st.c:46-136 | For every buffer and wherever the last one left the scanner, it stores outside an array iff, read line by line, a USER or PASS line it comes to has a text of 255 bytes or more. |
| `Pop3.ScanRests` | src/state_machines/copy_st.c:46-161 | A buffer that does not overrun, finds included, leaves the scanner where the next one is taken up. |
| `Pop3.AllBuffersExactly` | src/state_machines/copy_st.c:46-161 | Over any series of buffers, with what was found forgotten between them, the scanner stores outside an array iff a line of some buffer, read from where the ones before left off, makes it. |
| `Pop3.ShortLinesNeverOverrun` | src/state_machines/copy_st.c:84-112 | A buffer with a CR among any 255 bytes in a row never overruns. |
| `Pop3.LoneLineOverruns` | src/state_machines/copy_st.c:84-112 | A single line with either command overruns iff its text has 255 bytes or more. |
| `ParserEngine.FirstMatch` | src/parser.c:59-80 | The row chosen matches and no earlier row of the state does. |
| `ParserEngine.Advance` | src/parser.c:49-82 | Feeding a well-formed table stays inside the table. |
| `ParserEngine.AdvanceExactly` | src/parser.c:55-82 | The first row that suits a byte runs its actions on the two events, links the second if it has an action for it, and leads to its destination. |
| `ParserEngine.NothingSuits` | src/parser.c:55-82 | A byte that suits no row leaves state and events. |
| `ParserEngine.SharesBitMeans` | src/parser.c:64-66 | A class row suits a byte iff row and byte have a class bit in common. |
| `ParserEngine.Parser.constructor` | src/parser.c:31-42 | The parser starts in the start state of its table. |
| `ParserEngine.Parser.Reset` | src/parser.c:44-47 | Back to the start state, events kept. |
| `ParserEngine.Parser.Feed` | src/parser.c:49-82 | The scan over the rows fires exactly the first matching row, or leaves the state. |
| `StringCompare.StrCmpI` | src/parser_utils.c:74-137 | The table built holds the rows of every state of the string at the recorded places. |
| `StringCompare.CompiledIsWellFormed` | src/parser_utils.c:100-126 | No row of the built table leads outside it. |
| `StringCompare.CompareStep` | src/parser_utils.c:103-126 | In every state some row matches, and the byte decides between going on, equality and mismatch. |
| `StringCompare.CompareIsCorrect` | src/parser_utils.c:74-137 | After any input the event is EQ iff the input is the string up to case, MAYEQ iff it is a proper prefix of it up to case, else NEQ; the event carries the last byte. |
| `StringCompare.MismatchStays` | src/parser_utils.c:121-124 | A parser running the built table that has reported a mismatch reports one after every further byte. |
| `StringCompare.Compare` | src/parser_utils_test.c:16-29 | Building, starting and feeding in place gives the verdict of the comparison. |
| `StateEngine.TraceIsPath` | src/stm.c:26-87 | The hooks called in a run are, in order, those present among arriving at the initial state and leaving each state of the stutter-free results for the next; the current state is the last result. |
| `StateEngine.PathAlternates` | src/stm.c:41-50 | Arrivals and departures take turns and each departure is from the state arrived at. |
| `StateEngine.EngineAlternates` | src/stm.c:26-51 | An engine whose states have both hooks calls them in turns, from the arrival at the initial state to that at the current one, and leaves no state for itself. |
| `StateEngine.AbortsExactly` | src/stm.c:38-57 | An event aborts iff the state has no handler for it or the result is outside the table. |
| `StateEngine.SessionAborts` | src/socks5.c:26-70 | The events that abort a session, state by state. |
| `StateEngine.SessionHooks` | src/socks5.c:26-70 | A session starts in HELLO and sets up its parsers and its name resolution each time it comes to their states from another, at no other time, and does nothing on leaving. |
| `StateEngine.StateMachine.Init` | src/stm.c:10-24 | Succeeds iff the states are in order and the initial one is below the last; no state is current then. |
| `StateEngine.StateMachine.HandleFirst` | src/stm.c:26-34 | The first event arrives at the initial state. |
| `StateEngine.StateMachine.Jump` | src/stm.c:36-51 | Moves to the next state with its hooks, or aborts on one outside the table. |
| `StateEngine.StateMachine.Event` | src/stm.c:53-87 | One event in place is one step of the engine. |
| `StateEngine.StateMachine.Close` | src/stm.c:89-94 | Leaves the current state once. |
| `StateEngine.StateMachine.State` | src/stm.c:96-103 | The current state, or the initial one before any event. |
| `SessionPool.LiveRemove` | src/socks5.c:124-133 | Taking one session out of those accepted and not gone cuts it out and keeps the others in order. |
| `SessionPool.LiveMembers` | src/socks5.c:79-85 | The live sessions are exactly those accepted and not gone, each once. |
| `SessionPool.Pool.Accept` | src/socks5.c:72-120 | Refuses iff 500 sessions are live; else the new one comes first; list and counters agree. |
| `SessionPool.Pool.RemoveSock` | src/socks5.c:124-136 | Unlinks exactly that session from the acyclic list. |
| `SessionPool.Pool.Destroy` | src/socks5.c:139-157 | Both descriptors are unregistered, and the program exits if one cannot be; then one session goes, the others keep their order, list and counters agree. |
| `Users.MapLooksUp` | src/utils/users.c:80-89 | The map of a table holds exactly its pairs. |
| `Users.MapHasSize` | src/utils/users.c:30-35 | It has as many names as the table has users. |
| `Users.AddKeeps` | src/utils/users.c:12-56 | An addition succeeds iff there is room and the user is valid and new; it then extends the map by that user. |
| `Users.AnswersExactly` | src/utils/users.c:12-49 | When each of the five answers is given: the first fault in the order of the checks decides. |
| `Users.DeleteKeeps` | src/utils/users.c:59-78 | A deletion removes one name from the map and keeps the table valid. |
| `Users.UserTable.AddUser` | src/utils/users.c:12-56 | The answer in every case, in the order of the checks; success appends the user. |
| `Users.UserTable.DeleteUser` | src/utils/users.c:59-78 | Removes the user of that name, the others keep their order; fails iff there is none. |
| `Users.UserTable.ShiftDown` | src/utils/users.c:69-71 | The users behind the slot move one slot forward. |
| `Users.UserTable.CanLogin` | src/utils/users.c:80-89 | True iff the map holds that password for that name. |
| `Users.UserTable.GetUsers` | src/utils/users.c:96-109 | The names joined by spaces with a newline, or nothing for an empty table. |
| `Users.ListingRoundTrip` | src/admin_protocol/adminctl.c:227-235 | Splitting the listing on spaces gives back the names in order, the last with its newline, iff no name has a space. |
| `Users.TableRoundTrip` | src/utils/users.c:96-109 | Of a table: the client prints the name of each user in table order iff no name has a space. |
| `Users.ListingFits` | src/utils/users.c:100-108 | At most 255 characters per user; with its terminator the text fits the allocation iff some name is shorter than 254. |
| `Negotiation.SelectionIsChoice` | src/state_machines/hello_st.c:53-65 | Whatever the order and repetitions, the password method wins if offered, then no authentication, else none. |
| `Negotiation.Select` | src/state_machines/hello_st.c:53-65 | The loop in place makes that choice. |
| `Negotiation.CompleteHelloIsAnswered` | src/state_machines/hello_st.c:41-129 | A complete message, however split, is answered with the choice, and HELLO is left for the phase the choice asks for. |
| `Negotiation.HelloLeavesRest` | src/state_machines/hello_st.c:47-71 | A complete message in any split is received up to the receive that brings its end and no further, and what came along behind it stays in the buffer for the next parser. |
| `Negotiation.BadHelloIsRefused` | src/state_machines/hello_st.c:72-80 | A wrong version or no methods is answered with 0xFF and fails. |
| `Negotiation.HelloSession.Answer` | src/state_machines/hello_st.c:89-97 | Two bytes with the choice, if there is room. |
| `Negotiation.HelloSession.HelloRead` | src/state_machines/hello_st.c:41-87 | The read handler in place is one read step. |
| `Negotiation.HelloSession.HelloWrite` | src/state_machines/hello_st.c:100-129 | After a send the phase is the one the selection asks for; a failed send is an error. |

## Left out

- Sockets, clocks and errors of the system: the results of `pselect`, `recv`, `send` and the
  pending socket error are parameters, within what those calls may return.
- `connect.c`, name resolution, and the replies of the request phase: mostly error codes. In
  `SessionStream` any session whose request was not malformed and has an address type may
  get to COPY, whether or not the connection would succeed.
- That a session in REQUEST_READING has logged in: a malformed password message goes on too.
- `handle_close` callbacks that call the selector: the only one of the program, that of the
  administration server (`src/admin_protocol/includes/admin_protocol.h:93`), does not, so a
  close callback is logged and changes nothing in the table.
- `selector_destroy` and the freeing of memory elsewhere.
- Running out of memory, except in the growth of the item array and for a job. In
  `Notifications` every worker gets its job; one that does not reports nothing, and its
  session waits for ever.
- Contents of a grown item array: new slots are taken as blank, which the source assumes too
  (`src/selector.c:196`).
- `parser_no_classes` gives 255 entries where the engine reads 256; a table of 256 entries is
  modelled.
- Characters of a compared string outside ASCII, on which `tolower` is undefined.
- The failure of `selector_set_interest_key` in the HELLO handlers: the descriptor being
  dispatched is registered.
- Delivery of handshake replies on short sends: the source takes a short send for a complete
  one, and so does `Negotiation.HelloSession.HelloWrite`.
- The accept path after a failed registration and the path that leaves the origin
  unregistered: the relay handlers report the error then, nothing more is claimed.
- Pop3.ParsePop3: works on a value whose texts stand for the filled part of each array, so
  the arrays are not modelled as memory; nothing is claimed about credentials split over
  several buffers, which the source rescans.
- SessionPool.Pool.Destroy: closing the two descriptors and freeing the session are not modelled.
- ParserEngine.Parser.Feed: reads its table as values; the builder fills arrays in place.
- Arguments, logging, addresses, passive sockets, the administration protocol.
