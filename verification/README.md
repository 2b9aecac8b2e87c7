# TWCP, verified

A Dafny 4.11 model of the TWCP turbine-to-ground protocol stack: the frame format and its checksum, the two ARQ
protocols, the TCP deframers, the LEO channel and the satellite relay, video fragmentation, the yaw and pitch actuators,
the replay and rate checks, capability negotiation and the four-step handshake. `dafny verify dfyconfig.toml` checks all
of it.

Each module follows one source file or one question about it:

- `Bytes`, `Crc32`, `Frame`, `Corruption`: the wire format, the CRC-32 of section 8 of RFC 1952 bit by bit, and exactly
  which changes to a frame `parse_frame` detects.
- `Deframer`: the two loops that cut a TCP stream into frames, against an independent definition of a cut.
- `SelectiveRepeat` (the class), `SelectiveRepeatRuns` (whole runs over a lossy, duplicating, reordering network),
  `SelectiveRepeatWrap` (32-bit numbers against unbounded ones, and what breaks after the wrap),
  `SelectiveRepeatBytes` (the same runs over encoded datagrams with bit errors).
- `StopAndWait` (the two threads as atomic steps), `StopAndWaitSender` (the sender object whose loop runs between them).
- `Channel`, `Orbit`, `Relay` (runs of the three relay threads by one clock), `RelayAge` (how old a frame is when it
  leaves), `RelayThreads` (the relay object and its loops).
- `Video`, `VideoRuns`: fragmentation and reassembly.
- `Actuator`: angles on the circle. `Replay`, `RateLimit`: the sliding windows against the full logs.
- `Capabilities`, `Negotiation`: `negotiate_capabilities` as a meet.
- `Handshake`, `HandshakeRuns`, `HandshakeStarts`, `HandshakeEndpoints`: `connect` and the responder over a network that
  may still hold frames of earlier runs.

How the code is turned into Dafny:

- An object that the code updates in place is a class with the same fields. Each method is proved against a function of
  the old state, and what the protocol promises is proved about those functions and about whole runs of them.
- Where several threads share state, every statement that touches it is one atomic step, and a run is any sequence of
  steps. The objects of such threads (`StopAndWaitARQ`, `LEORelay`, `Endpoints`) are proved to make exactly such steps,
  with arbitrary steps of the other threads in between, so the theorems about runs hold of them.
- Clock readings, random draws, socket results and the arrival of datagrams are parameters or events. A network is the set of
  everything ever sent, any of which may arrive at any later time, any number of times, or never. Iteration over a
  dictionary or a set goes in an arbitrary order.
- Bytes are integers below 256, sequence numbers are natural numbers with their `% 2^32` written out, and the CRC
  register is a `bv32`.

Where the code does not do what its documentation or its shape suggests, the code is followed, a concrete run or input
shows the difference, and the exact condition under which the promise holds is proved:

- A bit flip that lowers LEN can pass: `parse_frame` ignores what follows the frame (`Corruption.LengthFlipCanPass`);
  `Corruption.FlipAccepted` says exactly when.
- Selective Repeat keeps its promises only until its numbers wrap, and for these the exact number of sends is proved. What
  the receiver hands over is a prefix of what was sent, in all runs of n accepted sends, exactly when n < 2^32
  (`SelectiveRepeatWrap.DeliversPrefixesIff`, over encoded datagrams
  `SelectiveRepeatBytes.ApplicationReceivesPrefixIff`): at 2^32 the receiver waits for number 0 again and takes a late
  copy of the first frame for a new one (`SelectiveRepeatWrap.DeliversTooMuchAfterWrap`). The reorder buffer holds only
  numbers ahead of the base exactly when n + window <= 2^32 (`SelectiveRepeatWrap.BuffersAheadIff`). At most
  1 + max_retries transmissions of each number, and at most `window` frames held, exactly when n <= 2^32
  (`SelectiveRepeatWrap.TransmissionsAreBoundedIff`, `SelectiveRepeatWrap.WindowIsKeptIff`): `_window_has_space`
  subtracts without the 32-bit mask. In the same runs the transmissions of a number are a timeout apart
  (`SelectiveRepeatWrap.TransmissionsAreApartIff`). The base stays at or below the next number exactly when n < 2^32
  (`SelectiveRepeatWrap.BaseNeverOvertakesIff`): a stale ACK is remembered for ever and moves the base in the next lap.
- After a Stop-and-Wait give-up the number is used again, and an ACK for the old payload passes for the new one
  (`StopAndWait.GiveUpThenFalseSuccess`, `StopAndWait.TrueMeansReceivedIff`).
- The repository's README says that queued frames older than 120 seconds are discarded. The relay checks the age before
  it waits for visibility, so a frame that arrives as a pass ends can leave 4800 seconds old
  (`RelayAge.StaleFrameCanBeForwarded`). Any age limit is kept exactly when the age at the look for the satellite, the
  naps until it is in sight and the channel's delay fit into it (`RelayAge.AgeLimitIff`,
  `RelayAge.DocumentedLimitIff`).
- `check` and both rate limiters read the clock before they take the lock. With readings out of order the pruned lists
  differ from the full logs (`Replay.ClockOrderMatters`, `RateLimit.ClockOrderMatters`); `Replay.RejectedIff` and
  `RateLimit.AllowedIff` say for every clock exactly what they decide. The rate bound survives every clock exactly for
  limits up to one (`RateLimit.BoundedForEveryClockIff`).
- In Python `False == 0`, so negotiation is idempotent and associative only where no False meets a 0
  (`Negotiation.IdempotentIff`, `Negotiation.AssociatesIff`).
- An ACK of the handshake names no session. From a start on which earlier runs left an ACK, an AGREE for a context that
  still exists, or a DISCOVER or NEGOTIATE that leads to another agreement, `connect` can return a session that the
  responder has not established or has agreed to differently (`HandshakeStarts.AlwaysKeptIffClean`).

## Model

| member | source | states |
|---|---|---|
| `Crc32.CheckValue` | protocol/frame.py:25-27 | The bit-serial register computes the published CRC-32 check value of "123456789" |
| `Crc32.RunInjective` | protocol/frame.py:25-27 | Reading the same bits keeps different register values different, so no later byte hides an error |
| `Crc32.BurstApart` | protocol/frame.py:25-27 | Two different bit strings of the same length, at most 32 bits, take any register value to different values |
| `Crc32.CrcDetectsBurst` | protocol/frame.py:25-27 | Any change confined to four consecutive bytes changes the CRC, whatever surrounds it |
| `Crc32.PackInjective` | protocol/frame.py:56-56 | Different CRC values are packed into different bytes |
| `Crc32.PackIsBigEndian` | protocol/frame.py:56-56 | Read most significant byte first, the four packed bytes are the register as a binary number |
| `Frame.Build` | protocol/frame.py:30-57 | Raises exactly for payloads over 65535 bytes; otherwise the frame has the size `frame_size` announces and parses to the masked fields and the payload |
| `Frame.BuiltLayout` | protocol/frame.py:30-57 | Where every field of a built frame lies, byte by byte: sync word, version, type, flags, number and length most significant byte first, the payload, and the CRC of everything before it, most significant byte first |
| `Frame.EmptyFrameBytes` | protocol/frame.py:30-57 | One whole frame: `build_frame(0x30, 0, b"")` is aa 55 01 30 00 00 00 00 00 00 00 b5 de 59 12 |
| `Frame.Encode` | protocol/frame.py:124-126 | A frame is 15 bytes longer than its payload |
| `Frame.ParseEncode` | protocol/frame.py:83-121 | Parsing an encoded frame followed by any tail gives back every field |
| `Frame.ParseIffPrefix` | protocol/frame.py:83-121 | Bytes parse as valid with certain fields if and only if they begin with the encoding of those fields |
| `Frame.ParseBuild` | protocol/frame.py:30-121 | The round trip from `build_frame`, for every payload it takes and every tail, gives the masked fields and the payload |
| `Frame.BuildParse` | protocol/frame.py:60-121 | Bytes valid with version 1 begin with exactly what `build_frame` makes of the parsed fields |
| `Frame.ParseOutcome` | protocol/frame.py:83-110 | Each of the four errors exactly under its condition on the bytes, in the order of the tests, and otherwise valid if and only if the CRC field is the CRC of what is before it |
| `Frame.ParsedLayout` | protocol/frame.py:90-121 | Which bytes each field of a valid frame is read from, most significant byte first |
| `Corruption.DetectsBurst` | protocol/frame.py:88-110 | A change within four bytes of what the CRC covers, LEN apart, or anywhere in the CRC field, makes a frame invalid |
| `Corruption.ChangedLength` | protocol/frame.py:94-110 | A frame with only LEN changed is valid if and only if LEN became smaller and the bytes after the shortened payload are its checksum |
| `Corruption.FlipAccepted` | protocol/channel_model.py:238-245 | For every frame and every single bit: a flipped frame is valid if and only if the bit is in LEN, lowers it, and the checksum coincides |
| `Corruption.LengthFlipCanPass` | protocol/frame.py:94-103 | For every header there is a payload with which a flip in LEN parses as a valid empty frame |
| `Corruption.FlipOfValid` | protocol/frame.py:88-110 | A flip outside LEN of any valid bytes is invalid, or hits bytes behind the frame and changes nothing |
| `Corruption.NothingElseGetsThrough` | protocol/frame.py:60-121 | A frame with any one bit flipped, unless the flip is one of those in LEN that pass, parses to exactly the frame sent or not at all |
| `Deframer.CutIsUnique` | turbine/actuator_controller.py:205-212 | A stream has at most one cut into frames as long as their LEN fields say and a rest without a whole frame |
| `Deframer.Deframe` | turbine/actuator_controller.py:205-218 | The loop finds that cut: frames and residue concatenate back to the stream, and the residue holds no whole frame |
| `Deframer.DeframeTwoParts` | turbine/actuator_controller.py:191-193 | Feeding a stream in two parts cuts it as feeding it whole |
| `Deframer.ChunkingDoesNotMatter` | turbine/actuator_controller.py:182-193 | However a stream is chunked, the frames and the residue are those of the whole stream |
| `Deframer.ProcessBuffer` | turbine/actuator_controller.py:200-218 | Dispatches exactly the valid frames of the cut, in order, and returns its residue |
| `Deframer.ProcessTcpBuf` | ground/control_station.py:210-232 | Cuts identically, and reports exactly the ACKs, NACKs and status frames among the valid frames, in order |
| `Deframer.ReportOfBuilt` | ground/control_station.py:220-231 | Of built frames an ACK (0x30) is reported with its number, a NACK (0x31) and a status (0x41) with their payload, and no other type |
| `Deframer.ReportsInOrder` | ground/control_station.py:210-232 | The reports keep the order of their frames |
| `Deframer.ClientHandler` | turbine/actuator_controller.py:178-198 | Over a whole connection, whatever the chunks and timeouts, until the peer closes, the socket fails or the server stops, the valid frames of the received stream are dispatched in order |
| `Deframer.TimeoutGoesOn` | turbine/actuator_controller.py:186-189 | A receive timeout, anywhere, changes nothing of what is received |
| `Deframer.EndCutsOff` | turbine/actuator_controller.py:182-198 | After the peer closes, the socket fails or the server stops, nothing more is received |
| `Deframer.ChunksAreReceived` | turbine/actuator_controller.py:185-193 | Until then every chunk is received, in order |
| `Deframer.DeframeFlatten` | turbine/actuator_controller.py:205-218 | Concatenated whole frames come back as exactly those frames |
| `Deframer.StreamDelivers` | turbine/actuator_controller.py:178-218 | Built frames, concatenated and chunked anywhere, come out as exactly the frames that were sent |
| `SelectiveRepeat.SelectiveRepeatARQ.constructor` | protocol/reliability.py:123-150 | Both sides start empty at number 0 |
| `SelectiveRepeat.SelectiveRepeatARQ.Send` | protocol/reliability.py:157-175 | None for a full window, an exception exactly when `build_frame` raises, None when the socket fails, and otherwise, always, the next number: then exactly the frame that `build_frame` makes goes out and is held with its time; in every other case sender and wire are unchanged |
| `SelectiveRepeat.SelectiveRepeatARQ.ProcessAck` | protocol/reliability.py:177-186 | The sliding loop ends in the state that `Slide` defines, and nothing else changes |
| `SelectiveRepeat.SelectiveRepeatARQ.RetransmitExpired` | protocol/reliability.py:188-206 | A frame is touched if and only if its timer was started at least a timeout ago; then it is given up or sent once more with its timer restarted, by its number of retries, in any order |
| `SelectiveRepeat.SelectiveRepeatARQ.Retransmit` | protocol/reliability.py:195-206 | One turn of the timer loop by age and retries: leave alone, give up or resend |
| `SelectiveRepeat.SelectiveRepeatARQ.Receive` | protocol/reliability.py:210-230 | The delivery loop hands over what `Drain` defines, and the returned list is what the delivered list grows by |
| `SelectiveRepeat.AfterAck` | protocol/reliability.py:177-186 | After every ACK the base number is not acknowledged, wrap or not |
| `SelectiveRepeat.Drain` | protocol/reliability.py:225-227 | Delivery only appends, and stops where the next number is missing |
| `SelectiveRepeat.DataFrameIsBuilt` | protocol/reliability.py:166-166 | The frame the sender holds is what `build_frame` encodes |
| `SelectiveRepeatRuns.SlideBeforeWrap` | protocol/reliability.py:183-185 | Before the wrap the base moves to the first unacknowledged number and forgets exactly the ACKs it passed |
| `SelectiveRepeatRuns.DrainBeforeWrap` | protocol/reliability.py:225-227 | Before the wrap delivery takes exactly the buffered numbers from the base to the first that is missing, and hands over what was sent under them |
| `SelectiveRepeatRuns.InWindowMeaning` | protocol/reliability.py:216-238 | The window test holds exactly when (seq - base) mod 2^32 is below the window size |
| `SelectiveRepeatRuns.StepKeepsInv` | protocol/reliability.py:157-230 | While fewer than 2^32 sends are accepted, every send, timer pass, frame arrival and ACK arrival keeps the invariant of sender, wire and receiver |
| `SelectiveRepeatRuns.SendAcceptsIff` | protocol/reliability.py:157-175 | In every state a send is accepted if and only if fewer than `window` numbers are outstanding, the payload has at most 65535 bytes and the socket works; then the frame that `build_frame` makes is on the wire and held, and otherwise nothing changes |
| `SelectiveRepeatRuns.DeliveredIsPrefixOfSent` | protocol/reliability.py:157-230 | In every reachable state with fewer than 2^32 sends the delivered list is a prefix of the accepted payloads, send_base <= recv_base <= next_seq <= send_base + window, and a number was acknowledged exactly when it is delivered or buffered |
| `SelectiveRepeatRuns.ReorderBufferIsAhead` | protocol/reliability.py:210-230 | In every such state fewer than `window` numbers are buffered, all less than a window ahead of the base modulo 2^32; while sends plus window stay within 2^32 an acknowledged number is either delivered or buffered, not both |
| `SelectiveRepeatRuns.SenderWindowPartition` | protocol/reliability.py:154-206 | In every reachable state with fewer than 2^32 sends each outstanding number is exactly one of held, acknowledged and abandoned; at most `window` are held or outstanding; the base is not acknowledged |
| `SelectiveRepeatRuns.StaleAckMovesNothing` | protocol/reliability.py:177-186 | Before the wrap a late ACK for a passed number moves neither the base nor the frames held |
| `SelectiveRepeatRuns.TransmissionsAreBounded` | protocol/reliability.py:188-206 | In every run of fewer than 2^32 sends no number is transmitted more than 1 + max_retries times |
| `SelectiveRepeatRuns.TimerActsExactlyWhenDue` | protocol/reliability.py:188-206 | In every reachable state with fewer than 2^32 sends, a timer pass touches a held number if and only if a timeout has passed since its latest transmission, by the log of all transmissions; it then transmits again, or gives up if that was the last of 1 + max_retries |
| `SelectiveRepeatRuns.TransmissionsAreApart` | protocol/reliability.py:188-206 | In every such state the i-th and the j-th transmission of a number are at least j - i timeouts apart |
| `SelectiveRepeatRuns.GivesUpNoEarlier` | protocol/reliability.py:196-199 | A number is given up no earlier than 1 + max_retries timeouts after it was first sent |
| `SelectiveRepeatRuns.GiveUpPinsTheWindow` | protocol/reliability.py:197-199 | Until its ACK comes after all, an abandoned number n keeps the base at or below n and the next number at or below n + window, along every continuation that stays below 2^32 sends |
| `SelectiveRepeatRuns.Quiescent` | protocol/reliability.py:177-230 | Nothing held and nothing abandoned means that nothing is outstanding, and then everything sent was delivered |
| `SelectiveRepeatRuns.Recovery` | protocol/reliability.py:177-230 | With fewer than 2^32 sends so far and no new ones: once an ACK for every held or abandoned number has arrived, in any order among any other events, the buffer is empty, the bases agree, and everything sent was delivered |
| `SelectiveRepeatRuns.CanRecover` | protocol/reliability.py:177-230 | Such a continuation exists whenever nothing is abandoned |
| `SelectiveRepeatRuns.CanDeliver` | protocol/reliability.py:157-230 | From every state in which nothing is abandoned, for any further payloads that fit a frame, below 2^32 in all, some continuation delivers exactly what was sent before and then these |
| `SelectiveRepeatRuns.EveryListIsDelivered` | protocol/reliability.py:157-230 | For every list of fewer than 2^32 payloads that fit a frame, and every window from 1 on, some run sends and delivers exactly this list |
| `SelectiveRepeatWrap.WindowTestMeansTrueWindow` | protocol/reliability.py:216-238 | For a frame that is at most 2^32 - window numbers late, the wrapped test decides as the test on unbounded numbers |
| `SelectiveRepeatWrap.WrappedReceiverRefinesIdeal` | protocol/reliability.py:210-238 | Over any number of laps and any such arrivals the receiver delivers what one with unbounded numbers delivers |
| `SelectiveRepeatWrap.FreshReceiversAgree` | protocol/reliability.py:143-146 | The two receivers start out in agreement |
| `SelectiveRepeatWrap.TimelinessIsSharp` | protocol/reliability.py:216-238 | A frame one number later than that bound is accepted although it lies outside the true window |
| `SelectiveRepeatWrap.WindowTestIsExact` | protocol/reliability.py:154-155 | The unmasked test passes if and only if the window has space or the next number has wrapped below the base |
| `SelectiveRepeatWrap.StaleAckOvertakesAfterWrap` | protocol/reliability.py:177-186 | A run with 2^32 sends exists in which a stale ACK has moved the base past the next number |
| `SelectiveRepeatWrap.WindowOverfillsAfterWrap` | protocol/reliability.py:154-175 | For every window size a run with 2^32 + 1 sends exists in which the sender holds window + 1 frames |
| `SelectiveRepeatWrap.DeliversTooMuchAfterWrap` | protocol/reliability.py:210-230 | For every window size a run with exactly 2^32 sends exists in which the receiver has handed over 2^32 + 1 payloads |
| `SelectiveRepeatWrap.DeliversPrefixesIff` | protocol/reliability.py:157-230 | In all runs of at most n sends the delivered list is a prefix of the sent payloads if and only if n < 2^32 |
| `SelectiveRepeatWrap.BuffersAheadIff` | protocol/reliability.py:216-238 | In all runs of at most n < 2^32 sends every buffered number is above the base if and only if n + window <= 2^32 |
| `SelectiveRepeatWrap.SendsTooOftenAfterWrap` | protocol/reliability.py:188-206 | A run with 2^32 + 1 sends exists in which number 0 was transmitted 2 + max_retries times, twice without a timeout in between |
| `SelectiveRepeatWrap.TransmissionsAreBoundedIff` | protocol/reliability.py:157-206 | In all runs of at most n sends no number is transmitted more than 1 + max_retries times if and only if n <= 2^32 |
| `SelectiveRepeatWrap.TransmissionsAreApartIff` | protocol/reliability.py:157-206 | In all runs of at most n sends neighbouring transmissions of a number are a (positive) timeout apart if and only if n <= 2^32 |
| `SelectiveRepeatWrap.RunHoldsAtMostWindow` | protocol/reliability.py:154-206 | Every run of at most 2^32 sends holds at most `window` frames |
| `SelectiveRepeatWrap.WindowIsKeptIff` | protocol/reliability.py:154-206 | All runs of at most n sends hold at most `window` frames if and only if n <= 2^32 |
| `SelectiveRepeatWrap.BaseNeverOvertakesIff` | protocol/reliability.py:154-206 | In all runs of at most n sends the base stays at or below the next number if and only if n < 2^32 |
| `SelectiveRepeatBytes.DatagramIsEventOrNothing` | protocol/frame.py:60-121 | A datagram with any one bit flipped, unless the flip is in LEN and passes, acts as the frame or ACK that was sent, or not at all |
| `SelectiveRepeatBytes.BytesRefineFrames` | protocol/reliability.py:157-242 | Runs of any length over such datagrams reach only states that runs over frames reach |
| `SelectiveRepeatBytes.FramesRefineBytes` | protocol/reliability.py:157-242 | And they reach all of them |
| `SelectiveRepeatBytes.AckFrameIsBuilt` | protocol/reliability.py:240-242 | The ACK frame is what `make_ack` builds: type 0x30, the number as SEQ and, packed, as payload |
| `SelectiveRepeatBytes.EveryListIsReceived` | protocol/reliability.py:157-242 | For every list of fewer than 2^32 payloads that fit a frame some run over datagrams sends it and receives it in full |
| `SelectiveRepeatBytes.ApplicationReceivesPrefix` | protocol/reliability.py:157-242 | Below 2^32 sends, over such datagrams the application receives a prefix of the accepted payloads, byte for byte |
| `SelectiveRepeatBytes.ApplicationReceivesPrefixIff` | protocol/reliability.py:157-242 | In all such runs of at most n sends it does if and only if n < 2^32 |
| `StopAndWait.TransmissionsAreBounded` | protocol/reliability.py:54-82 | However the threads interleave, a call transmits at most `max_retries` frames |
| `StopAndWait.SeqAdvancesOnlyOnSuccess` | protocol/reliability.py:69-82 | The number changes only when a call returns True, and then by one modulo 2^32 |
| `StopAndWait.TransmitSendsTheCall` | protocol/reliability.py:55-57 | A transmission puts on the wire exactly what `build_frame` makes of the call's type, the current number and the payload |
| `StopAndWait.FalseOnlyWhenExhausted` | protocol/reliability.py:54-82 | A call returns False only when the socket refused a frame or all `max_retries` attempts were transmitted |
| `StopAndWait.ReadFollowsFreshSignal` | protocol/reliability.py:67-69 | In every interleaving, before each read of an ACK lies a clear of the event, the last so far, and after that clear a set |
| `StopAndWait.UnusedIsSound` | protocol/reliability.py:46-89 | If no frame with another payload was sent under the current number, True means that the receiver got this payload |
| `StopAndWait.AckScheduleReturnsTrue` | protocol/reliability.py:67-73 | The ACK for any frame with the current number, the call's own or a leftover, makes a call return True when it is noted after the clear |
| `StopAndWait.PromptCallSucceeds` | protocol/reliability.py:46-73 | Every call whose payload fits a frame can succeed: its frame, as `build_frame` makes it, arrives, the ACK is noted after the clear, and the call returns True |
| `StopAndWait.TrueMeansReceivedIff` | protocol/reliability.py:46-89 | Over all interleavings True means received if and only if no frame with another payload was sent under the current number, or the receiver has this payload already |
| `StopAndWait.CallsBeforeFirstFailureAreReceived` | protocol/reliability.py:46-89 | In every run from the start with fewer than 2^32 calls and no failed call so far, the i-th call used number i and its payload was received |
| `StopAndWait.GiveUpThenFalseSuccess` | protocol/reliability.py:81-82 | A concrete run in which a call after a give-up returns True and its payload was never received |
| `StopAndWaitSender.StopAndWaitARQ.constructor` | protocol/reliability.py:34-42 | Starts at number 0 with the event clear and no note |
| `StopAndWaitSender.StopAndWaitARQ.Interfere` | protocol/reliability.py:84-89 | Notifier and network steps leave the sender's progress, number and history alone, and set the event only by a set of the notifier's |
| `StopAndWaitSender.StopAndWaitARQ.Attempt` | protocol/reliability.py:54-79 | The exact steps of one attempt: transmit, clear, wait, and read if the event is then set; it fails for good exactly when the socket refuses, succeeds only on a signal set after the clear and a positive note for the current number, and otherwise leads to the next attempt or gives up after the last |
| `StopAndWaitSender.StopAndWaitARQ.Await` | protocol/reliability.py:67-79 | Clear-then-wait succeeds exactly when the wait is signalled and the note then read is positive and for the current number |
| `StopAndWaitSender.StopAndWaitARQ.SendReliable` | protocol/reliability.py:46-82 | Return value, history and number in every case; True comes only of a signal set after the clear of an attempt that did not time out, False only of a socket failure or after all `max_retries` transmissions; True means received as long as every earlier call returned True |
| `Channel.Transmitted` | protocol/channel_model.py:192-236 | Lost exactly in a blackout or by loss; otherwise the datagram, with exactly the drawn bit flipped if there is a bit error, which raises for an empty datagram |
| `Channel.LEOChannel.Transmit` | protocol/channel_model.py:192-236 | Outcome by visibility, loss and bit error, and both counters count exactly |
| `Channel.LEOChannel.InjectBitError` | protocol/channel_model.py:238-245 | Flips the drawn bit of the drawn byte in place and nothing else |
| `Orbit.WaitIsLeast` | protocol/channel_model.py:87-92 | `time_to_next_pass` is the least wait after which the satellite is visible |
| `Orbit.PassLasts` | protocol/channel_model.py:94-97 | The satellite stays visible for exactly `time_in_pass` |
| `Orbit.SightIsAfterWait` | protocol/channel_model.py:59-92 | By the wall clock: no reading before the wait is over sees the satellite, and the reading at its end does |
| `Orbit.SightLasts` | protocol/channel_model.py:59-97 | After a blackout every reading for a whole pass sees it |
| `Orbit.FirstPass` | protocol/channel_model.py:50-71 | The first pass begins when the clock starts, lasts `visibility` and is followed by the first blackout |
| `Orbit.SightRepeats` | protocol/channel_model.py:59-71 | An orbital period later, by the scaled clock, the satellite is in sight exactly as now |
| `Relay.EveryFrameIsAccountedFor` | satellite/leo_relay.py:99-163 | In every run and direction each enqueued frame is exactly one of queued, in the drain thread's hand, and done with one fate |
| `Relay.ForwardedInOrderOnceAlmostIntact` | satellite/leo_relay.py:124-163 | Forwarded frames keep enqueue order, go out once, differ in at most one bit, were at most 120 s old when checked, and left after a later look that saw the satellite |
| `RelayAge.StaleFrameCanBeForwarded` | satellite/leo_relay.py:141-160 | With a period of 5400 s and passes of 600 s, every valid frame that arrives as a pass ends has a run that forwards it 4800 s old |
| `RelayAge.NeverBeforeSight` | satellite/leo_relay.py:146-160 | In every run an entry leaves no earlier than the satellite comes in sight after a look for it |
| `RelayAge.LeavesInTime` | satellite/leo_relay.py:146-160 | With naps of bounded length and a bounded channel delay, an entry leaves at most at its age at the look, plus the longest series of naps until the satellite is in sight, plus the delay |
| `RelayAge.AgeLimitIff` | satellite/leo_relay.py:141-160 | For every limit: in every run at this pace the entry leaves at most that old if and only if that latest age, known at the look, is within the limit |
| `RelayAge.DocumentedLimitIff` | satellite/leo_relay.py:141-160 | With naps of a second: the entry leaves at most 120 s and the channel's delay old in every run if and only if its age and the wait, rounded up to whole seconds, come to at most 120 s |
| `RelayAge.CheckedInTimeIff` | satellite/leo_relay.py:141-160 | The same in terms of the age check: for an entry that passes it and is looked for at once, the condition is on the age at the check and the wait from the orbital phase at the check |
| `RelayAge.AgePlusWait` | satellite/leo_relay.py:141-160 | If age and wait come to at most 120 s, it leaves at most a nap and the delay older than that; if they come to more, it leaves too old in every run in which it leaves |
| `Relay.CountersAreExact` | protocol/channel_model.py:204-228 | In every run the counters equal the number of frames of both directions that entered the channel and that it lost |
| `Relay.FarEndHearsSubsequence` | satellite/leo_relay.py:109-163 | With any bit errors but those in LEN that pass, what parses valid at the far end is a subsequence of what was enqueued, unaltered and without repetition |
| `RelayThreads.LEORelay.constructor` | satellite/leo_relay.py:64-84 | The relay as `start` leaves it: running, with empty queues and a channel of its own |
| `RelayThreads.LEORelay.Stop` | satellite/leo_relay.py:91-92 | Clears the running flag; the queues stay as they are |
| `RelayThreads.LEORelay.RecvLoop` | satellite/leo_relay.py:99-122 | Per receive call the loop makes one listen step of the relay's runs, the other threads' steps, and one datagram step unless the call timed out or failed; it goes on after a timeout, and ends early only at a stop or a socket error |
| `RelayThreads.LEORelay.Route` | satellite/leo_relay.py:109-122 | A valid datagram becomes the last entry of the queue its source port selects; an invalid one changes no queue, and the other queue stays |
| `RelayThreads.LEORelay.Enqueue` | satellite/leo_relay.py:124-125 | Appends to one queue and leaves the other alone |
| `RelayThreads.LEORelay.QueueDrain` | satellite/leo_relay.py:129-163 | With other threads acting in between, every entry taken meets and keeps the fate its turn decides, no earlier fate changes, and the loop ends early only at a stop or, with passes shorter than a nap, in a wait that goes on |
| `RelayThreads.LEORelay.DrainTurn` | satellite/leo_relay.py:135-163 | Takes the head of the queue: stale if and only if more than 120 s old at the check; dropped if the relay stops during the wait; otherwise, after a look that saw the satellite, forwarded if and only if the channel sees it and does not lose the frame and the socket takes it, unaltered without a bit error; it is left waiting only with passes shorter than a nap |
| `RelayThreads.LEORelay.AwaitVisibility` | satellite/leo_relay.py:146-148 | The wait ends only at a look that sees the satellite or when the relay has stopped, and it does end if a pass is at least a nap long; the entry in hand and all fates stay |
| `RelayThreads.LEORelay.Forward` | satellite/leo_relay.py:153-163 | The frame goes through the channel and out, and its fate is recorded |
| `Video.ArrivingFragment` | bonus/video_stream.py:166-171 | The receiver reads back exactly the fragment the sender packed |
| `Video.DatagramArrives` | bonus/video_stream.py:129-137 | The whole datagram, followed by anything, parses and arrives as that fragment |
| `Video.DatagramFields` | bonus/video_stream.py:125-132 | What goes out for each fragment: `build_frame` with type 0x50, the number, flags 4, with 8 added for the last only, and a payload of id, index, count, width and up to 1024 bytes of the frame |
| `Video.DatagramsInOrder` | bonus/video_stream.py:125-133 | The i-th datagram of a frame is its i-th fragment, under the i-th number from the first, wrapped |
| `Video.TotalStays` | bonus/video_stream.py:170-173 | A buffered frame keeps the fragment count that its first fragment named |
| `Video.VideoStreamSender.SendFrame` | bonus/video_stream.py:125-139 | All fragments in order under consecutive wrapped numbers, or none when a header field does not fit |
| `Video.VideoStreamSender.StreamLoop` | bonus/video_stream.py:104-110 | Consecutive ids, and the wire gets exactly the datagrams of the frames up to the first that cannot be packed |
| `Video.VideoStreamReceiver.Receive` | bonus/video_stream.py:162-188 | Buffer, counters and callbacks after one parsed frame of any type and length, and exactly when the join raises |
| `Video.Join` | bonus/video_stream.py:183-183 | The join fails exactly when a number below the total is missing, and otherwise concatenates in index order |
| `VideoRuns.JoinedChunks` | bonus/video_stream.py:127-129 | The chunks of a frame joined in order are the frame |
| `VideoRuns.DeliveredFramesAreOriginal` | bonus/video_stream.py:162-188 | For any interleaving, order, loss and duplication of fragments every delivered frame is the original, and the join never raises |
| `VideoRuns.DeliveriesAreBounded` | bonus/video_stream.py:173-188 | A frame is delivered at most as often as its rarest fragment arrived |
| `VideoRuns.DeliveredIffAllArrived` | bonus/video_stream.py:173-188 | A non-empty frame is delivered if and only if each of its fragments arrived |
| `VideoRuns.ExactlyOnce` | bonus/video_stream.py:173-188 | If each fragment arrives once, the frame is delivered once and no buffer entry stays |
| `VideoRuns.CountersAreExact` | bonus/video_stream.py:173-185 | The counters equal the number of fragments that arrived and of frames delivered |
| `VideoRuns.StreamOnWire` | bonus/video_stream.py:104-139 | Everything the sender's stream puts on the wire is a fragment of one of its frames under that frame's id |
| `VideoRuns.VideoSurvivesTheNetwork` | bonus/video_stream.py:104-188 | From the sender's wire, whichever datagrams arrive in whatever order and number, each delivery is the frame cut under its id |
| `Actuator.ActuatorState.constructor` | turbine/actuator_controller.py:58-64 | The initial angles |
| `Actuator.ActuatorState.ApplyYaw` | turbine/actuator_controller.py:66-74 | Result by range and emergency stop, in this order; only the yaw target changes, and only on success |
| `Actuator.ActuatorState.ApplyPitch` | turbine/actuator_controller.py:76-84 | The same for the pitch |
| `Actuator.ActuatorState.EmergencyStop` | turbine/actuator_controller.py:86-91 | Sets the stop and the feathering target |
| `Actuator.ActuatorState.Tick` | turbine/actuator_controller.py:93-108 | One physical step; without emergency stop the shortest arc to the target shrinks by exactly 3 degrees a second, down to zero |
| `Actuator.DistanceIsShortest` | turbine/actuator_controller.py:101-101 | The computed yaw error is one of the ways to the target, and no way around the circle is shorter |
| `Actuator.TickShortensError` | turbine/actuator_controller.py:101-103 | A step reduces the signed error by exactly the move, across the 0/360 seam too |
| `Actuator.AlwaysInRange` | turbine/actuator_controller.py:66-108 | In every run the yaw is in [0, 360) and the pitch in [0, 90] |
| `Actuator.YawConverges` | turbine/actuator_controller.py:93-108 | Over any run of ticks and pitch commands the arc to the yaw target is max(0, d - 3 t) after time t |
| `Actuator.PitchConverges` | turbine/actuator_controller.py:105-108 | Over any run of ticks and yaw commands the pitch error is max(0, d - 5 t) after time t |
| `Actuator.YawCommandIsReached` | turbine/actuator_controller.py:66-104 | A yaw command in [0, 360] without a stop is taken, and after 60 s of ticks, whatever pitch commands come in, the yaw is that angle, 0 for 360 |
| `Actuator.PitchCommandIsReached` | turbine/actuator_controller.py:76-108 | A pitch command in [0, 90] without a stop is reached after 18 s |
| `Actuator.EmergencyStopIsFinal` | turbine/actuator_controller.py:66-98 | After a stop, whatever commands come in, yaw and targets are frozen and the pitch is min(90, p + 5 t) |
| `Replay.ReplayDetector.Check` | bonus/security.py:86-106 | Verdict and pruned table of one call |
| `Replay.RejectedIff` | bonus/security.py:86-106 | For every clock: rejected if and only if an accepted call for the pair exists and no call since read a clock more than the window later |
| `Replay.AcceptedIffFresh` | bonus/security.py:86-106 | With a non-decreasing clock the pruned table decides as the full log of accepted calls |
| `Replay.AcceptsAreApart` | bonus/security.py:86-106 | Then two accepted calls for one pair are more than the window apart |
| `Replay.ClockOrderMatters` | bonus/security.py:91-93 | With readings out of order the same pair is accepted twice within the window |
| `RateLimit.RateLimiter.Allow` | bonus/security.py:200-213 | Decision and new list of the source, pruned in place; other sources untouched |
| `RateLimit.ActuatorController.RateOk` | turbine/actuator_controller.py:281-290 | The same decision and the same list as `Allow` with limit 5 |
| `RateLimit.SourcesAreIndependent` | bonus/security.py:204-212 | A source's list depends on its own calls only, whatever the interleaving |
| `RateLimit.KeptIsRecentLog` | bonus/security.py:205-205 | What pruning keeps is the recent part of the full log of accepted calls |
| `RateLimit.DecidesAsFullLog` | bonus/security.py:200-213 | The limiter decides as the full log would: fewer than `limit` accepted calls in the second before |
| `RateLimit.AcceptedIsFullLog` | bonus/security.py:200-213 | Over every interleaving of sources, the calls of a source that the pruned table accepts are those the full log would accept |
| `RateLimit.EverySourceIsBounded` | turbine/actuator_controller.py:281-290 | Of the calls of a source that the table accepts, at most `limit` lie in any second, whatever the other sources do |
| `RateLimit.AllowedIff` | bonus/security.py:200-213 | For every clock: accepted if and only if fewer than `limit` accepted calls of the source are such that no call of it since read a clock a second or more later |
| `RateLimit.ClockOrderMatters` | bonus/security.py:202-205 | With readings out of order, for every limit from 2 on, limit + 1 accepted calls lie in one second |
| `RateLimit.BoundedForEveryClockIff` | bonus/security.py:200-213 | At most `limit` accepted calls lie in any second for all call sequences and clocks if and only if the limit is at most 1 |
| `Capabilities.CommonFacts` | discovery/negotiation.py:53-55 | `sorted(set & set)`: strictly increasing, and exactly the elements of both lists |
| `Capabilities.IncreasingUnique` | discovery/negotiation.py:55-55 | A sorted list without repetition is determined by its elements |
| `Negotiation.NegotiateCapabilities` | discovery/negotiation.py:39-61 | The loop over the keys, in any order, computes the key-by-key decision or raises TypeError exactly when some key does |
| `Negotiation.RaisesIff` | discovery/negotiation.py:51-55 | It raises TypeError if and only if under some key both hold lists, and one of them holds a list or a dictionary or they share two different elements that are neither both numbers nor both strings |
| `Negotiation.Commutes` | discovery/negotiation.py:39-61 | For all dictionaries both sides compute equal agreements, or both raise |
| `Negotiation.AgreedIsAllowedByBoth` | discovery/negotiation.py:39-61 | Every agreed entry is allowed by both inputs |
| `Negotiation.AgreedIsGreatest` | discovery/negotiation.py:39-61 | What both inputs allow is allowed by the agreement, except exactly where both say False |
| `Negotiation.PlainAgrees` | discovery/negotiation.py:52-55 | Dictionaries whose lists do not mix element types never raise, and so are their agreements |
| `Negotiation.IdempotentIff` | discovery/negotiation.py:56-60 | An agreement negotiated with itself is itself if and only if no False of `mine` met a 0 of `theirs` |
| `Negotiation.FalseAgainstZero` | discovery/negotiation.py:56-60 | A concrete agreement that is not reproduced by itself |
| `Negotiation.AssociatesIff` | discovery/negotiation.py:39-61 | Three dictionaries reach equal agreements in either grouping if and only if no key has one False and one 0 meeting a False |
| `Handshake.NegotiateCaps` | protocol/handshake.py:103-112 | Agreed are exactly the common keys whose values are equal or both lists, lists with exactly the common elements, even none; it raises exactly when two lists hold something unhashable |
| `Handshake.RaisesTypeErrorIff` | protocol/handshake.py:103-112 | That is, when under some key both hold lists and one of them holds a list or a dictionary |
| `Handshake.AgreementsAreSame` | protocol/handshake.py:103-112 | Any two agreements on the same capabilities, from either side, are equal with lists read as sets |
| `HandshakeRuns.NextKeepsInv` | protocol/handshake.py:143-299 | Every step of initiator, responder and network keeps the invariant that ties ACKs to contexts and agreements to frames |
| `HandshakeRuns.SessionIsAgreed` | protocol/handshake.py:143-299 | From every clean start, if `connect` returns a session, the responder established the context with that id and agreed to the same, however many ids the retries made |
| `HandshakeStarts.SessionIsPossible` | protocol/handshake.py:143-299 | From every start, if the two sides have something in common, some run returns an established session |
| `HandshakeStarts.LeftoverAckBreaks` | protocol/handshake.py:186-197 | With an ACK left over, some run returns a session that is not established |
| `HandshakeStarts.LeftoverAgreeBreaks` | protocol/handshake.py:276-299 | With an AGREE left over for a context that still exists, some run does too |
| `HandshakeStarts.LeftoverDiscoverBreaks` | protocol/handshake.py:241-274 | With a DISCOVER left over on which the responder agrees to something else, the two agreements can differ |
| `HandshakeStarts.LeftoverNegotiateBreaks` | protocol/handshake.py:162-184 | With a NEGOTIATE left over whose context agreed to something else, they can differ too |
| `HandshakeStarts.AlwaysKeptIffClean` | protocol/handshake.py:143-299 | For two sides that can connect, all runs keep the promise if and only if earlier runs left none of these four |
| `HandshakeEndpoints.Endpoints.HandleDiscover` | protocol/handshake.py:241-274 | Nothing, a new context with its NEGOTIATE, a REJECT or a TypeError, each exactly when type, lists and shared capabilities say so, and what is sent in each case |
| `HandshakeEndpoints.Endpoints.HandleAgree` | protocol/handshake.py:276-299 | Establishes the context and sends an ACK exactly when type and session id fit; otherwise nothing changes |
| `HandshakeEndpoints.Endpoints.Connect` | protocol/handshake.py:143-197 | Without a NEGOTIATE in any wait it returns None; the first one that a wait brings decides: a TypeError, None if nothing is shared, and otherwise that session with an agreement on its capabilities if and only if the last wait yields an ACK; and from a clean start a returned session is established and agreed |
| `HandshakeEndpoints.PromptExchangeConnects` | protocol/handshake.py:143-197 | For any two sides that share something, after any number of fruitless waits: if the DISCOVER is then handled, its NEGOTIATE arrives, the AGREE is handled and the ACK arrives, `connect` returns that session |
| `HandshakeEndpoints.Endpoints.Recv` | protocol/handshake.py:199-218 | One wait yields the arriving frame if it was sent by then, and nothing otherwise |

## Left out

- Relay.FarEndHearsSubsequence: excludes the bit errors in LEN that pass; for a frame with nothing behind it `Corruption.FlipAccepted` says which those are.
- SelectiveRepeatBytes.ApplicationReceivesPrefix: excludes the same bit errors; its bound on the sends is exact, by `SelectiveRepeatBytes.ApplicationReceivesPrefixIff`.
- RelayAge.AgeLimitIff: asks that a nap be no longer than a pass; otherwise every look may miss the satellite.
- RelayThreads.LEORelay.QueueDrain: with passes shorter than a nap the wait need not end, and is followed only as far as its turn lists looks.
- RelayThreads.LEORelay.Stop: closing the socket and stopping the channel's weather thread are not modelled.
- Relay.Run: reading the clock and enqueueing are one step, so readings follow the order of the steps.
- StopAndWait.TransmissionsAreBounded: a wait may time out at any moment, not only after the timeout; every real run is among the runs of the model.
- Actuator.ActuatorState.Tick: angles are real numbers, so floating-point rounding and NaN are not modelled.
- RateLimit.RateLimiter.Allow: the limit is a whole number; a fractional limit acts as the next whole one.
- Negotiation.Commutes: equality is Python's, in which True equals 1 and False equals 0; which of two equal list elements a set keeps is not modelled.
- Handshake.NegotiateCaps: takes the shared list elements in one order, where the code has the order of a set; the theorems about runs allow all orders.
- HandshakeRuns.SessionIsAgreed: session ids are fresh by assumption (in the code, a hash of names and the time), and JSON payloads are well formed.
- Sockets, thread start and stop, accept loops, logging, the command line and the demo: plumbing.
- JSON encoding, HMAC authentication, `os.urandom` and SHA-256: library behaviour; payloads are values and session ids fresh numbers.
- Latency, jitter, the weather, Doppler shift and attenuation: random or physical quantities; the channel's choices and delays are arbitrary here.
- The turbine's sensor physics, the discovery service's peer registry, the interop beacon, anomaly alerts and the adaptive bitrate: no property beyond what one body says.
- The dispatch of commands after a frame is accepted, and the status frames sent back.
