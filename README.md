# Go-Back-N file transfer over UDP, modelled in Dafny

The system is a small ARQ exercise. A server splits a file into datagrams
with a 4-byte header and keeps a per-client Go-Back-N session. A client
receives the datagrams, runs each one through a corrupter ("gremlin"),
verifies a 16-bit checksum and reassembles the payloads into a file
buffer. A command-line front end picks the mode and the settings.

The model follows the Java code as written, file by file:

- `java_lang.dfy` (`JavaLang`) holds the Java semantics the others need:
  - signed bytes and shorts as integer subtypes, with the narrowing casts `(byte)` and `(short)`;
  - truncating `%` and the `(int)` cast of a double;
  - the plain signed-byte sum;
  - `System.arraycopy` and `Arrays.copyOfRange`.
- `server.dfy` (`UdpServer`) models the sending side:
  - the checksum loop and the big-endian `shortToByte`;
  - the `Packet` constructor;
  - the `GoBackNThread` session: `enqueue`, one pass of `run`'s transmission loop, the completion step and `serve`'s order of enqueues;
  - the registry lookup-or-insert `createClientThread`.
- `client.dfy` (`UdpClient`) models the receiving side:
  - `parseShort` and `verifyChecksum`;
  - the clipped in-place `reassemble`;
  - the receive loop of `get`. It is a class whose methods update the fields in place, proved against `StepSpec`/`Run`, which are functions of the client's state.
- `gremlin.dfy` (`Impairment`) models the corrupter:
  - the clamp of the damage chance;
  - `touchPacket`, with the index-drawing retry loop and the in-place increments.
- `main.dfy` (`CommandLine`) models `parseCommandArgs`, the one-pass tokenizer into a map from option to values, and the defaults of `initClient` and `initServer`.

Several details of the code are modelled as they are, not as the comments suggest:

- `Packet.sequence` is never assigned, so it is always 0. `enqueue` therefore passes 0 for the first packet and 1 for every later one, and the header carries wire sequence 1, then 2, 2, 2, and so on (`UdpServer.WireSequenceAt`).
- The window store `window[packet.sequence]` always goes to slot 0.
- `compiled = data`: the socket is handed the raw payload array, not the header-bearing `buffer`.
- `serve` enqueues its one shared read buffer after every read, so every data packet aliases it.
- The server's packet frames are 512 bytes, the client's and the corrupter's 128.
- Nothing ever sets `hasCompletedTransmission` to true (its only write is the `false` in the session's constructor), so the removal branch of `FinishIfCompleted` never runs in the program as written.
- The checksum is a two's-complement sum of signed bytes, wrapped into a `short`.
- `Math.random()`, the clock and the transport's success are parameters. An `Arrival` carries a datagram's bytes together with the rolls the corrupter draws for it.

## Model

| member | source | states |
|---|---|---|
| UdpServer.Checksum | src/Server.java:92-98 | The result is the sum of `arr[0..dataLength)` as signed bytes, wrapped into a short. Wrapping at every step equals wrapping once at the end. A negative length sums nothing. |
| JavaLang.ToShortAbsorbs | src/Server.java:94-96 | Narrowing the running sum to a `short` after every addition gives the same value as narrowing the full sum once. |
| UdpServer.ShortToByte | src/Server.java:105-108 | `arr[offset]` gets the high byte and `arr[offset+1]` the low byte of `value`. Every other element is unchanged. |
| UdpServer.FrameLayout | src/Server.java:221-230 | A packet frame is 512 bytes long. Bytes 4 to 4+\|data\| hold the payload and the rest are zero. |
| UdpServer.Packet.constructor | src/Server.java:221-230 | The `checksum` field is the checksum of `data`. `buffer` is the frame of that checksum, the wire sequence `(short)(sequence + 1)` and `data`. `compiled` is `data` itself. The packet starts not in transit, with `sent` = 0. |
| UdpServer.SequenceArgument | src/Server.java:134-135 | The sequence `enqueue` passes lies in [0, 64). It is 0 for an empty queue and 1 otherwise, since every stored `sequence` is 0. |
| UdpServer.GoBackNThread.constructor | src/Server.java:120-131 | A new session has an empty queue and an empty window of 32 slots. It is running and not yet complete. |
| UdpServer.GoBackNThread.QueueDistinct | src/Server.java:133-137 | A session's queue never holds the same packet twice. |
| UdpServer.GoBackNThread.Enqueue | src/Server.java:133-137 | Exactly one fresh packet is appended and earlier entries are unchanged. The new packet's frame carries the checksum of the data and wire sequence 1 at position 0, 2 elsewhere. |
| UdpServer.GoBackNThread.Send | src/Server.java:158-169 | `sent` is stamped first. The packet becomes in transit only if the transport accepts it. A refusal exits with status 500 and leaves `inTransit` as it was. |
| UdpServer.GoBackNThread.TransmitPass | src/Server.java:141-149 | The queue is unchanged. Every packet not in transit before the refusal point is stamped and marked in transit, in queue order. Packets already in transit are untouched. The pass stops at the first pending packet the transport refuses. The window ends holding the last packet sent, in slot 0. |
| UdpServer.GoBackNThread.TransmitAt | src/Server.java:143-147 | One iteration: a pending packet is sent and stored in the window, and a packet in transit is skipped. The run of stamped packets grows by one. |
| UdpServer.RefusedExactly | src/Server.java:143-147 | A pass reports a refusal below position n exactly when some packet below n was pending and the transport refused it. |
| UdpServer.GoBackNThread.FinishIfCompleted | src/Server.java:151-154 | Once transmission is complete, the session is removed from the registry (first occurrence) and stops running. Otherwise nothing changes. |
| UdpServer.Server.CreateClientThread | src/Server.java:83-90 | Returns the first session whose address is the same object, leaving the registry unchanged. Otherwise it appends exactly one new session for that address and returns it. |
| UdpServer.FirstSessionFor | src/Server.java:84-86 | The position of the first session with an identical address, or -1 when no session has it. |
| UdpServer.AfterRead | src/Server.java:197 | A read puts the chunk at the front of the buffer and leaves the rest as it was. |
| UdpServer.ReadInto | src/Server.java:197 | The buffer after `read` is `AfterRead` of the old contents and the chunk. |
| UdpServer.ReadStatesAt | src/Server.java:194-199 | After read j, the shared buffer holds chunk j followed by leftovers of the earlier reads. |
| UdpServer.GoBackNThread.ReadAndEnqueue | src/Server.java:197-198 | One read into the shared buffer, then one packet appended that aliases the buffer and carries its current contents. |
| UdpServer.GoBackNThread.ReadAll | src/Server.java:197-199 | One packet per chunk, in order. Each aliases the shared buffer and carries the buffer's contents right after its read. |
| UdpServer.GoBackNThread.Serve | src/Server.java:188-200 | One data packet per chunk, in order: packet k carries the shared buffer's contents right after read k. After the chunk packets, the last packet enqueued is the one-byte terminator `{0}`. Earlier queue entries are unchanged. All data packets share one `compiled` array. |
| UdpClient.ParseShortBytes | src/Client.java:182-184 | `shortToByte` of `parseShort(arr, offset)` gives back `arr[offset]` and `arr[offset+1]`. |
| UdpClient.ParseShortOfShortToByte | src/Client.java:182-184 | `parseShort` of the two bytes `shortToByte` wrote for v returns v. |
| UdpClient.VerifyChecksum | src/Client.java:193-199 | True exactly when the wrapped signed-byte sum of the payload equals the checksum. So a payload always verifies against the value `checksum` computed for it. |
| JavaLang.SignedSumPermutation | src/Client.java:195-197 | Two byte sequences that are permutations of each other have the same signed sum. |
| UdpClient.VerifyIgnoresOrder | src/Client.java:195-197 | A permutation of a payload verifies against a checksum exactly when the payload does. |
| UdpClient.BumpedSum | src/Gremlin.java:72-74 | Raising k bytes by one, with wrap-around, moves the plain sum by k minus 256 for each byte that wrapped. |
| UdpClient.ChecksumShift | src/Client.java:193-199 | Two byte strings whose sums differ by k in [1, 255], modulo 256, have different checksums. |
| UdpClient.CorruptionDetected | src/Gremlin.java:72-74 | Raising 1 to 255 distinct bytes of a payload always changes its checksum. |
| UdpClient.CorruptedPayload | src/Gremlin.java:60-74 | Corrupting payload positions only keeps the 4 header bytes and changes the payload's checksum. |
| UdpClient.ReassembleThrowsExactly | src/Client.java:170-173 | The copy in `reassemble` throws exactly when the slot starts before the buffer or past its end, the length is negative, or the clipped length exceeds the source. |
| UdpClient.ReassembleInBounds | src/Client.java:166-173 | With sequence ≥ 1, offset `(sequence-1)*124` ≤ the buffer's length and a length the payload holds, the copy does not throw and the offset is `(sequence-1)*124`. |
| UdpClient.ReassembledWindow | src/Client.java:166-174 | Exactly `min(len, capacity - offset)` bytes of the payload land at the offset, never past the buffer's end. Every byte outside that window is unchanged. |
| UdpClient.ReassembleIdempotent | src/Client.java:166-174 | Reassembling the same payload twice leaves what reassembling it once left. |
| UdpClient.Client.Reassemble | src/Client.java:166-174 | Reports a throw exactly when `ReassembleThrows` holds, leaving the buffer unchanged. Otherwise the buffer becomes `Reassembled`. |
| JavaLang.ArrayCopy | src/Client.java:173 | `System.arraycopy`: the destination window receives the source range and nothing else changes. |
| JavaLang.CopyOfRange | src/Client.java:93 | `Arrays.copyOfRange`: a fresh array of length `to - from` holding the source range, zero-padded past the source's end. |
| UdpClient.Received | src/Client.java:88 | After `receive`, the buffer holds the datagram's bytes up to its size and the old contents behind them. |
| UdpClient.Client.Receive | src/Client.java:88 | `receive` keeps at most the packet's length in bytes and sets the length to the number kept. |
| UdpClient.Client.constructor | src/Client.java:58-68 | A zeroed 128-byte receive buffer, a corrupter with the clamped chance, and both counters at zero. |
| UdpClient.StepSpec | src/Client.java:87-106 | One pass of `get`'s loop never changes the file buffer's length. A pass that goes on leaves a full 128-byte packet to receive into. |
| UdpClient.Consumed | src/Client.java:93-105 | The second half of a pass keeps the file's length. Going on means a fresh 128-byte packet. |
| UdpClient.StepCounters | src/Client.java:89-103 | The loop stops exactly when byte 0 is zero, and then counts and writes nothing. A pass that goes on counts exactly one datagram. `packetsReceived` rises by at most one and `checksumErrors` by at most as much, so `0 ≤ checksumErrors ≤ packetsReceived` is preserved. |
| UdpClient.TerminatorIsChecksumHighByte | src/Client.java:89 | A header-bearing frame ends the transfer exactly when its checksum lies in [0, 256), because byte 0 is the checksum's high byte. |
| UdpClient.CleanDatagramDelivered | src/Client.java:90-104 | For an undamaged full datagram whose slot starts inside the file, the loop goes on and counts it. It counts an error exactly when the header checksum mismatches the 124 payload bytes. The payload is written, clipped, at `(seq-1)*124`, and the rest of the file is unchanged. |
| UdpClient.CorruptedDatagramCounted | src/Client.java:92-102 | A full datagram carrying the right checksum is always counted as a checksum error once the corrupter damages it. |
| UdpClient.Client.ReceiveStep | src/Client.java:88-105 | The pass updates the fields exactly as `StepSpec` says. It keeps the buffers and the packet wrapping the receive buffer. |
| UdpClient.Client.Consume | src/Client.java:93-105 | `copyOfRange`, `verifyChecksum`, the counters and `reassemble` update the fields exactly as `Consumed` says. |
| UdpClient.Run | src/Client.java:87-106 | The loop uses at most all arrivals. It only stops early on a pass that does not go on, and going on means every arrival was used. |
| UdpClient.RunStep | src/Client.java:87-106 | One pass carries the loop's correspondence with `Run` to the next arrival, or ends the run there. |
| UdpClient.RunCounters | src/Client.java:87-106 | Over the whole loop `0 ≤ checksumErrors ≤ packetsReceived` is kept and at most one datagram is counted per arrival. The file keeps its length. |
| UdpClient.Client.ReceiveAll | src/Client.java:87-106 | The `while (true)` loop leaves the state, outcome and number of arrivals used that `Run` gives. |
| UdpClient.Client.Get | src/Client.java:80-106 | A negative file length throws before anything changes. Otherwise, after allocating zeroed buffers, the loop behaves as `Run` from that start. |
| Impairment.Gremlin.constructor | src/Gremlin.java:25-35 | The stored chance is the argument clamped to [0, 1]. |
| Impairment.Clamp | src/Gremlin.java:25-35 | The clamped chance lies in [0, 1]. |
| Impairment.ClampNearest | src/Gremlin.java:25-35 | A chance already in [0, 1] is kept. Otherwise the nearest end is taken. |
| Impairment.NumChanges | src/Gremlin.java:52-59 | One to three changes. |
| Impairment.NumChangesAntitone | src/Gremlin.java:52-59 | A lower second roll never asks for fewer changes. |
| Impairment.IndexFromRollRange | src/Gremlin.java:62 | A roll in [0, 1) picks an index in `[4, length)` when the datagram is longer than its header. |
| Impairment.FirstOccurrencesSpec | src/Gremlin.java:61-71 | The indices the retry loop keeps are distinct and are exactly the candidate values. |
| Impairment.Repeats | src/Gremlin.java:63-70 | The inner loop finds a repeat exactly when the new index occurs among the earlier slots. |
| Impairment.ChooseIndices | src/Gremlin.java:60-71 | The retry loop fills the slots with the first `numChanges` distinct candidates, in order. It reports rolls running out exactly when fewer distinct candidates exist. |
| Impairment.Increment | src/Gremlin.java:73 | `(byte)(b + 1)` always differs from b and wraps 127 to -128. |
| Impairment.BumpedAt | src/Gremlin.java:72-74 | With distinct indices, each listed byte is raised exactly once and every other byte is unchanged. |
| Impairment.BumpedChangesExactly | src/Gremlin.java:72-74 | With distinct indices, exactly `numChanges` positions differ afterwards. |
| Impairment.IncrementAt | src/Gremlin.java:72-74 | The increment loop raises the listed bytes in place, in order, up to the first index outside the array, where it throws. |
| Impairment.DecideFits | src/Gremlin.java:72-74 | Every position the corrupter raises lies inside the backing array. |
| Impairment.DecideShape | src/Gremlin.java:42-79 | Nothing changes for the terminator array `{0}`, a zero chance or a first roll above the chance. A corruption picks `NumChanges` distinct indices inside the array, never in the header when the datagram is longer than 4 bytes. An index outside the array needs a backing array of at most 4 bytes. |
| Impairment.Datagram.SetData | src/Gremlin.java:75 | `setData` makes the whole array the datagram. |
| Impairment.Gremlin.TouchPacket | src/Gremlin.java:42-79 | Returns the same packet with the same array, changed in place. A corruption raises exactly the chosen indices and sets the length to the array's. Otherwise the bytes and length are unchanged, or only the prefix before an out-of-range index is raised. |
| CommandLine.Stop | src/Main.java:105-118 | The first argument where parsing stops: an empty argument, a lone `-`, or a value before any option. |
| CommandLine.Scan | src/Main.java:105-114 | After any argument there is a current option, and it is a key of the map. |
| CommandLine.ParseCommandArgs | src/Main.java:102-121 | Throws exactly when the argument where parsing stops is empty. Otherwise it returns the map of the arguments before that point. A value before any option gives the empty map. |
| CommandLine.ScanKeys | src/Main.java:111-112 | The keys are exactly the names of the dash arguments read. |
| CommandLine.ScanCurrent | src/Main.java:111-114 | Values go to the option read last. |
| CommandLine.ScanValues | src/Main.java:105-120 | An option's list holds, in order, the values after its last occurrence, up to the next option. Earlier lists under the same key are replaced. |
| CommandLine.InitClient | src/Main.java:48-73 | Each absent option takes its default: port 10036, host "localhost", gremlin 0.0, "TestFile.html", "reassembled.html". A present option takes its first value, parsed. An option with no values or an unparsable number throws. |
| CommandLine.InitServer | src/Main.java:81-94 | Port and host as `initClient` reads them, with the same defaults. |

## Left out

- Sockets, threads, the clock and `Math.random()` are not modelled. Transport success, timestamps and rolls are parameters. `listen`, `sendGetRequest`, `receiveGetResponse`, the HTTP/1.0 response text and the output file are not part of this model.
- The `while (isRunning)` busy loop of `run` is modelled as one pass (`TransmitPass`) plus the completion step (`FinishIfCompleted`).
- Console output, `System.exit` other than as an outcome, and the printed floating-point error rate are not modelled.
- `main`'s dispatch on the `run` option is not modelled.
- Counters are unbounded integers. Java's `int` would wrap after 2^31 datagrams.
- UdpServer.Packet.constructor: requires at most 508 payload bytes. A longer array makes `System.arraycopy` throw, and `serve` never passes one.
- UdpServer.GoBackNThread.Serve: takes a fresh one-byte terminator array where the source shares the static `TERMINATOR`. It requires every chunk to be non-empty, as `FileInputStream.read` guarantees for a non-empty buffer.
- UdpServer.GoBackNThread.TransmitPass: the order of the send calls on the transport is not recorded. Only the fields, in queue order, and the window are stated.
- UdpServer.Packet.constructor: `buffer` is kept as the value the constructor leaves in it. No code writes it afterwards.
- Impairment.Gremlin.TouchPacket: the rolls are a finite list. Where the retry loop would keep drawing, the model stops with `OutOfRolls`, which the receive loop reports as `Stalled`.
- Impairment.IncrementAt: works on a sequence of indices rather than the `int[]` the source allocates.
- Impairment.Gremlin.TouchPacket: the terminator test compares the whole backing array with `{0}`. On the client's 128-byte buffer it never fires, and `DecideShape` states this condition exactly.
- UdpClient.Run: running out of arrivals means the loop is waiting in `receive`. It is reported as `Continue`.
- UdpClient.Client.constructor: the file buffer starts as an empty array and `receivePacket` as a datagram over the receive buffer, where the source leaves both `null`. `get` allocates both before use, so nothing observable depends on the initial values.
- UdpClient.Client.ReceiveStep: the pass is split into `ReceiveStep` and `Consume` to keep the proof small.
- UdpClient.Client.Get: the announced file length is a parameter, because the HTTP response it is parsed from is not modelled.
- The server's datagrams carry `compiled`: up to 508 bytes of the shared read buffer, or the one-byte terminator. The client receives into 128 bytes, so `receive` truncates, and `Received` models that truncation.
- The server hands `compiled`, the raw payload, to the socket. The client therefore reads payload bytes where it expects the header. The receiver lemmas hold for any datagram. `TerminatorIsChecksumHighByte` states what would happen with header-bearing frames.
- CommandLine.InitClient: `Integer.parseInt` and `Double.parseDouble` are parameters that return `None` where Java throws. NaN and double rounding are not modelled.
- Doubles (the damage chance and the rolls) are modelled as exact reals.
