# A verified model of the relay chain and reassembly sink of `sat-cbr-example`

`sat-cbr-example.cc` is an ns-3 satellite example. In its "full" scenario, a
user behind a UT sends one binary message to the UT. The UT relay
(`UtToGatewayHandler`) forwards every packet to a gateway user. The gateway
relay (`GwToUserHandler`) forwards every packet to a second user behind the same UT.
That user's sink (`UserReceiveHandler`) collects the bytes in one buffer and,
each time the buffer holds 3072 bytes or more, appends the whole buffer to
`output.bin` and clears it. Before any of this, `main` reads the message file,
picks the predefined scenario from its name, and exits with status 1 when the
message is empty or unreadable.

This project models that logic in Dafny and proves its properties:

- `bytes.dfy` (`Bytes`): bytes as `bv8`, concatenation of a chunk list
  (`Flatten`), and the subsequence relation.
- `sink.dfy` (`Sink`): the sink as an immutable state `(buffer, log, total)`.
  `Step` handles one datagram, `Run` folds `Step` over arriving datagrams, and
  `Flushes` lists the flush attempts in order. Whether each write succeeds is an
  input.
- `forwarding.dfy` (`Forwarding`): one relay, with the drain loop as a
  function (`Forward`) and as a method (`HandlePacket`).
- `pipeline.dfy` (`Pipeline`): the four endpoints of the full scenario, the two
  configured relays, the one-shot send, and end-to-end lemmas.
- `direct_sink.dfy` (`DirectSink`): `ReceivePacket`, a per-packet sink that is
  defined but never registered as a callback.
- `startup.dfy` (`Startup`): `ReadBinaryFile`, scenario selection and the
  empty-message exit in `main`.

The sink has three pieces of state: the buffer, which is a function-local
`static` and so shared by every callback; the output file, opened in append
mode; and `total_received_size`. The output file is the `log` field. It may
hold bytes from earlier runs (`Init(prior)`). A receive becomes "the next
payload of an input sequence" and a send becomes "append to an output
sequence".

A failed flush does not keep its bytes for a later attempt: the code clears
the buffer unconditionally after `WriteToFile` (sat-cbr-example.cc:167-169),
whether or not the open succeeded. Bytes handed to a failed write are lost
(`FailedWriteDropsBatch`), so in general the log followed by the buffer is only
a subsequence of the input (`LogAndBufferAreSubsequence`). It equals the input
when every write succeeds (`NoLossWhenWritesSucceed`).

## Model

| member | source | states |
|---|---|---|
| Sink.Init | sat-cbr-example.cc:138-156 | a new handler has nothing buffered and a zero counter, and the bytes it has seen so far are exactly what the append-mode output file already holds |
| Sink.WriteToFile | sat-cbr-example.cc:179-189 | an append-mode write never rewrites the file's existing bytes; a successful write appends exactly the data; a failed open leaves the file unchanged |
| Sink.Step | sat-cbr-example.cc:158-170 | one datagram raises the counter by its length, and afterwards the buffer holds fewer than 3072 bytes |
| Sink.StepEffect | sat-cbr-example.cc:164-185 | after one datagram the buffer is either cleared or grown by exactly the datagram; the log is only ever extended; the log changes only on a successful flush, which empties the buffer; with a successful write, log followed by buffer grows by exactly the datagram |
| Sink.Run | sat-cbr-example.cc:154-173 | after any sequence of datagrams the counter has grown by their total length, and after at least one datagram the buffer holds fewer than 3072 bytes |
| Sink.LogOnlyGrows | sat-cbr-example.cc:167-185 | whatever the datagrams and write outcomes, the file's earlier content stays a prefix of it |
| Sink.FlushBatchesReachThreshold | sat-cbr-example.cc:164-170 | every flush hands at least 3072 bytes to the write, and there is at most one flush per datagram |
| Sink.StepPartition | sat-cbr-example.cc:164-169 | one step splits the old buffer plus the datagram into the flushed batch followed by the new buffer, and the log grows by the batch exactly when the write succeeds |
| Sink.InputIsBatchesThenBuffer | sat-cbr-example.cc:156-170 | the earlier buffer plus all datagrams equals the flushed batches in order followed by the current buffer, so the buffer is always a suffix of the input and batches are contiguous |
| Sink.LogIsCommittedBatches | sat-cbr-example.cc:167-185 | the log grows by exactly the batches whose write succeeded, in order |
| Sink.NoLossWhenWritesSucceed | sat-cbr-example.cc:154-189 | if every write succeeds, log followed by buffer equals the earlier log and buffer followed by every datagram's bytes in arrival order: nothing lost, reordered or duplicated |
| Sink.LogAndBufferAreSubsequence | sat-cbr-example.cc:164-185 | whatever the write outcomes, log followed by buffer is a subsequence of the earlier log and buffer followed by all datagrams |
| Sink.FailedWriteDropsBatch | sat-cbr-example.cc:167-182 | a flush whose open fails leaves the log unchanged and still clears the buffer, losing that batch |
| Sink.BufferIgnoresWriteOutcomes | sat-cbr-example.cc:167-170 | the buffer and the bytes handed to flushes do not depend on whether the writes succeed |
| Sink.RunSplit | sat-cbr-example.cc:154-158 | because the buffer and counter persist across callbacks, handling two batches of datagrams in two callbacks is the same as handling them in one |
| Sink.NoFlushBelowThreshold | sat-cbr-example.cc:164-170 | while buffered bytes stay below 3072 there is no flush, the log is untouched and the buffer is everything received |
| Sink.CrossingFlushesOnce | sat-cbr-example.cc:164-170 | datagrams that keep the buffer below 3072 until the last one, which reaches it, cause exactly one flush, after the last datagram, writing the whole buffer and leaving it empty |
| Sink.ExactThresholdFlushesOnce | sat-cbr-example.cc:164-170 | from an empty buffer, datagrams whose total first reaches exactly 3072 with the last one cause no flush after any earlier datagram and one flush after the last, of all 3072 bytes, leaving the buffer empty; the file gains those bytes when that write succeeds and nothing when it fails |
| Sink.WholeBufferIsFlushed | sat-cbr-example.cc:164-169 | one 5000-byte datagram into an empty buffer is appended whole, all 5000 bytes, and leaves the buffer empty |
| Sink.HandlePacket | sat-cbr-example.cc:154-173 | the drain loop computes `Run`; the counter grows by the bytes received; after any datagram the buffer holds fewer than 3072 bytes; with successful writes nothing is lost |
| Forwarding.Forward | sat-cbr-example.cc:93-102 | a relay makes one send per received packet, in receive order, from its own node to its next hop on its port, payload unchanged; zero packets give zero sends |
| Forwarding.PayloadsOfForward | sat-cbr-example.cc:119-125 | the next hop receives exactly the packets the relay received |
| Forwarding.ForwardSplit | sat-cbr-example.cc:91-103 | packets drained over two callbacks are forwarded as if drained in one |
| Forwarding.HandlePacket | sat-cbr-example.cc:117-126 | the drain loop sends exactly `Forward`'s sends: as many as packets received, none for none |
| Pipeline.UtToGatewayForwardsEach | sat-cbr-example.cc:86-103 | the UT relay sends each packet once, unchanged and in order, from the UT to the gateway user on port 9 |
| Pipeline.GwToUserForwardsEach | sat-cbr-example.cc:112-126 | the gateway relay sends each packet once, unchanged and in order, from the gateway user to the receiving user on port 9 |
| Pipeline.ChainIsTransparent | sat-cbr-example.cc:283-292 | the two relays in a row deliver to the sink exactly the packets that reached the UT |
| Pipeline.EndToEndNoLoss | sat-cbr-example.cc:283-298 | with successful writes, the sink's log followed by its buffer is the file's earlier content followed by the bytes of every packet that reached the UT, in order, however they were chunked |
| Pipeline.ScheduledMessageReachesFile | sat-cbr-example.cc:274-279 | the message `main` schedules reaches the sink as one datagram; at 3072 bytes or more, with a successful write, it is written whole and the buffer is left empty; below that it stays in the buffer and never reaches the file |
| Pipeline.FourKiBMessage | sat-cbr-example.cc:164-170 | a 4096-byte message arriving in one datagram is written by one flush; arriving as 3072 then 1024 bytes, one flush writes 3072 bytes and the last 1024 stay unflushed |
| DirectSink.ReceivePacket | sat-cbr-example.cc:53-72 | the unbuffered sink leaves the file as its earlier content followed by exactly the packets whose open succeeded, each whole and in arrival order; a failed open skips just its packet |
| DirectSink.ReceivePacketAllWritten | sat-cbr-example.cc:53-72 | with successful opens the unbuffered sink appends every packet to the file, whole and in order |
| DirectSink.ReceivePacketAppends | sat-cbr-example.cc:61-63 | the unbuffered sink only appends: the file's earlier content stays in front, and what the packets add does not depend on it |
| DirectSink.ReceivePacketSubsequence | sat-cbr-example.cc:61-68 | whatever the open outcomes, the file is a subsequence of its earlier content followed by all packets: bytes may be skipped, never reordered or duplicated |
| DirectSink.AgreesWithBufferedSink | sat-cbr-example.cc:53-72 | with successful opens, the unbuffered sink's file equals the buffered sink's file followed by its buffer: the two differ only in when bytes reach the file |
| Startup.Start | sat-cbr-example.cc:205-279 | the exit status is 1 exactly when the message file is unreadable or empty, and 0 otherwise; an abort builds no scenario and schedules no send; otherwise FULL runs exactly when `--scenario` is absent or "full", LARGER exactly when it is "larger", SIMPLE for every other name; a send is scheduled exactly when FULL runs, and it carries the whole file |
| Startup.DefaultRunSendsMessage | sat-cbr-example.cc:205-279 | with no scenario argument and a non-empty file, the full scenario runs and sends the message |

## Left out

- ns-3 sockets, `Simulator::Schedule`, `SatHelper`, `SimulationHelper` and scenario construction are a framework not part of this model. Delivery between bound sockets is taken as reliable and in order.
- `GetUserAddress` address resolution is left out: a relay's next hop is the node itself, not its resolved IP address.
- The directory check and `mkdir` in the sink's constructor (sat-cbr-example.cc:140-151) and `LogFileSize` (sat-cbr-example.cc:191-198) are left out because they only log or create the directory; whether later opens succeed is the `writeOk` input.
- `CommandLine` parsing is left out except the default scenario name. So are `beamIdInFullScenario`, `packetSize`, `interval`, the simulation time, the output tag and every `NS_LOG_*`/`LogComponentEnable` call, because none of them affects the modelled logic. The 2-second send offset is left out for the same reason.
- Sink.WriteToFile: `writeOk` stands for the open and the write both succeeding. The code checks only the open; a short write after a successful open (a full disk, say) is not checked by the code and not modelled, so such a write's partial batch is not represented.
- DirectSink.ReceivePacket: the same holds for its per-packet write (sat-cbr-example.cc:61-64): an open outcome is modelled, a partial write is not.
- The handler objects' lifetime is not modelled. In the code, `utHandler`, `gwHandler` and `userReceiveHandler` are locals of the `if (scenario == "full")` block (sat-cbr-example.cc:283, 289, 295). Their addresses are bound into the receive callbacks (sat-cbr-example.cc:286, 292, 298), and the objects are destroyed when the block ends (sat-cbr-example.cc:301), before `RunSimulation` (sat-cbr-example.cc:311). Every callback therefore runs on a destroyed object, and the counter update (sat-cbr-example.cc:161) writes to dead storage, which has no defined result. `Pipeline` and `Sink` model the handlers as if they stayed alive for the whole simulation.
- Sink.Step: requires a datagram of at most 10000 bytes. `CopyData` writes into a 10000-byte stack array (sat-cbr-example.cc:159-160), and a larger packet overruns it, which has no defined result to model.
- DirectSink.ReceivePacket: requires packets of at most 1024 bytes. This is the size of its stack array (sat-cbr-example.cc:56-57), so the same overrun applies.
- Sink.Run: the counter `total_received_size` is a `size_t`. It is modelled as an unbounded `nat`, so wrap-around after 2^64 bytes is not modelled.
- Forwarding.Forward: a send whose socket fails is not modelled. The code ignores `Send`'s result, so every received packet counts as sent.
- Reading the message is all or nothing. A read error partway through the file is not modelled.
- The scenarios "simple" and "larger" build a topology but wire no relays and schedule no send. The model records only the selected scenario for them.
- Shutdown is not an operation. Bytes left in the buffer when the simulation ends are never flushed, as in the code. `Pipeline.FourKiBMessage` shows such a residue.
