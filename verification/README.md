# ZCMesh: verified model of the frame path

ZCMesh carries fixed 24-byte, CRC-protected telemetry frames from a C++ edge to an operator. The
edge batches frames over TCP, fails over to a UDP mesh, the frames pass through hops that stamp or
lose them, and a stream decoder at the far end (one in C++, one in Java) finds them again, counts
what is missing, and writes or replays `.zcm` captures.

This project models that path, function by function, and proves what it promises over all inputs
and all runs. Objects that the source updates in place (the CRC table, the stream decoder, the
batch slab, the TCP client, the gate, the router, the ring, the analysers, the writers, the main
loop) are classes whose methods are proved equal to specification functions on values; the
theorems are about those functions. Sockets are oracles: the k-th send may accept any part of what
it is offered, stall or fail; connects, forwards and datagrams may be refused; clock readings are
inputs. Files are byte sequences. What an accepting connection took is kept as one byte log per
connection and is assumed to arrive.

| file | source | main results |
|---|---|---|
| `Bytes.dfy` | fixed-width little-endian fields | number/byte round trips |
| `Crc32.dfy` | `frame.cpp` | table form equals the bit-serial CRC-32 of section 8 of RFC 1952; every burst of up to 32 bits is detected |
| `WireFrame.dfy` | `frame.cpp`, `wire_frame.h` | pack/verify/stamp, corruption of a valid frame never verifies |
| `KnownFrames.dfy` | `WireFrameGolden.java`, `test_frame.cpp` | the published check value, the frame both languages compare with and a capture header, byte for byte |
| `StreamScan.dfy` | what a stream means | conservation, independence of chunking, greedy leftmost, resynchronisation |
| `Capture.dfy`, `CaptureFile.dfy` | `capture.cpp` | the in-place decoder refines the scan; closed captures are accepted |
| `FrameReceiver.dfy`, `Decoders.dfy`, `ScanCounts.dfy` | `FrameReceiver.java`, `capture.cpp` | the Java decoder against the C++ one, with the exact condition on the bytes for equal resync counts; every count said of the bytes alone |
| `Analyze.dfy`, `TelemetryPipeline.dfy`, `WireRecord.dfy` | `zcm_analyze.hpp`, `TelemetryPipeline.java`, `WireFrame.java` | live and offline analysis agree; what gaps and holes mean |
| `FrameBatch.dfy`, `Uplink.dfy`, `FlushProgress.dfy` | `batch.cpp`, `main.cpp` | send cursor, retries, reconnect gate, four transports; exactly which socket answers let a flush through |
| `AutoLedger.dfy`, `TcpStream.dfy` | whole uplink runs | exactly-once ledger for Auto, conservation and exact losses for TCP-only |
| `EdgeLoop.dfy`, `EdgeSamples.dfy`, `EdgeBooks.dfy`, `EdgeToOperator.dfy`, `OperatorReport.dfy` | the edge's main loop | every frame carries the input of its own pass; every batch is counted by its verdict; every sequence number in exactly one place, from the loop to the receivers and the operator's gap counter |
| `Router.dfy`, `MeshFlush.dfy` | `router.cpp`, `main.cpp` | laws of `forward_udp`, probe spacing, recovery of the preferred hop; which hop took which frame of a run |
| `RingSteps.dfy`, `RingOrder.dfy`, `RingRaces.dfy`, `RingCalls.dfy`, `FrameRing.dfy` | `FrameRing.java` | all interleavings of the two threads: each frame in one place, the order kept and when it breaks; whole calls as a drop-oldest queue |
| `HopLoss.dfy`, `LossRate.dfy` | `hop.cpp` | loss stages do not compound; reported gaps are the dropped numbers; how many of all numbers each percentage drops |
| `ZcmFile.dfy`, `Inspect.dfy`, `ReportMeaning.dfy`, `ZcmWriter.dfy`, `Replay.dfy` | the `.zcm` tools | acceptance, writer round trip, exact replay time, what a replayed connection decodes to |
| `Basics.dfy` | | options, minimum and maximum |

`dafny verify dfyconfig.toml` checks everything.

## What turned out not to hold

- The two decoders do not report the same resync count: the Java one throws away bytes in the branch
  where no magic is left without counting them. The counts are equal if and only if at the end of no
  chunk the last 24 bytes received carry no magic and start inside no decoded frame
  (`Decoders.SameResyncWhen`); `Decoders.JavaCountDependsOnChunking` is a stream whose Java count
  depends on how it is cut.
- An overwrite in the middle of a poll puts the ring's books out, and only such an overwrite does
  (`RingSteps.AccountingExactlyWithoutRaces`); it need not disturb the order
  (`RingRaces.RaceWithoutHarm`). The order stays as long as no frame is stored over one still to be
  taken out (`RingOrder.TimelyRunIsFifo`), and the first such store breaks it: the producer's store is
  harmless if and only if the frame that lay in its slot has been taken out or dropped
  (`RingRaces.StoreHarmlessExactly`). `RingRaces.RaceBreaksFifo` is a run that delivers frame 2 before
  frame 1.
- An overwrite begins with exactly the capacity in the ring only while no race has happened
  (`RingCalls.QuietOverwritesExactlyFull`); in general with at least that
  (`RingCalls.OverwritesOnlyWhenFull`), and `RingRaces.RaceOverfills` is a run in which a ring of two
  reports three and overwrites from there.
- `discard_fully_sent` does not reset an offset of 1 to 23 bytes, although its header comment
  (`core-engine/include/batch.hpp:46`) says the offset becomes 0; the model follows the code
  (`FrameBatch.DiscardKeepsUnsent`).
- Reconnecting in TCP-only mode loses the frame a connection boundary cuts, and no other
  (`TcpStream.LostExactlyCut`); `TcpStream.ReconnectCanLoseFrame` is a run that loses its only frame.
- Replay takes the capture's own time if and only if no two neighbours are more than a second
  apart (`Replay.ReplayTakesCaptureTime`); `Replay.ReplayCanRunShort` is a capture of two seconds
  replayed in one.
- A loss percentage between 1 and 99 does not lose that share of the sequence numbers: taken over all 2^32
  of them 50 percent drops 150 of every 256. `LossRate.DropRate` has the exact number for each
  percentage, `LossRate.DropRateIsPercent` that only 0 and 100 are exact.
- A `.zcm` file that was never closed is accepted by the inspector as an empty capture
  (`ZcmWriter.OpenFileLooksEmpty`).

## Model

| member | source | states |
|---|---|---|
| Bytes.LittleEndianRoundTrip | shared/wire_frame.h:9-21 | reading back a little-endian field of n bytes gives the number written, if it fits |
| Bytes.FromLittleEndianRoundTrip | shared/wire_frame.h:9-21 | writing back a number that was read reproduces its bytes |
| Crc32.BitStepLinear | core-engine/src/frame.cpp:15-17 | one step of the reflected shift register is linear over xor |
| Crc32.BitStepInjective | core-engine/src/frame.cpp:15-17 | one step is injective |
| Crc32.TableStep | core-engine/src/frame.cpp:32 | eight bit steps are one table lookup on the low byte xored with the register shifted down |
| Crc32.RegisterOfByte | core-engine/src/frame.cpp:31-33 | feeding a byte bit by bit is eight steps on register xor byte |
| Crc32.RegisterOfFourBytes | core-engine/src/frame.cpp:31-33 | feeding four bytes bit by bit is 32 steps on register xor the little-endian word |
| Crc32.RegisterLinear | core-engine/src/frame.cpp:25-35 | the difference of two registers is the register of the difference of their inputs |
| Crc32.BurstDetected | core-engine/src/frame.cpp:25-35 | two different bit strings that agree outside 32 consecutive bits leave different registers, from any start |
| Crc32.ByteBurstDetected | core-engine/src/frame.cpp:25-35 | two different equally long byte strings that agree outside four consecutive bytes have different check values |
| Crc32.CrcTable.Init | core-engine/src/frame.cpp:12-21 | every entry of the table is eight bit steps of its index |
| Crc32.CrcTable.Compute | core-engine/src/frame.cpp:25-35 | the table loop computes the bit-serial CRC-32 of every byte string and seed, building the table on first use |
| WireFrame.MagicIsField | core-engine/src/frame.cpp:58 | the two magic bytes are there exactly when the 16-bit field equals 0x5A43 |
| WireFrame.ChecksumIsResidue | core-engine/src/frame.cpp:61-62 | the checksum matches if and only if the register over all 24 bytes ends at one fixed residue |
| WireFrame.FrameBurstDetected | core-engine/src/frame.cpp:57-63 | no change of a valid frame inside 32 consecutive bits, payload or checksum, verifies |
| WireFrame.FrameBytesDetected | core-engine/src/frame.cpp:57-63 | no change of a valid frame inside four consecutive bytes verifies |
| WireFrame.PackRoundTrip | core-engine/src/frame.cpp:37-49 | a packed sample verifies and every field reads back, the timestamp modulo 2^32 |
| WireFrame.HopStampKeeps | core-engine/src/frame.cpp:65-79 | stamping a valid frame leaves it valid, raises the hop index up to 255, sets LAST_HOP as asked and keeps every other field |
| WireFrame.PackFrameInto | core-engine/src/frame.cpp:37-49 | the 24 bytes written in place are the packed frame |
| WireFrame.ApplyHopStamp | core-engine/src/frame.cpp:65-79 | the in-place stamp is HopStamp; a null frame is left alone |
| WireFrame.Verify | core-engine/src/frame.cpp:57-63 | the table-driven check decides VerifyFrame |
| KnownFrames.CheckValue | core-engine/src/frame.cpp:25-35 | with the program's seed the check value of the digits one to nine is 0xCBF43926 and that of nothing is 0 |
| KnownFrames.KnownFramePacks | core-engine/src/test_frame.cpp:18-47 | packing the sample both languages' tests use gives exactly the 24 bytes they compare with, checksum 0xFDEC8489; it verifies, decodes to its fields and encodes back |
| KnownFrames.KnownHeader | shared/zcm_file.h:9-26 | the 16 bytes of the header of a capture of one frame |
| StreamScan.Conservation | core-engine/src/capture.cpp:82-114 | 24 * frames + resync + leftover = bytes received, leftover at most 23 and a suffix, drops at most resync, all frames verify |
| StreamScan.ScanAppend | core-engine/src/capture.cpp:341-342 | scanning a stream is scanning a first part, then the leftover with the rest |
| StreamScan.ChunkingIrrelevant | core-engine/src/capture.cpp:320-343 | any way of cutting a stream into chunks gives the outcome of one call on the whole |
| StreamScan.PositionsGreedy | core-engine/src/capture.cpp:62-114 | a greedy leftmost non-overlapping choice of verifying windows exists for every stream |
| StreamScan.GreedyUnique | core-engine/src/capture.cpp:62-114 | it is the only one |
| StreamScan.ScanIsGreedy | core-engine/src/capture.cpp:62-114 | the scanner's frames are exactly the windows of that choice |
| StreamScan.CleanStream | core-engine/src/capture.cpp:82-114 | valid frames and a short tail decode to exactly those frames with nothing skipped |
| StreamScan.Resynchronises | core-engine/src/capture.cpp:82-114 | garbage in which no window starts to verify, then valid frames: exactly those frames, resync equal to the garbage length |
| ScanCounts.ScanCountsAre | core-engine/src/capture.cpp:82-114 | drops is the number of magic positions with room for a window and outside every decoded frame; what is kept back is what follows the last frame, up to 23 bytes |
| Capture.CaptureSession.FindMagic | core-engine/src/capture.cpp:62-72 | the first position with a magic and room for a frame, or none |
| Capture.CaptureSession.DecodeTcpStream | core-engine/src/capture.cpp:82-114 | file, ok, drop, resync and leftover change exactly as the byte-by-byte scan says |
| Capture.CaptureSession.ReceiveTcp | core-engine/src/capture.cpp:341-342 | a chunk is appended and decoded |
| Capture.CaptureSession.ReceiveUdp | core-engine/src/capture.cpp:353-367 | a datagram's first 24 bytes are written if they verify, otherwise it counts as a drop unless empty |
| Capture.CaptureSession.RewriteHeader | core-engine/src/capture.cpp:116-126 | the file reads back with the right magic and version and the number of captured frames (modulo 2^64) as its count; its length and every byte behind the header stay, and an empty file becomes just the header |
| CaptureFile.ConnectionIsOneStream | core-engine/src/capture.cpp:320-343 | one connection in any chunks yields the frames of the whole stream |
| CaptureFile.CapturedByConnection | core-engine/src/capture.cpp:308-343 | over any arrivals the captured frames are those of each connection's stream by itself and the valid datagrams; without datagrams in order, connection after connection |
| CaptureFile.RunCapture | core-engine/src/capture.cpp:258-381 | for every mix of chunks, datagrams and connection changes the closed file holds exactly the captured frames and is accepted by the inspector |
| FrameReceiver.FindMagic | operator-node/src/main/java/zcmesh/net/FrameReceiver.java:174-184 | the first absolute index with a magic and room for a frame, or -1 |
| FrameReceiver.DecodeStream | operator-node/src/main/java/zcmesh/net/FrameReceiver.java:136-168 | buffer and pipeline after a call are the scan's leftover, frames and failed checks, and its resync count less the bytes thrown away uncounted |
| FrameReceiver.ReadTcp | operator-node/src/main/java/zcmesh/net/FrameReceiver.java:108-118 | at the end of the stream the connection is given up and nothing is decoded; otherwise as many bytes as fit are taken in and decoded, and fewer than 24 stay pending |
| FrameReceiver.NoMagicScan | operator-node/src/main/java/zcmesh/net/FrameReceiver.java:142-149 | a buffer without a magic is given up but for its last 23 bytes |
| Decoders.DecodersAgree | operator-node/src/main/java/zcmesh/net/FrameReceiver.java:136-168 | on every stream and chunking both decoders emit the same frames, failed checks and leftover; the Java resync count is the C++ one minus what its no-magic branch discards |
| Decoders.SameResyncWhen | operator-node/src/main/java/zcmesh/net/FrameReceiver.java:142-149 | over any chunks the resync counts are equal if and only if at no chunk end the last whole window of the bytes received so far carries no magic and lies in no decoded frame |
| Decoders.UncountedExactly | operator-node/src/main/java/zcmesh/net/FrameReceiver.java:142-149 | a call throws bytes away uncounted exactly when its buffer ends that way |
| Decoders.UncountedAppend | operator-node/src/main/java/zcmesh/net/FrameReceiver.java:136-168 | whether it does depends on the whole stream so far, not on where earlier calls ended |
| ScanCounts.UncountedAre | operator-node/src/main/java/zcmesh/net/FrameReceiver.java:142-149 | what a call throws away uncounted is one byte for each position with room for a window, outside every decoded frame, with no magic at or after it |
| Decoders.JavaCountDependsOnChunking | operator-node/src/main/java/zcmesh/net/FrameReceiver.java:142-152 | 48 bytes that count 25 in one chunk and 24 in two |
| Decoders.PipelineTracksRun | operator-node/src/main/java/zcmesh/net/FrameReceiver.java:136-168 | over a connection the pipeline is offered exactly the scanned frames |
| Decoders.LiveAgreesWithOffline | operator-node/src/main/java/zcmesh/pipeline/TelemetryPipeline.java:39-136 | over any byte stream in any chunks the operator's counters agree with the offline report on the stream's frames |
| Analyze.ZcmAnalyze.Observe | core-engine/include/zcm_analyze.hpp:35-75 | counters, ranges, maps and histogram after one frame |
| Analyze.ZcmAnalyze.TotalGapsOf | core-engine/include/zcm_analyze.hpp:77-83 | the loop over the map in any order yields the sum of all nodes' gaps |
| Analyze.ZcmAnalyze.TotalDupsOf | core-engine/include/zcm_analyze.hpp:85-91 | likewise for duplicates |
| Analyze.NodeStatsAre | core-engine/include/zcm_analyze.hpp:56-74 | a node's statistics are those of its own sequence numbers alone |
| Analyze.InterleavingIrrelevant | core-engine/include/zcm_analyze.hpp:56-91 | two interleavings of the same per-node streams give the same statistics and totals |
| Analyze.GapsCountMissing | core-engine/include/zcm_analyze.hpp:66-69 | for increasing numbers, gaps is the number of missing ones between first and last, and dups is 0 |
| Analyze.MaxHoleIsLongest | core-engine/include/zcm_analyze.hpp:70-72 | for increasing numbers, max_hole is the length of the longest run of missing numbers |
| ReportMeaning.NodeStatsMean | core-engine/include/zcm_analyze.hpp:63-74 | for any numbers, regressions and repeats included: gaps adds up the holes stepped over, gap_events counts them, max_hole is the largest, dups counts the steps back or on the spot |
| ReportMeaning.HopBuckets | core-engine/include/zcm_analyze.hpp:53-54 | each bucket counts the frames with that hop index, the last one all from 15 on |
| ReportMeaning.SensorCounts | core-engine/include/zcm_analyze.hpp:37-52 | sensor and last-hop counters are the counts over all frames |
| ReportMeaning.RangeIs | core-engine/include/zcm_analyze.hpp:38-48 | min_seq and max_seq are attained and bound every number |
| TelemetryPipeline.Pipeline.Offer | operator-node/src/main/java/zcmesh/pipeline/TelemetryPipeline.java:39-56 | all adders, the per-node memory and the table of latest frames after one offer, and what the ring is fed |
| TelemetryPipeline.LatestIsLast | operator-node/src/main/java/zcmesh/pipeline/TelemetryPipeline.java:39-56 | the table of nodes shows the last verified record of each node heard from, has one entry for every unique node, and agrees with the gap tracker's memory |
| TelemetryPipeline.BadRecordsOnlyCount | operator-node/src/main/java/zcmesh/pipeline/TelemetryPipeline.java:39-52 | records that failed their check add to failures and bytes and change nothing else; the others reach the ring in order |
| TelemetryPipeline.Pipeline.UpdateGaps | operator-node/src/main/java/zcmesh/pipeline/TelemetryPipeline.java:115-136 | gap, duplicate and node counters and the node's last number after one frame |
| TelemetryPipeline.AnalysersAgree | operator-node/src/main/java/zcmesh/pipeline/TelemetryPipeline.java:39-136 | on every sequence of verified frames, regressions included, both analysers agree on frames, gaps, dups, nodes, last-hop, and hop and sensor buckets after regrouping |
| TelemetryPipeline.NextSeqPlain | core-engine/include/zcm_analyze.hpp:64-73 | the 32-bit comparison agrees with Java's 64-bit one, the wrap included |
| WireRecord.EncodeDecode | operator-node/src/main/java/zcmesh/wire/WireFrame.java:58-97 | encoding what was decoded reproduces all 24 bytes of every input |
| WireRecord.DecodeEncode | operator-node/src/main/java/zcmesh/wire/WireFrame.java:58-97 | decoding what was encoded gives back every field |
| WireRecord.SameReading | operator-node/src/main/java/zcmesh/wire/WireFrame.java:62-72 | both languages read the same values out of a frame |
| FrameBatch.TcpClient.SendNb | core-engine/src/net.cpp:291-315 | result, connected flag and log after one send |
| FrameBatch.TcpClient.Connect | core-engine/src/net.cpp:221-289 | the old socket is given up first; an accepted connect starts an empty log |
| FrameBatch.FrameSlab.Push | core-engine/src/batch.cpp:18-25 | the packed frame is appended unless the slab is full |
| FrameBatch.NotedAsSent | core-engine/src/batch.cpp:45-51 | noting n bytes leaves the batch as a connection does that takes n bytes and then stalls; if n reaches the end, then once sent frames are discarded as a finished flush does |
| FrameBatch.FrameSlab.DiscardFullySent | core-engine/src/batch.cpp:53-66 | the memmove leaves exactly the frames not sent whole; nothing happens while no frame is whole |
| FrameBatch.DiscardKeepsUnsent | core-engine/src/batch.cpp:53-66 | discarding never changes the unsent frames; the offset becomes 0 only if it was at least 24 |
| FrameBatch.AdaptInRange | core-engine/src/batch.cpp:103-111 | the flush target stays in 1..capacity, shrinks only on a stall or slow flush, grows by one |
| FrameBatch.FrameSlab.FlushTcp | core-engine/src/batch.cpp:68-86 | the send loop on slab and socket does what its specification says |
| FrameBatch.FrameSlab.FlushTcpRetry | core-engine/src/batch.cpp:88-101 | the same for the retries |
| FrameBatch.FlushedMoves | core-engine/src/batch.cpp:68-86 | whatever the socket answers, the connection's log grows by the next stretch of the batch's bytes: all of them and the batch is empty, or fewer and the offset says how many |
| FrameBatch.FlushedWithinMoves | core-engine/src/batch.cpp:88-101 | the same over any number of retries |
| FlushProgress.FlushSucceedsExactly | core-engine/src/batch.cpp:88-101 | with frames waiting and a connection up, a flush of n attempts succeeds if and only if the socket takes all that is unsent before a hard error and before its n-th stall; the connection is lost if and only if a hard error came first |
| FlushProgress.TargetAfter | core-engine/src/batch.cpp:103-111 | k slow or stalled flushes halve the target k times down to 1, k fast ones raise it by k up to the capacity, others leave it |
| FrameBatch.PrefixOfFrames | core-engine/src/batch.cpp:32-43 | the first bytes of a batch are its whole sent frames and a beginning of the first unsent one |
| Uplink.RefusalsSpaced | core-engine/src/main.cpp:129-151 | however often the gate is asked, the k-th and the next refused connect are at least min(2000, 50 * 2^k) ms apart |
| Uplink.GateFollowsRefusals | core-engine/src/main.cpp:129-151 | over any history of asking, connecting and losing the connection, after k refusals in a row the gate opens min(2000, 50 * 2^(k-1)) ms after the latest, and a success starts over |
| Uplink.GateOpensInTime | core-engine/src/main.cpp:133-150 | asked while there is no connection: before the wait is over nothing changes, from then on it connects if connect is accepted |
| Uplink.FlushEmpties | core-engine/src/main.cpp:159-192 | after a flush the batch is empty with offset 0, except that TCP-only keeps what it could not send |
| FlushProgress.TcpFlushSucceedsExactly | core-engine/src/main.cpp:168-171 | a TCP-only flush says yes if and only if there is a connection that takes the whole batch before a hard error and before 128 stalls |
| FlushProgress.AutoFailsOverExactly | core-engine/src/main.cpp:172-189 | an Auto flush turns to the mesh if and only if there is no connection, or it breaks or stalls 64 times first; then it counts a fail-over and halves its target, and gives up a connection still there if and only if that took part of the batch |
| FlushProgress.FlushAdaptsTarget | core-engine/src/main.cpp:164-180 | the target adapts to whether TCP finished and how long it took; datagram transports leave it |
| FlushProgress.DatagramsAllTaken | core-engine/src/main.cpp:88-116 | a flush by datagrams says yes if and only if every frame handed over was taken |
| Uplink.PushedVerify | core-engine/src/main.cpp:462-476 | every frame ever pushed verifies |
| Uplink.DatagramsHandedOnce | core-engine/src/main.cpp:164-167 | in a datagram or mesh run every pushed frame that left the batch was handed over exactly once, in push order, and the other port saw none |
| Uplink.ReconnectGate.TryConnect | core-engine/src/main.cpp:133-150 | gate and socket after a call |
| Uplink.EdgeUplink.HandOver | core-engine/src/main.cpp:88-116 | the unsent frames are handed over one by one, the batch is emptied, and the answer says whether all were taken |
| Uplink.EdgeUplink.FlushBatch | core-engine/src/main.cpp:159-192 | the method over slab, socket, gate and ports equals the flush specification for all four transports |
| AutoLedger.AutoRunKeepsLedger | core-engine/src/main.cpp:172-189 | in every Auto run each frame that left the batch is wholly on one TCP connection or once with the mesh, in push order; each log is its whole frames plus at most a beginning of the one mesh frame at which the connection's use ended, and only if it is no longer in use; rescue count equals the mesh share |
| AutoLedger.FlushKeepsLedger | core-engine/src/main.cpp:172-189 | one Auto flush extends the ledger by TCP's whole frames and then the mesh's |
| AutoLedger.DeadLogStays | core-engine/src/main.cpp:159-192 | a connection no longer in use is never written to or used again, whatever events follow, for every transport |
| AutoLedger.ReceiverSeesTcpShare | core-engine/src/main.cpp:183-188 | the receiver of each connection, in any chunking, decodes exactly that connection's frames with no drop and no resync |
| AutoLedger.EveryFrameOnce | core-engine/src/main.cpp:172-189 | decoded over all connections + rescued + still in the batch = pushed |
| TcpStream.TcpRunConserves | core-engine/src/main.cpp:168-171 | accepted bytes of all connections followed by the unsent part of the batch are the bytes of all pushed frames, over any run |
| TcpStream.OneConnectionDeliversAll | core-engine/src/main.cpp:168-171 | on one connection the receiver decodes the pushed frames in order, all of them once the batch has drained |
| TcpStream.LostExactlyCut | core-engine/src/main.cpp:168-171 | of the frames accepted whole, one is lost if and only if a connection boundary falls strictly inside it |
| TcpStream.DeliveredIsKept | core-engine/src/capture.cpp:308-338 | receivers that start afresh on each connection decode exactly the frames no boundary cuts, if no window in a torn beginning verifies |
| TcpStream.ReconnectsLoseCutFrames | core-engine/src/main.cpp:168-171 | over whole TCP-only runs with reconnects: delivered frames are the uncut pushed ones, in order, each once, and at most one per boundary is lost |
| TcpStream.ReconnectCanLoseFrame | core-engine/src/main.cpp:168-171 | a run with one reconnect whose only frame is accepted whole and decoded by no receiver |
| EdgeLoop.EdgeNode.Iterate | core-engine/src/main.cpp:370-532 | one pass of the loop over the real objects equals its specification |
| EdgeLoop.PushNeverFails | core-engine/src/main.cpp:395-476 | at the push the batch always has room |
| EdgeLoop.HeadFlushOnlyForTcp | core-engine/src/main.cpp:395-409 | Auto, UDP and mesh edges never flush at the head of the loop |
| EdgeLoop.PassKeepsBalance | core-engine/src/main.cpp:370-489 | one pass keeps the books |
| EdgeLoop.EveryNumberAccounted | core-engine/src/main.cpp:370-489 | at every loop head seq is, modulo 2^32, sent_ok + sent_fail + dropped + batch (without sent_fail for TCP-only), and the flush target is in 1..capacity |
| EdgeLoop.PushedAreSurvivors | core-engine/src/main.cpp:454-463 | until the counter wraps, the pushed frames carry exactly the numbers the edge's drop percentage keeps |
| EdgeLoop.PushedFromNode | core-engine/src/main.cpp:464-476 | every pushed frame carries the edge's node number |
| EdgeSamples.PushedCarryInputs | core-engine/src/main.cpp:411-472 | over any run of any transport, counter wraps included, the pushed frames are in order those of the numbers kept, each with the value, sensor and time modulo 2^32 of the pass that used its number, and LAST_HOP exactly on direct transports |
| EdgeSamples.OperatorReadsInputs | core-engine/src/main.cpp:370-532 | for a TCP-only edge with one connection and a drained batch, in any chunks, the operator's ring is fed exactly those values, sensors and times, in order |
| EdgeBooks.HeadBooks | core-engine/src/main.cpp:395-409 | a head flush happens exactly when the batch is at its target or partly sent, only ever on a TCP-only edge; success counts the batch as sent and goes on, failure counts one and ends the pass |
| EdgeBooks.EmitBooks | core-engine/src/main.cpp:454-488 | after a push nothing else happens below the target; at the target the batch is flushed and counted whole by its verdict, or kept uncounted on a TCP-only edge |
| EdgeBooks.CountsAreVerdicts | core-engine/src/main.cpp:370-489 | over any run sent_ok is the frames of the batches whose flush said yes; sent_fail those of the others, or the failed head flushes of a TCP-only edge |
| EdgeToOperator.LoopIsRun | core-engine/src/main.cpp:370-532 | the main loop drives the uplink through exactly the pushes and flushes of its trail |
| EdgeToOperator.AutoEdgePartition | core-engine/src/main.cpp:370-532 | what an Auto edge pushed is, in order, the ledger of its run and the batch; the mesh got exactly the ledger's mesh entries, the receiver of each connection decodes exactly that connection's, and there are no others |
| EdgeToOperator.AutoEdgeAccountsForAll | core-engine/src/main.cpp:370-532 | before the counter wraps each number an Auto edge used is carried by no frame if its drop percentage drops it, and otherwise by exactly one frame of ledger and batch, in order; the four counts add up |
| EdgeToOperator.TcpEdgeDeliversSurvivors | core-engine/src/main.cpp:370-532 | with one connection and a drained batch the operator decodes exactly the numbers the drop percentage keeps |
| OperatorReport.SurvivorsReport | core-engine/include/zcm_analyze.hpp:56-91 | on frames of one node that carry the survivors of a drop percentage the report's total gaps is the number of dropped numbers between the first and the last, with no duplicate and one node |
| OperatorReport.OperatorReportsDrops | operator-node/src/main/java/zcmesh/pipeline/TelemetryPipeline.java:115-136 | from the loop to the display: for a TCP-only edge with one connection and a drained batch, in any chunks, the operator's gap counter is the number of sequence numbers the edge dropped between the first and last it sent, with no duplicates, no failed checks, one node and every sent frame counted |
| Router.ForwardLaws | core-engine/src/router.cpp:61-121 | every send carries the given datagram and goes to an allowed hop; true means exactly one accepted send, the last, on the new active hop; false means every allowed hop was tried and refused in this call and an allowed hop is active; but for the probe the sends go round the ring from the active hop, every nearer allowed hop first; counters and probe time accordingly |
| Router.MaskBits | core-engine/src/router.cpp:70-72 | bit i of the mask switches hop i off |
| Router.ForwardStarts | core-engine/src/router.cpp:74-108 | the first send goes to hop 0 if a probe is due by the route's own fields, otherwise to the active hop, or to the lowest allowed hop if the active one is not allowed; the round goes on from there |
| Router.ForwardFailsOver | core-engine/src/router.cpp:109-120 | after a failed call the allowed hop next round the ring from where it started is active; with none allowed nothing is sent and nothing moves |
| Router.AdvanceToNext | core-engine/src/router.cpp:110-119 | after a failed round the next allowed hop ahead becomes active, the present one last |
| Router.HopCountersAreDeliveries | core-engine/src/router.cpp:61-121 | over any run and mask changes each hop_ok is the number of datagrams that hop accepted, attempts = fails + sum of hop_ok, active_hop is in range |
| Router.ProbesSpaced | core-engine/src/router.cpp:88-96 | with a monotone non-zero clock two probes are at least 500 ms apart |
| Router.PreferredHopRecovers | core-engine/src/router.cpp:88-108 | once hop 0 has been healthy for 500 ms every forward succeeds and leaves the route on hop 0 |
| Router.BatchDeliversOnce | core-engine/src/main.cpp:102-116 | the trace of a batch is one stretch per frame, in order: its sends carry that frame alone, and exactly one of them, the last, was accepted if the forward said yes, none (and every allowed hop refused) otherwise; the counters add up |
| Router.MeshRouter.AddRoute | core-engine/src/router.cpp:13-32 | accepted exactly for one to three hops while there is room; a fresh route is appended |
| Router.MeshRouter.FindRoute | core-engine/src/router.cpp:34-50 | the first route of the node, or none |
| Router.MeshRouter.SetHopSkipMask | core-engine/src/router.cpp:52-59 | only that route's mask changes |
| Router.MeshRouter.TryHops | core-engine/src/router.cpp:98-108 | the rotation loop does what its specification says |
| Router.MeshRouter.ForwardUdp | core-engine/src/router.cpp:61-121 | table and sends after a call; an unknown node is refused without a send |
| MeshFlush.FlushUdpMesh | core-engine/src/main.cpp:102-116 | slab, router and socket together: the unsent frames are forwarded in order, the route and trace are those of that batch, the batch is emptied, the answer is whether all were accepted; with no route nothing is sent |
| MeshFlush.MeshFlushOverRouter | core-engine/src/main.cpp:102-116 | the uplink's mesh flush with the router's answers: every unsent frame has its own stretch of sends, and it says yes exactly when some hop accepted each |
| MeshFlush.RunDeliversOnce | core-engine/src/main.cpp:159-192 | over a whole run of any transport the i-th frame handed to the mesh has the i-th stretch of the trace, accepted by exactly one hop or refused by every allowed one |
| RingSteps.DeliveredAtMostOnce | operator-node/src/main/java/zcmesh/pipeline/FrameRing.java:27-52 | in every interleaving each stored frame is in exactly one place (delivered, in the consumer's hand, in its slot, lost); no result repeats and only offered frames are delivered |
| RingSteps.TailLawHolds | operator-node/src/main/java/zcmesh/pipeline/FrameRing.java:27-52 | in every interleaving tail = polls + overwrites - overwrites undone by a poll they fell into; drops counts the won CASes |
| RingSteps.AccountingExactlyWithoutRaces | operator-node/src/main/java/zcmesh/pipeline/FrameRing.java:54-60 | between calls, offered = polled + dropped + size if and only if no overwrite fell into a poll |
| RingSteps.TurnsAwayOnlyWhenEmpty | operator-node/src/main/java/zcmesh/pipeline/FrameRing.java:41-45 | in every interleaving a poll turns away empty-handed only when head equals tail |
| RingCalls.OverwritesOnlyWhenFull | operator-node/src/main/java/zcmesh/pipeline/FrameRing.java:27-36 | in every interleaving an overwrite happens only with at least the capacity in the ring, and does happen when the offer finds it so and tail unmoved |
| RingCalls.QuietOverwritesExactlyFull | operator-node/src/main/java/zcmesh/pipeline/FrameRing.java:27-36 | without a race exactly the capacity is in the ring then |
| RingCalls.OfferIsAppend | operator-node/src/main/java/zcmesh/pipeline/FrameRing.java:27-39 | an offer run step by step with no poll under way appends, and drops the oldest exactly when the ring is full |
| RingCalls.PollIsTake | operator-node/src/main/java/zcmesh/pipeline/FrameRing.java:41-52 | a poll run step by step hands out the oldest, or turns away from an empty ring unchanged |
| RingCalls.CallsAreQueue | operator-node/src/main/java/zcmesh/pipeline/FrameRing.java:27-52 | any sequence of whole calls over the shared words, step by step, is the bounded drop-oldest queue |
| RingOrder.TimelyRunIsFifo | operator-node/src/main/java/zcmesh/pipeline/FrameRing.java:27-52 | in every run in which no frame was stored over one still to be taken out, other races included, all results are frames in offer order, none null, and the frames still to come lie in their slots |
| RingOrder.QuietRunIsTimely | operator-node/src/main/java/zcmesh/pipeline/FrameRing.java:27-52 | a run in which no overwrite fell into a poll is such a run |
| RingOrder.QuietRunIsBounded | operator-node/src/main/java/zcmesh/pipeline/FrameRing.java:27-52 | and moreover its head leads tail by at most the capacity and polls and overwrites account for all frames below tail |
| RingOrder.TimelyStepIsQueueStep | operator-node/src/main/java/zcmesh/pipeline/FrameRing.java:27-52 | after every such run each further step is an enqueue, a drop of the oldest, a dequeue of the oldest, or leaves the queue alone; a poll that starts to turn away finds it empty |
| RingOrder.DropFreeIsPrefix | operator-node/src/main/java/zcmesh/pipeline/FrameRing.java:27-52 | in every interleaving in which no overwrite succeeded the polled frames are a prefix of the offered ones |
| RingRaces.StoreHarmlessExactly | operator-node/src/main/java/zcmesh/pipeline/FrameRing.java:27-52 | after any run without such a store, the next store keeps every continuation by polls in offer order if and only if the frame in its slot has been taken out or dropped |
| RingRaces.RaceBreaksFifo | operator-node/src/main/java/zcmesh/pipeline/FrameRing.java:27-52 | a run that delivers frame 2 before frame 1 and then null from a ring of one |
| RingRaces.RaceOverfills | operator-node/src/main/java/zcmesh/pipeline/FrameRing.java:27-56 | a run after which a ring of two reports size three, and the next offer overwrites from there |
| RingRaces.RaceWithoutHarm | operator-node/src/main/java/zcmesh/pipeline/FrameRing.java:27-52 | a run with an overwrite inside a poll that delivers every frame in order; only its books are off |
| FrameRing.MaskIsRemainder | operator-node/src/main/java/zcmesh/pipeline/FrameRing.java:36-47 | masking with a power of two less one is the remainder |
| FrameRing.CapacityTest | operator-node/src/main/java/zcmesh/pipeline/FrameRing.java:20-22 | the constructor's test accepts exactly the powers of two from two on |
| FrameRing.FrameRing.Create | operator-node/src/main/java/zcmesh/pipeline/FrameRing.java:19-25 | a ring for an accepted capacity, nothing otherwise |
| FrameRing.FrameRing.Offer | operator-node/src/main/java/zcmesh/pipeline/FrameRing.java:27-39 | as a whole call: append, a full ring gives up its oldest; offered = polled + drops + size |
| FrameRing.FrameRing.Poll | operator-node/src/main/java/zcmesh/pipeline/FrameRing.java:41-52 | as a whole call: the oldest frame, or nothing from an empty ring |
| HopLoss.DropMonotone | core-engine/src/hop.cpp:46-55 | a higher percentage drops everything a lower one drops |
| LossRate.DroppedFromThreshold | core-engine/src/hop.cpp:46-55 | each number has one percentage in 1..100 from which on it is dropped |
| LossRate.KnownThresholds | core-engine/src/hop.cpp:46-55 | from which percentage on six given numbers are dropped |
| LossRate.DropRate | core-engine/src/hop.cpp:46-55 | exactly how many of all 2^32 numbers each percentage drops |
| LossRate.DropRateIsPercent | core-engine/src/hop.cpp:46-55 | that share is the percentage only at 0 and 100 |
| HopLoss.ChainDropsAsMaximum | core-engine/src/hop.cpp:172-187 | a chain of hops lets through exactly what one stage with the largest percentage keeps, each frame stamped by every hop |
| HopLoss.StampAllKeeps | core-engine/src/hop.cpp:182 | after n hops a frame verifies, its index went up by n to at most 255, LAST_HOP is the last hop's, all else is kept |
| HopLoss.ReportedGapsAreDrops | core-engine/include/zcm_analyze.hpp:63-74 | over an in-order run without wrap: gaps is the number of dropped numbers between first and last survivor, dups 0, max_hole the longest dropped run |
| HopLoss.ChainSurvivors | core-engine/src/hop.cpp:172-187 | the numbers that come out of a chain are those the largest percentage keeps |
| HopLoss.AnalyserSeesMaximumLoss | core-engine/src/hop.cpp:172-187 | the node's statistics after any chain of hops are those of the numbers the largest percentage keeps |
| HopLoss.HopNode.Receive | core-engine/src/hop.cpp:166-187 | a datagram goes out stamped if and only if it verifies, is not dropped and is accepted; each is counted exactly once, as sent, injected loss or drop |
| ZcmFile.HeaderReads | core-engine/src/inspect.cpp:90-100 | a written header reads back |
| Inspect.RunInspect | core-engine/src/inspect.cpp:90-124 | the read loop reports short header, bad header, the frame it is truncated at, or the statistics and raw values of the verified frames |
| Inspect.AcceptedExactly | core-engine/src/inspect.cpp:90-171 | a file is accepted if and only if header and length are right and every announced frame verifies |
| ReportMeaning.PercentIs | core-engine/src/inspect.cpp:129-131 | the last-hop percentage times the frames is 100 times those with LAST_HOP, and 0 of no frames |
| ReportMeaning.AcceptedWithExactly | core-engine/src/inspect.cpp:169-222 | with expectations a file is accepted if and only if it is without and its frames meet each one given: gaps, hop index, last-hop share, number, first raw values |
| Inspect.WellFormedAccepted | core-engine/src/inspect.cpp:169-171 | a header with the right count and valid frames is accepted with every frame observed and the raw values in order |
| ZcmWriter.ZcmFileWriter.WriteRecord | operator-node/src/main/java/zcmesh/wire/ZcmWriter.java:38-52 | appends the record's bytes, skips a failed one, refuses after close |
| ZcmWriter.ZcmFileWriter.Close | operator-node/src/main/java/zcmesh/wire/ZcmWriter.java:59-75 | rewrites the header in place once |
| ZcmWriter.ClosedFileAccepted | operator-node/src/main/java/zcmesh/wire/ZcmWriter.java:24-75 | whatever was written, the closed file is accepted with ok = header count, crc_fail = 0 and the raw values in write order |
| ZcmWriter.OpenFileLooksEmpty | operator-node/src/main/java/zcmesh/wire/ZcmWriter.java:24-36 | before close the file passes as an empty capture |
| Replay.DeltaExact | core-engine/src/replay.cpp:23-32 | the pause between two frames equals the time between them if and only if that is at most a second, and is a second for longer times up to the 32-bit wrap |
| Replay.SleepBound | core-engine/src/replay.cpp:142-189 | no capture is slept through for more than a second per frame |
| Replay.ReplayTakesCaptureTime | core-engine/src/replay.cpp:142-189 | for verified frames with 64-bit times that never go back, the sum of pauses is last minus first if and only if all steps are within a second, across any number of 32-bit wraps |
| Replay.BadFramesCostTheirPause | core-engine/src/replay.cpp:142-189 | with no step over a second, damaged frames shorten the replay by exactly the time from each to the next frame |
| Replay.ReplayCanRunShort | core-engine/src/replay.cpp:23-32 | two frames packed two seconds apart are replayed one second apart |
| Replay.SendFrame | core-engine/src/replay.cpp:152-164 | the resend loop: the connection takes the whole frame, or a proper beginning of it and is gone |
| Replay.ReplayFrames | core-engine/src/replay.cpp:142-189 | sent + fail is the frame count and the time slept is the sum of the pauses; over TCP the frames sent are the first ones that verify, all of them if the connection lasts, and a receiver decodes exactly those; as datagrams they are the verified ones the socket took |
| Replay.ReplayAgreesWithInspect | core-engine/src/replay.cpp:86-101 | a file loads exactly when the inspector reads it through, and replays without failure exactly when it is accepted |

## Left out

- The flush after the main loop has ended: one more flush of the uplink, for which the program counts nothing.
- Socket setup, select loops, real clocks and sleeps, argument parsing and printing: pure input and output.
- Counters are unbounded where the source has 64 bits; only `seq`, timestamps, checksums, the header count and the probe clock have their width. The gate's 64-bit clock is taken not to overflow.
- The cast of a stream buffer's size to `int` in `decode_tcp_stream`: buffers of 2 GB and more.
- File writes are taken to succeed whole; `append_frame` and the writer's channel loop have no failing branch here.
- Accepted bytes are taken to arrive: a connection's log is what its receiver reads.
- Raw addresses and the arena: a slab is an array of frames, its bytes their concatenation.
- The ring's steps are sequentially consistent; reordering of `lazySet` under the Java memory model is not part of this model.
- TelemetryPipeline.Pipeline.Offer: does not model the inter-arrival average nor the wall-clock time kept with each node's latest frame, which are read off the clock for display only.
- The spin of `TelemetryPipeline.poll(timeoutMs)`: wall clock only.
- The race of two threads on a node's first frame in `trackGaps`: offers run on one thread here.
- `NodeGapStats.seen` is represented by presence in the map.
- Reading the mask from the hop-skip file and the 8-byte control message: mask changes are events of a route's run.
- In `MeshFlush.RunDeliversOnce` the route's mask stays as it is during the run; mask changes between forwards are covered by `Router.HopCountersAreDeliveries`.
- TcpStream.DeliveredIsKept: assumes that no window starting in a torn beginning verifies; a stray verifying window there would be decoded as a frame.
- Replay.SendFrame: assumes that the socket does not block for good; with one that does the source's loop never ends.
- `readUdp` of the Java receiver, `MeshRouter.deliver`, `nibble_pack_i32`, the stats server, the user interface, the benchmark and `StatsClient`: only easy members, or no logic.
- `seen_raws.reserve` for a damaged header count: allocation failure is not modelled.
