# Sliding-window sender of data-xfer, modelled in Dafny

data-xfer moves a file over UDP with a Go-Back-N scheme. The sender loads
the requested file into memory. It then runs rounds until the peer confirms
termination. In the fill phase of a round it sends up to `cwnd` consecutive
1024-byte chunks starting at `windowPosition`. The last chunk of the file
carries the termination flag. In the await phase it reads acknowledgments
one at a time. An acknowledgment in `(expectedAck, expectedAck + 1024]`
moves `expectedAck` and `windowPosition` forward by 1024. A timeout ends the
phase, and so does an acknowledgment flagged corrupt. Either way the next
round goes back to the window start and resends. An acknowledgment carrying
the termination flag ends the phase and the whole transfer.

This project models that loop (`main` in `sender.c`, lines 182-296) with
the socket code lifted out:

- `protocol.dfy` (module `Protocol`): the segment size `MAXBUFLEN`, the
  receive events (`Timeout` or `Ack(seqNum, ack, len, fin, crc)`), the
  descriptor of a data segment (position, size, payload, ack field, fin
  flag), and the `State` carried across rounds.
- `fill.dfy` (module `Fill`): the fill phase. `FillWindow` runs the
  source's loop. `CopyChunk` models the `bzero`/`memcpy` into the
  1024-byte `temp` buffer. `Window` is the reference definition of a
  round's segments, with lemmas on count, positions, sizes, payloads and
  the fin flag.
- `await.dfy` (module `Await`): the await phase. `AwaitAcks` runs the
  source's loop over a sequence of events. `AwaitSpec` is its reference
  definition, with one lemma per acceptance rule.
- `transfer.dfy` (module `Transfer`): the outer `while (fin != 1)` loop
  as `Run`, its reference definition `TransferSpec`, and the invariants
  over all rounds.
- `scenarios.dfy` (module `Scenarios`): two concrete runs over a
  2500-byte file with `cwnd = 2`, one without loss and one whose first
  round is lost.

The event stream is finite. When it runs out inside an await phase, this
reads as a wait that times out, because nothing more arrives. A round
first checks whether any events remain. If none do, `Run` stops with
`Exhausted`. From there the source would resend the same window forever,
since every wait times out and the state does not change. If events
remain but the round has nothing to send, `Run` stops with `Stalled`.
This happens when the window is past the end of the file without a
termination acknowledgment, or when `cwnd <= 0`. The source then spins
forever without waiting, and the state again never changes. An empty file
therefore gives `Stalled` when events remain and `Exhausted` when none do.

Two consequences of the code that are easy to miss:

- Only validated acknowledgments count toward `numPacketsSent`
  (sender.c:236, 288). An out-of-range acknowledgment is skipped and the
  loop waits again, so one await phase may read more datagrams than it
  sent segments.
- A short final segment still moves the window by a full 1024 bytes
  (sender.c:289-290), to 3072 for a 2500-byte file. The bound the code
  keeps, and the one the model proves, is
  `windowPosition < |source| + 1024`.

## Model

| member | source | states |
|---|---|---|
| Fill.ChunkCountBelow | sender.c:198-227 | ChunkCount(from, L) counts exactly the offsets `from + k*1024` below L: k is below the count iff that offset is inside the file |
| Fill.SegmentAt | sender.c:201-211 | the segment for a chunk starting inside the file: 0 < size <= 1024; it ends inside the file; it is full-size unless it ends at the end of the file; its payload is exactly `source[position .. position+size]`; fin is set iff it ends at the end of the file |
| Fill.Window | sender.c:194-231 | the reference definition of a round's segments, one per chunk from the window position while the position is inside the file and the budget lasts; it never has more segments than chunks are left |
| Fill.WindowBounds | sender.c:194-231 | a round sends nothing when cwnd <= 0 or the window is at or past the end of the file, and at most cwnd segments; every segment starts inside the file at or after the window position and carries the round's ack field |
| Fill.WindowLength | sender.c:194-198 | a round sends min(cwnd, chunks left from the window position) segments, and none when cwnd <= 0 |
| Fill.WindowAt | sender.c:195-227 | the k-th segment of a round starts at `windowPosition + k*1024`, inside the file, and is the chunk there |
| Fill.WindowFin | sender.c:211 | within a round only the last segment can carry fin, and a segment with fin ends at the end of the file |
| Fill.WindowPayloads | sender.c:206-227 | a round's payloads concatenate to exactly the file bytes from the window position to the end of its last segment: no gap, overlap or padding |
| Fill.CopyChunk | sender.c:206-208 | the transmit buffer has 1024 bytes; its first `size` bytes are the chunk and the rest are zero |
| Fill.FillWindow | sender.c:194-231 | the fill loop returns the reference window: min(cwnd, chunks left) segments, the k-th being the chunk at `windowPosition + k*1024` |
| Await.AcceptsOldestChunk | sender.c:285 | on a 1024 boundary, the range test `expectedAck < ack <= expectedAck + 1024` holds iff ack > 0 and the last byte it covers, ack - 1, lies in the chunk starting at expectedAck |
| Await.Received | sender.c:261 | reading a datagram's header overwrites the last seq, len and fin, with fin taken from the datagram, and never moves windowPosition or expectedAck |
| Await.ReceivedAckField | sender.c:211 | the ack field of the next round's segments is the seq plus len of the last datagram that receive2 read (sender.c line 261) |
| Await.AwaitSpec | sender.c:233-293 | the await phase reads at most the supplied events and at least one when it waits at all; it validates at most as many acknowledgments as segments were sent; `expectedAck` and `windowPosition` both grow by exactly 1024 per validated acknowledgment and by nothing else |
| Await.AwaitTimeout | sender.c:251-258 | a timeout ends the phase and leaves the state unchanged |
| Await.AwaitCorrupt | sender.c:276-281 | an acknowledgment with crc == 1 ends the phase without moving the window or expectedAck, whatever its ack value |
| Await.AwaitFin | sender.c:265-275 | an acknowledgment with fin == 1 ends the phase with fin set, even when crc == 1, and does not move the window |
| Await.AwaitAccept | sender.c:283-291 | an intact acknowledgment in (expectedAck, expectedAck+1024] moves both counters by 1024, counts one acknowledgment, and the phase goes on waiting |
| Await.AwaitIgnore | sender.c:285-293 | an intact acknowledgment outside that range changes neither counter nor the count, and the phase goes on waiting |
| Await.AwaitReadsPastPlainAcks | sender.c:236-293 | the phase only reads past intact non-fin acknowledgments; it ends with fin set iff the last event it read was a fin acknowledgment |
| Await.AwaitAcks | sender.c:233-293 | the await loop equals the reference phase; numAcksReceived <= numPacketsSent; both counters grow by numAcksReceived*1024 |
| Transfer.TransferSpec | sender.c:182-296 | over all rounds: the run finishes iff fin == 1 was read; a stall means cwnd <= 0 or the window is past the file; windowPosition never decreases; `windowPosition == expectedAck` on a 1024 boundary is preserved |
| Transfer.RoundAdvance | sender.c:233-290 | one round validates at most as many acknowledgments as segments it sent, at most cwnd; the window moves by 1024 per validated acknowledgment and never past the segments sent |
| Transfer.TransferWithinFile | sender.c:198-290 | the window never gets 1024 or more bytes past the end of the file |
| Transfer.TransferSendsChunks | sender.c:192-231 | every segment sent during the transfer is a whole chunk of the file at a 1024-aligned position inside it, with its payload copied verbatim |
| Transfer.RoundSendsChunks | sender.c:194-227 | from a window start on a 1024 boundary, every segment of the round is a whole aligned chunk inside the file, copied verbatim |
| Transfer.AwaitKeepsAligned | sender.c:283-291 | an await phase keeps windowPosition equal to expectedAck and on a 1024 boundary |
| Transfer.TransferRound | sender.c:192-293 | one round of the loop: its segments come first in what the run sends, the await phase reads at least one event, and the run goes on from the state the phase leaves |
| Transfer.RunStep | sender.c:192-293 | the same round with the segments and rounds counted so far carried along: what `Run` has sent plus what is still to come is unchanged by one iteration |
| Transfer.FinalChunk | sender.c:211 | an aligned chunk with fin starts at the last multiple of 1024 below the file length and ends at the file's end |
| Transfer.TransferFinOnFinalChunk | sender.c:192-211 | every segment of the transfer that carries fin has that same position and ends at the end of the file |
| Transfer.RetransmitAfterTimeout | sender.c:192-258 | after a round that times out, the next round resends exactly the same segments from the same state |
| Transfer.Run | sender.c:182-296 | the round loop equals the reference run; it ends Finished iff fin == 1 was read; the final state stays aligned and within one segment of the file's end; a stall means cwnd <= 0 or the window is past the file; everything sent is whole verbatim chunks |
| Scenarios.CleanTransfer | sender.c:182-296 | 2500-byte file, cwnd 2, each segment acknowledged: two rounds, segments at 0, 1024 and 2048 of 1024, 1024 and 452 bytes, only the last with fin, ending Finished |
| Scenarios.LostFirstRound | sender.c:182-296 | same file with the first round's wait timing out: the second round resends the segments at 0 and 1024, and three rounds finish the transfer |

## Left out

- Socket setup, the filename `recvfrom` and `get_in_addr` (sender.c:27-117): I/O with no part in the algorithm.
- Argument parsing and the `pl`/`pc` range check (sender.c:47-65): configuration. `cwnd` is a parameter of any integer value, and `pl`/`pc` only reach the loss simulator.
- Loading the file and the sentinel `send2(..., 0, 0, 1, 0, 0, 0)` replies on open, size or read errors (sender.c:122-179): file I/O. `source` is a given byte sequence and `sourceLength` is its length. An empty file ends in the sentinel reply before the loop, but only when `fseek(fp, 0L, SEEK_END)` succeeds (sender.c:135). When it fails, the source enters the loop with `sourceLength` uninitialized and `source` NULL, which the model does not cover. The model accepts an empty `source` and reports `Stalled` or `Exhausted` as above.
- The `select` readiness wait (sender.c:239-251): OS timing, modelled as a `Timeout` event in the input.
- `send2`/`receive2` and the header codec, loss and corruption simulation they hold: `packetTransfer.h` is not part of this model. A send is the descriptor it appends to the returned `sent` sequence. A receive is the next event, already decoded. A malformed datagram is whatever `receive2` makes of it.
- The lost/corrupted/sent result of `send2` (sender.c:215-224): it only selects a log line, and all `printf` logging is left out.
- The outbound ack argument `seq+len` (sender.c:211) is carried as the opaque `ackValue` field. Its meaning lies in `receive2`.
- C integer widths: positions are unbounded naturals. The source's `int` arithmetic `windowPosition + MAXBUFLEN` and `tempPosition + MAXBUFLEN` (sender.c:211, 227, 285, 290) overflows once the file is longer than about 2^31 - 1024 bytes (INT_MAX - 1024), and `fin`/`crc` of type `short` are modelled as unbounded integers compared against 1.
- Run: stops at `Exhausted` or `Stalled` where the source loops forever with an unchanging state. It does not model the window the source would resend after the event stream runs out.
