/** Shared vocabulary of the sender's transmission loop: the segment size,
    the receive events the await phase consumes, the descriptors of the
    data segments the fill phase emits, and the transfer state. */
module Protocol {

  /** Largest payload of one data segment; the window steps by this amount. */
  const MAXBUFLEN: nat := 1024

  type Byte = bv8

  /** What one wait for an acknowledgment yields: the readiness wait timed
      out, or a datagram was decoded into its header fields. The sequence
      number `seqNum` and `len` are carried through opaquely (they only feed
      the ack field of later data segments); `fin` and `crc` are compared against 1 as the source
      does, so any other value counts as "not set". */
  datatype Event =
    | Timeout
    | Ack(seqNum: int, ack: int, len: int, fin: int, crc: int)

  /** The arguments of one data-segment send: the byte offset in the file,
      the payload size, the payload itself, the opaque ack field and the
      termination flag. */
  datatype Segment = Segment(position: nat, size: nat, payload: seq<Byte>, ackValue: int, fin: bool)

  /** The variables that survive from one round to the next: the window
      start, the next acceptable acknowledgment and the header fields of
      the last received datagram. */
  datatype State = State(windowPosition: nat, expectedAck: nat, fin: int, lastSeq: int, lastLen: int)

  /** All of them start at zero. */
  const INITIAL: State := State(0, 0, 0, 0, 0)

  /** The transfer invariant: window start and expected acknowledgment move
      together and stay on segment boundaries. */
  predicate Aligned(st: State)
  {
    st.windowPosition == st.expectedAck && st.windowPosition % MAXBUFLEN == 0
  }

  /** The ack value of every data segment sent in a round: `seq + len` of
      the last received datagram. */
  function AckField(st: State): int
  {
    st.lastSeq + st.lastLen
  }
}
