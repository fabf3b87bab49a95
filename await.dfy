/** The await phase of one round: read acknowledgments, one event at a time,
    until as many have validated progress as segments were sent, or a
    timeout, a corrupt acknowledgment or a termination acknowledgment ends
    the phase early. */
module Await {
  import opened Protocol

  /** An acknowledgment validates in-order progress when it lies in the
      half-open range (expectedAck, expectedAck + MAXBUFLEN]. */
  predicate Accepts(expectedAck: int, ack: int)
  {
    expectedAck < ack <= expectedAck + MAXBUFLEN
  }

  /** On a window boundary, an acknowledgment is accepted exactly when it
      acknowledges some byte of the oldest unacknowledged chunk: the last
      byte it covers, `ack - 1`, lies in the chunk that starts at
      `expectedAck`. */
  lemma AcceptsOldestChunk(expectedAck: nat, ack: int)
    requires expectedAck % MAXBUFLEN == 0
    ensures Accepts(expectedAck, ack) <==> ack > 0 && (ack - 1) / MAXBUFLEN * MAXBUFLEN == expectedAck
  {
    if ack > 0 && (ack - 1) / MAXBUFLEN * MAXBUFLEN == expectedAck {
      assert (ack - 1) % MAXBUFLEN < MAXBUFLEN;
    }
  }

  /** The state after the phase, the number of validated acknowledgments and
      the number of events consumed. */
  datatype AwaitResult = AwaitResult(state: State, acks: nat, consumed: nat)

  /** The state after a datagram's header is read: `receive2` overwrites the
      seq, len and fin variables whatever the datagram says. */
  function Received(st: State, e: Event): (r: State)
    requires e.Ack?
    ensures r.windowPosition == st.windowPosition && r.expectedAck == st.expectedAck
    ensures r.fin == e.fin
  {
    st.(lastSeq := e.seqNum, lastLen := e.len, fin := e.fin)
  }

  /** The data segments of the next round carry, as their ack field, the
      sequence number plus length of the last datagram received. */
  lemma ReceivedAckField(st: State, e: Event)
    requires e.Ack?
    ensures AckField(Received(st, e)) == e.seqNum + e.len
  {
  }

  /** The await phase from `acks` validated acknowledgments out of `sent`,
      over the events still to arrive. Running out of events reads as a
      wait that times out. */
  function AwaitSpec(st: State, acks: nat, sent: nat, events: seq<Event>): (r: AwaitResult)
    ensures r.consumed <= |events|
    ensures acks < sent && events != [] ==> r.consumed >= 1
    ensures r.acks >= acks && (acks <= sent ==> r.acks <= sent)
    ensures r.state.expectedAck == st.expectedAck + (r.acks - acks) * MAXBUFLEN
    ensures r.state.windowPosition == st.windowPosition + (r.acks - acks) * MAXBUFLEN
    decreases |events|
  {
    if acks >= sent || events == [] then AwaitResult(st, acks, 0)
    else
      var e := events[0];
      if e.Timeout? then AwaitResult(st, acks, 1)
      else
        var st1 := Received(st, e);
        if e.fin == 1 || e.crc == 1 then AwaitResult(st1, acks, 1)
        else
          var rest :=
            if Accepts(st.expectedAck, e.ack) then
              AwaitSpec(st1.(expectedAck := st.expectedAck + MAXBUFLEN,
                             windowPosition := st.windowPosition + MAXBUFLEN),
                        acks + 1, sent, events[1..])
            else
              AwaitSpec(st1, acks, sent, events[1..]);
          rest.(consumed := rest.consumed + 1)
  }

  /** Case view of AwaitSpec's timeout branch: a timeout ends the phase
      and leaves the state as it was. */
  lemma AwaitTimeout(st: State, acks: nat, sent: nat, events: seq<Event>)
    requires acks < sent && events != [] && events[0].Timeout?
    ensures AwaitSpec(st, acks, sent, events) == AwaitResult(st, acks, 1)
  {
  }

  /** Case view of AwaitSpec's corrupt branch: an acknowledgment with
      crc == 1 ends the phase without moving the window, whatever its ack
      value. */
  lemma AwaitCorrupt(st: State, acks: nat, sent: nat, events: seq<Event>)
    requires acks < sent && events != [] && events[0].Ack? && events[0].crc == 1
    ensures AwaitSpec(st, acks, sent, events) == AwaitResult(Received(st, events[0]), acks, 1)
    ensures AwaitSpec(st, acks, sent, events).state.windowPosition == st.windowPosition
    ensures AwaitSpec(st, acks, sent, events).state.expectedAck == st.expectedAck
  {
  }

  /** Case view of AwaitSpec's termination branch: an acknowledgment with
      fin == 1 ends the phase with fin set, even when it is flagged corrupt,
      and does not move the window. */
  lemma AwaitFin(st: State, acks: nat, sent: nat, events: seq<Event>)
    requires acks < sent && events != [] && events[0].Ack? && events[0].fin == 1
    ensures AwaitSpec(st, acks, sent, events) == AwaitResult(Received(st, events[0]), acks, 1)
    ensures AwaitSpec(st, acks, sent, events).state.fin == 1
  {
  }

  /** Case view of AwaitSpec's accepting branch: an intact acknowledgment
      in range advances both counters by one segment and the phase goes on
      with the next event. */
  lemma AwaitAccept(st: State, acks: nat, sent: nat, events: seq<Event>)
    requires acks < sent && events != [] && events[0].Ack?
    requires events[0].fin != 1 && events[0].crc != 1 && Accepts(st.expectedAck, events[0].ack)
    ensures var next := Received(st, events[0]).(expectedAck := st.expectedAck + MAXBUFLEN,
                                                 windowPosition := st.windowPosition + MAXBUFLEN);
      var rest := AwaitSpec(next, acks + 1, sent, events[1..]);
      AwaitSpec(st, acks, sent, events) == rest.(consumed := rest.consumed + 1)
  {
  }

  /** Case view of AwaitSpec's ignoring branch: an intact acknowledgment
      out of range changes neither counter and the phase goes on with the
      next event. */
  lemma AwaitIgnore(st: State, acks: nat, sent: nat, events: seq<Event>)
    requires acks < sent && events != [] && events[0].Ack?
    requires events[0].fin != 1 && events[0].crc != 1 && !Accepts(st.expectedAck, events[0].ack)
    ensures var rest := AwaitSpec(Received(st, events[0]), acks, sent, events[1..]);
      AwaitSpec(st, acks, sent, events) == rest.(consumed := rest.consumed + 1)
  {
  }

  /** The phase reads past an event only when it is an intact, non-final
      acknowledgment; and it ends on a termination acknowledgment exactly
      when the last event it read is one. */
  lemma {:induction false} AwaitReadsPastPlainAcks(st: State, acks: nat, sent: nat, events: seq<Event>)
    requires st.fin != 1
    ensures var r := AwaitSpec(st, acks, sent, events);
      forall i :: 0 <= i < r.consumed - 1 ==> events[i].Ack? && events[i].fin != 1 && events[i].crc != 1
    ensures var r := AwaitSpec(st, acks, sent, events);
      r.state.fin == 1 <==> (r.consumed > 0 && events[r.consumed - 1].Ack? && events[r.consumed - 1].fin == 1)
    decreases |events|
  {
    var r := AwaitSpec(st, acks, sent, events);
    if acks < sent && events != [] && events[0].Ack? && events[0].fin != 1 && events[0].crc != 1 {
      var e := events[0];
      var next := if Accepts(st.expectedAck, e.ack) then
          Received(st, e).(expectedAck := st.expectedAck + MAXBUFLEN, windowPosition := st.windowPosition + MAXBUFLEN)
        else Received(st, e);
      var acks' := if Accepts(st.expectedAck, e.ack) then acks + 1 else acks;
      AwaitReadsPastPlainAcks(next, acks', sent, events[1..]);
      var rest := AwaitSpec(next, acks', sent, events[1..]);
      assert r == rest.(consumed := rest.consumed + 1);
      forall i | 0 <= i < r.consumed - 1
        ensures events[i].Ack? && events[i].fin != 1 && events[i].crc != 1
      {
        if i > 0 {
          assert events[i] == events[1..][i - 1];
        }
      }
      if rest.consumed > 0 {
        assert events[r.consumed - 1] == events[1..][rest.consumed - 1];
      }
    }
  }

  /** The await phase: consumes events until `numPacketsSent` acknowledgments
      have validated progress or the phase is cut short, and returns the new
      state, the number of validated acknowledgments and the number of
      events read. */
  method AwaitAcks(st: State, numPacketsSent: nat, events: seq<Event>)
    returns (st': State, numAcksReceived: nat, used: nat)
    ensures AwaitSpec(st, 0, numPacketsSent, events) == AwaitResult(st', numAcksReceived, used)
    ensures numAcksReceived <= numPacketsSent && used <= |events|
    ensures st'.expectedAck == st.expectedAck + numAcksReceived * MAXBUFLEN
    ensures st'.windowPosition == st.windowPosition + numAcksReceived * MAXBUFLEN
  {
    st', numAcksReceived, used := st, 0, 0;
    while numAcksReceived < numPacketsSent
      invariant used <= |events|
      invariant var r := AwaitSpec(st', numAcksReceived, numPacketsSent, events[used..]);
        AwaitSpec(st, 0, numPacketsSent, events) == r.(consumed := r.consumed + used)
      decreases |events| - used
    {
      if used == |events| {
        // nothing more arrives: the readiness wait times out
        break;
      }
      var e := events[used];
      assert events[used..][1..] == events[used + 1..];
      used := used + 1;
      if e.Timeout? {
        break;
      }
      st' := st'.(lastSeq := e.seqNum, lastLen := e.len, fin := e.fin);
      if e.fin == 1 {
        break;
      }
      if e.crc == 1 {
        break;
      }
      if e.ack > st'.expectedAck && e.ack <= st'.expectedAck + MAXBUFLEN {
        numAcksReceived := numAcksReceived + 1;
        st' := st'.(expectedAck := st'.expectedAck + MAXBUFLEN, windowPosition := st'.windowPosition + MAXBUFLEN);
      }
    }
  }
}
