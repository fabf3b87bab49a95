/** The sender's round loop: fill the window, await acknowledgments, and
    repeat until a termination acknowledgment arrives. */
module Transfer {
  import opened Protocol
  import opened Fill
  import opened Await

  /** How an observed run ends: a termination acknowledgment was read; the
      event stream ran out at the start of a round (from there on nothing
      arrives, every wait times out and the same window is resent forever);
      or a round had nothing to send, so the loop would spin without ever
      waiting (the window is past the end of the file without a termination
      acknowledgment, or cwnd is not positive). */
  datatype Outcome = Finished | Exhausted | Stalled

  /** The final state, how the run ended, every data segment sent in order,
      and the number of rounds that sent something. */
  datatype TransferResult = TransferResult(state: State, outcome: Outcome, sent: seq<Segment>, rounds: nat)

  /** The segments the next round sends from state `st`. */
  function RoundSegments(source: seq<Byte>, cwnd: int, st: State): seq<Segment>
  {
    Window(source, st.windowPosition, cwnd, AckField(st))
  }

  /** The rounds from state `st` on, reading `events`. */
  function TransferSpec(source: seq<Byte>, cwnd: int, st: State, events: seq<Event>): (r: TransferResult)
    ensures r.outcome == Finished <==> r.state.fin == 1
    ensures r.outcome == Stalled ==> cwnd <= 0 || |source| <= r.state.windowPosition
    ensures st.windowPosition <= r.state.windowPosition
    ensures Aligned(st) ==> Aligned(r.state)
    decreases |events|
  {
    if st.fin == 1 then TransferResult(st, Finished, [], 0)
    else if events == [] then TransferResult(st, Exhausted, [], 0)
    else
      var segs := RoundSegments(source, cwnd, st);
      if segs == [] then TransferResult(st, Stalled, [], 0)
      else
        var a := AwaitSpec(st, 0, |segs|, events);
        var rest := TransferSpec(source, cwnd, a.state, events[a.consumed..]);
        rest.(sent := segs + rest.sent, rounds := rest.rounds + 1)
  }

  /** One round moves the window by one segment per validated
      acknowledgment, never beyond the segments it sent, so by at most
      cwnd segments. */
  lemma RoundAdvance(source: seq<Byte>, cwnd: int, st: State, events: seq<Event>)
    ensures var segs := RoundSegments(source, cwnd, st);
      var a := AwaitSpec(st, 0, |segs|, events);
      a.acks <= |segs| && (cwnd > 0 ==> |segs| <= cwnd) && (cwnd <= 0 ==> a.acks == 0) &&
      a.state.windowPosition == st.windowPosition + a.acks * MAXBUFLEN &&
      a.state.windowPosition <= st.windowPosition + |segs| * MAXBUFLEN
  {
    WindowLength(source, st.windowPosition, cwnd, AckField(st));
  }

  /** The window never runs more than one segment past the end of the file:
      it only moves over segments that were sent, and every sent segment
      starts inside the file. */
  lemma {:induction false} TransferWithinFile(source: seq<Byte>, cwnd: int, st: State, events: seq<Event>)
    requires st.windowPosition < |source| + MAXBUFLEN
    ensures TransferSpec(source, cwnd, st, events).state.windowPosition < |source| + MAXBUFLEN
    decreases |events|
  {
    if st.fin != 1 && events != [] && RoundSegments(source, cwnd, st) != [] {
      var segs := RoundSegments(source, cwnd, st);
      var a := AwaitSpec(st, 0, |segs|, events);
      if a.acks > 0 {
        WindowAt(source, st.windowPosition, cwnd, AckField(st), a.acks - 1);
        assert st.windowPosition + (a.acks - 1) * MAXBUFLEN + MAXBUFLEN == a.state.windowPosition;
      }
      TransferWithinFile(source, cwnd, a.state, events[a.consumed..]);
    }
  }

  /** Every segment in `sent` is a whole, aligned chunk of the file, copied
      verbatim. */
  ghost predicate SentChunks(source: seq<Byte>, sent: seq<Segment>)
  {
    forall i :: 0 <= i < |sent| ==>
      sent[i].position < |source| && sent[i].position % MAXBUFLEN == 0 &&
      sent[i] == SegmentAt(source, sent[i].position, sent[i].ackValue)
  }

  /** The segments of one round from an aligned window start are whole,
      aligned chunks of the file. */
  lemma RoundSendsChunks(source: seq<Byte>, cwnd: int, st: State)
    requires st.windowPosition % MAXBUFLEN == 0
    ensures SentChunks(source, RoundSegments(source, cwnd, st))
  {
    var segs := RoundSegments(source, cwnd, st);
    forall i | 0 <= i < |segs|
      ensures segs[i].position < |source| && segs[i].position % MAXBUFLEN == 0 &&
        segs[i] == SegmentAt(source, segs[i].position, segs[i].ackValue)
    {
      WindowAt(source, st.windowPosition, cwnd, AckField(st), i);
      assert (st.windowPosition + i * MAXBUFLEN) % MAXBUFLEN == 0;
    }
  }

  lemma SentChunksConcat(source: seq<Byte>, a: seq<Segment>, b: seq<Segment>)
    requires SentChunks(source, a) && SentChunks(source, b)
    ensures SentChunks(source, a + b)
  {
    forall i | 0 <= i < |a + b|
      ensures (a + b)[i].position < |source| && (a + b)[i].position % MAXBUFLEN == 0 &&
        (a + b)[i] == SegmentAt(source, (a + b)[i].position, (a + b)[i].ackValue)
    {
      if i >= |a| {
        assert (a + b)[i] == b[i - |a|];
      }
    }
  }

  /** The await phase keeps the window start and the expected
      acknowledgment together on a segment boundary. */
  lemma AwaitKeepsAligned(st: State, sent: nat, events: seq<Event>)
    requires Aligned(st)
    ensures Aligned(AwaitSpec(st, 0, sent, events).state)
  {
    var a := AwaitSpec(st, 0, sent, events);
    AddChunks(st.windowPosition, a.acks);
  }

  lemma {:induction false} AddChunks(x: nat, n: nat)
    requires x % MAXBUFLEN == 0
    ensures (x + n * MAXBUFLEN) % MAXBUFLEN == 0
    decreases n
  {
    if n > 0 {
      AddChunks(x, n - 1);
      assert x + n * MAXBUFLEN == (x + (n - 1) * MAXBUFLEN) + MAXBUFLEN;
    }
  }

  /** Go-Back-N: every segment the transfer sends is a whole, aligned chunk of
      the file, copied verbatim, carrying the termination flag exactly when
      it ends at the end of the file. */
  lemma {:induction false} TransferSendsChunks(source: seq<Byte>, cwnd: int, st: State, events: seq<Event>)
    requires Aligned(st)
    ensures SentChunks(source, TransferSpec(source, cwnd, st, events).sent)
    decreases |events|
  {
    if st.fin != 1 && events != [] && RoundSegments(source, cwnd, st) != [] {
      var segs := RoundSegments(source, cwnd, st);
      var a := AwaitSpec(st, 0, |segs|, events);
      AwaitKeepsAligned(st, |segs|, events);
      TransferSendsChunks(source, cwnd, a.state, events[a.consumed..]);
      RoundSendsChunks(source, cwnd, st);
      SentChunksConcat(source, segs, TransferSpec(source, cwnd, a.state, events[a.consumed..]).sent);
    }
  }

  /** One round of the loop, unfolded: fill from the current state, await
      over the events, and carry on from what the await phase left. */
  lemma TransferRound(source: seq<Byte>, cwnd: int, st: State, events: seq<Event>)
    requires st.fin != 1 && events != [] && RoundSegments(source, cwnd, st) != []
    ensures var segs := RoundSegments(source, cwnd, st);
      var a := AwaitSpec(st, 0, |segs|, events);
      var rest := TransferSpec(source, cwnd, a.state, events[a.consumed..]);
      a.consumed >= 1 &&
      TransferSpec(source, cwnd, st, events) == rest.(sent := segs + rest.sent, rounds := rest.rounds + 1)
  {
  }

  /** The loop invariant of `Run` carried over one round: what is still to
      come from `st`, after `sent` and `rounds` so far, equals what is still
      to come after that round, with its segments and itself accounted for. */
  lemma RunStep(source: seq<Byte>, cwnd: int, st: State, events: seq<Event>, sent: seq<Segment>, rounds: nat)
    requires st.fin != 1 && events != [] && RoundSegments(source, cwnd, st) != []
    ensures var segs := RoundSegments(source, cwnd, st);
      var a := AwaitSpec(st, 0, |segs|, events);
      var r := TransferSpec(source, cwnd, st, events);
      var rest := TransferSpec(source, cwnd, a.state, events[a.consumed..]);
      a.consumed >= 1 &&
      r.(sent := sent + r.sent, rounds := rounds + r.rounds) ==
        rest.(sent := (sent + segs) + rest.sent, rounds := (rounds + 1) + rest.rounds)
  {
    var segs := RoundSegments(source, cwnd, st);
    var a := AwaitSpec(st, 0, |segs|, events);
    var rest := TransferSpec(source, cwnd, a.state, events[a.consumed..]);
    TransferRound(source, cwnd, st, events);
    assert (sent + segs) + rest.sent == sent + (segs + rest.sent);
  }

  /** The only aligned chunk that ends at the end of the file starts at the
      last multiple of MAXBUFLEN below the file length. */
  lemma FinalChunk(source: seq<Byte>, s: Segment)
    requires s.position < |source| && s.position % MAXBUFLEN == 0
    requires s == SegmentAt(source, s.position, s.ackValue)
    requires s.fin
    ensures s.position == (|source| - 1) / MAXBUFLEN * MAXBUFLEN
    ensures s.position + s.size == |source|
  {
  }

  /** Termination travels only on the final chunk: every segment of the
      transfer that carries it has the same position and ends at the end of
      the file. */
  lemma TransferFinOnFinalChunk(source: seq<Byte>, cwnd: int, events: seq<Event>)
    ensures var r := TransferSpec(source, cwnd, INITIAL, events);
      forall i :: 0 <= i < |r.sent| && r.sent[i].fin ==>
        r.sent[i].position == (|source| - 1) / MAXBUFLEN * MAXBUFLEN &&
        r.sent[i].position + r.sent[i].size == |source|
  {
    var r := TransferSpec(source, cwnd, INITIAL, events);
    TransferSendsChunks(source, cwnd, INITIAL, events);
    forall i | 0 <= i < |r.sent| && r.sent[i].fin
      ensures r.sent[i].position == (|source| - 1) / MAXBUFLEN * MAXBUFLEN &&
        r.sent[i].position + r.sent[i].size == |source|
    {
      FinalChunk(source, r.sent[i]);
    }
  }

  /** A round that times out leaves the state untouched, so the next round
      resends exactly the same segments. */
  lemma RetransmitAfterTimeout(source: seq<Byte>, cwnd: int, st: State, rest: seq<Event>)
    requires st.fin != 1 && RoundSegments(source, cwnd, st) != []
    ensures var later := TransferSpec(source, cwnd, st, rest);
      TransferSpec(source, cwnd, st, [Timeout] + rest) ==
        later.(sent := RoundSegments(source, cwnd, st) + later.sent, rounds := later.rounds + 1)
  {
    var events := [Timeout] + rest;
    assert events[1..] == rest;
    AwaitTimeout(st, 0, |RoundSegments(source, cwnd, st)|, events);
  }

  /** The transmission loop: rounds of fill and await until a termination
      acknowledgment is read, or the run stops as described by Outcome. */
  method Run(source: seq<Byte>, cwnd: int, events: seq<Event>)
    returns (st: State, outcome: Outcome, sent: seq<Segment>, rounds: nat)
    ensures TransferSpec(source, cwnd, INITIAL, events) == TransferResult(st, outcome, sent, rounds)
    ensures Aligned(st) && st.windowPosition < |source| + MAXBUFLEN
    ensures outcome == Finished <==> st.fin == 1
    ensures outcome == Stalled ==> cwnd <= 0 || |source| <= st.windowPosition
    ensures SentChunks(source, sent)
  {
    st, outcome, sent, rounds := INITIAL, Finished, [], 0;
    var pending := events;
    while st.fin != 1
      invariant var r := TransferSpec(source, cwnd, st, pending);
        TransferSpec(source, cwnd, INITIAL, events) == r.(sent := sent + r.sent, rounds := rounds + r.rounds)
      decreases |pending|
    {
      if pending == [] {
        outcome := Exhausted;
        break;
      }
      var segs := FillWindow(source, st.windowPosition, cwnd, AckField(st));
      if segs == [] {
        outcome := Stalled;
        break;
      }
      RunStep(source, cwnd, st, pending, sent, rounds);
      var numAcksReceived, used;
      var next;
      next, numAcksReceived, used := AwaitAcks(st, |segs|, pending);
      sent := sent + segs;
      rounds := rounds + 1;
      st := next;
      pending := pending[used..];
    }
    assert sent + [] == sent;
    TransferWithinFile(source, cwnd, INITIAL, events);
    TransferSendsChunks(source, cwnd, INITIAL, events);
  }
}
