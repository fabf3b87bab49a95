/** Two concrete runs of the round loop over a 2500-byte file with a window
    of two segments. */
module Scenarios {
  import opened Protocol
  import opened Fill
  import opened Await
  import opened Transfer

  /** The peer acknowledges each segment in turn and confirms termination
      on the last one. */
  function CleanAcks(): seq<Event>
  {
    [Ack(0, 1024, 0, 0, 0), Ack(0, 2048, 0, 0, 0), Ack(0, 2500, 0, 1, 0)]
  }

  /** The first round sends the chunks at offsets 0 and 1024. */
  lemma FirstWindow(source: seq<Byte>)
    requires |source| == 2500
    ensures RoundSegments(source, 2, INITIAL) == [SegmentAt(source, 0, 0), SegmentAt(source, 1024, 0)]
  {
    var s0 := SegmentAt(source, 0, 0);
    var s1 := SegmentAt(source, 1024, 0);
    var w1 := Window(source, 1024, 1, 0);
    assert w1 == [s1] + Window(source, 2048, 0, 0);
    assert Window(source, 2048, 0, 0) == [];
    assert w1 == [s1];
    var w := Window(source, 0, 2, 0);
    assert w == [s0] + w1;
    assert w == [s0, s1];
  }

  /** The window after the first round's two acknowledgments. */
  const MID: State := State(2048, 2048, 0, 0, 0)

  /** Both acknowledgments of the first round validate progress. */
  lemma FirstAwait()
    ensures AwaitSpec(INITIAL, 0, 2, CleanAcks()) == AwaitResult(MID, 2, 2)
  {
  }

  /** The second round sends the final chunk alone. */
  lemma SecondWindow(source: seq<Byte>)
    requires |source| == 2500
    ensures RoundSegments(source, 2, MID) == [SegmentAt(source, 2048, 0)]
  {
    var s2 := SegmentAt(source, 2048, 0);
    var w := Window(source, 2048, 2, 0);
    assert w == [s2] + Window(source, 3072, 1, 0);
    assert Window(source, 3072, 1, 0) == [];
    assert w == [s2];
  }

  /** The termination acknowledgment ends the second round. */
  lemma SecondAwait()
    ensures CleanAcks()[2..] == [Ack(0, 2500, 0, 1, 0)]
    ensures AwaitSpec(MID, 0, 1, CleanAcks()[2..]) == AwaitResult(State(2048, 2048, 1, 0, 0), 0, 1)
  {
    assert CleanAcks()[2..] == [Ack(0, 2500, 0, 1, 0)];
  }

  /** Without loss: three segments of 1024, 1024 and 452 bytes in two
      rounds, the third carrying the termination flag, and the run ends on
      the termination acknowledgment. */
  lemma CleanTransfer(source: seq<Byte>)
    requires |source| == 2500
    ensures var r := TransferSpec(source, 2, INITIAL, CleanAcks());
      r.outcome == Finished && r.rounds == 2 &&
      r.sent == [SegmentAt(source, 0, 0), SegmentAt(source, 1024, 0), SegmentAt(source, 2048, 0)]
    ensures 
      SegmentAt(source, 0, 0).size == 1024 && !SegmentAt(source, 0, 0).fin &&
      SegmentAt(source, 1024, 0).size == 1024 && !SegmentAt(source, 1024, 0).fin &&
      SegmentAt(source, 2048, 0).size == 452 && SegmentAt(source, 2048, 0).fin
  {
    var events := CleanAcks();
    FirstWindow(source);
    FirstAwait();
    SecondWindow(source);
    SecondAwait();
    TransferRound(source, 2, INITIAL, events);
    TransferRound(source, 2, MID, events[2..]);
    var last := TransferSpec(source, 2, State(2048, 2048, 1, 0, 0), events[2..][1..]);
    assert last == TransferResult(State(2048, 2048, 1, 0, 0), Finished, [], 0);
    assert [SegmentAt(source, 0, 0), SegmentAt(source, 1024, 0)] + ([SegmentAt(source, 2048, 0)] + [])
        == [SegmentAt(source, 0, 0), SegmentAt(source, 1024, 0), SegmentAt(source, 2048, 0)];
  }

  /** Every segment of the first round is lost, so its wait times out; the
      second round resends the segments at offsets 0 and 1024 unchanged and
      the transfer then completes as without loss. */
  lemma LostFirstRound(source: seq<Byte>)
    requires |source| == 2500
    ensures var r := TransferSpec(source, 2, INITIAL, [Timeout] + CleanAcks());
      r.outcome == Finished && r.rounds == 3 &&
      r.sent == [SegmentAt(source, 0, 0), SegmentAt(source, 1024, 0),
                 SegmentAt(source, 0, 0), SegmentAt(source, 1024, 0), SegmentAt(source, 2048, 0)]
  {
    FirstWindow(source);
    RetransmitAfterTimeout(source, 2, INITIAL, CleanAcks());
    CleanTransfer(source);
  }
}
