/** The fill phase of one round: starting at the window position, send up to
    `cwnd` consecutive chunks of the file, each at most MAXBUFLEN bytes. */
module Fill {
  import opened Protocol

  /** The number of chunk offsets `from + k * MAXBUFLEN` (k >= 0) that lie
      below `length`. */
  function ChunkCount(from: nat, length: nat): nat
    decreases length - from
  {
    if from >= length then 0 else 1 + ChunkCount(from + MAXBUFLEN, length)
  }

  lemma {:induction false} ChunkCountBelow(from: nat, length: nat, k: nat)
    ensures k < ChunkCount(from, length) <==> from + k * MAXBUFLEN < length
    decreases length - from
  {
    if from < length && k > 0 {
      ChunkCountBelow(from + MAXBUFLEN, length, k - 1);
      assert (from + MAXBUFLEN) + (k - 1) * MAXBUFLEN == from + k * MAXBUFLEN;
    }
  }

  /** The descriptor of the data segment sent for the chunk at `position`. */
  function SegmentAt(source: seq<Byte>, position: nat, ackValue: int): (s: Segment)
    requires position < |source|
    ensures s.position == position && s.ackValue == ackValue
    ensures 0 < s.size <= MAXBUFLEN
    ensures s.position + s.size <= |source|
    ensures s.size == MAXBUFLEN || s.position + s.size == |source|
    ensures s.payload == source[position .. position + s.size]
    ensures s.fin <==> s.position + s.size == |source|
  {
    var size := if |source| - position < MAXBUFLEN then |source| - position else MAXBUFLEN;
    Segment(position, size, source[position .. position + size], ackValue, position + MAXBUFLEN >= |source|)
  }

  /** The segments a fill phase starting at `from` with `budget` sends left
      produces: one per chunk, while the position is inside the file and the
      budget lasts, so never more segments than chunks left. */
  function Window(source: seq<Byte>, from: nat, budget: int, ackValue: int): (w: seq<Segment>)
    ensures |w| <= ChunkCount(from, |source|)
    decreases |source| - from
  {
    if from < |source| && budget > 0 then
      [SegmentAt(source, from, ackValue)] + Window(source, from + MAXBUFLEN, budget - 1, ackValue)
    else
      []
  }

  /** A round sends nothing when the budget is not positive or the window is
      past the end of the file, and never more than the budget; every segment
      starts inside the file, at or after the window position, and carries
      the round's ack field. */
  lemma {:induction false} WindowBounds(source: seq<Byte>, from: nat, budget: int, ackValue: int)
    ensures budget <= 0 || from >= |source| ==> Window(source, from, budget, ackValue) == []
    ensures Window(source, from, budget, ackValue) == [] || |Window(source, from, budget, ackValue)| <= budget
    ensures forall k :: 0 <= k < |Window(source, from, budget, ackValue)| ==>
      from <= Window(source, from, budget, ackValue)[k].position < |source| &&
      Window(source, from, budget, ackValue)[k].ackValue == ackValue
    decreases |source| - from
  {
    var w := Window(source, from, budget, ackValue);
    if w != [] {
      var rest := Window(source, from + MAXBUFLEN, budget - 1, ackValue);
      WindowBounds(source, from + MAXBUFLEN, budget - 1, ackValue);
      assert w == [SegmentAt(source, from, ackValue)] + rest;
      forall k | 0 <= k < |w|
        ensures from <= w[k].position < |source| && w[k].ackValue == ackValue
      {
        if k > 0 {
          assert w[k] == rest[k - 1];
        } else {
          assert w[k] == SegmentAt(source, from, ackValue);
        }
      }
    }
  }

  /** The number of segments of a round: min(cwnd, chunks left), and none
      when cwnd is not positive. */
  lemma {:induction false} WindowLength(source: seq<Byte>, from: nat, budget: int, ackValue: int)
    ensures budget <= 0 ==> |Window(source, from, budget, ackValue)| == 0
    ensures budget > 0 ==> (|Window(source, from, budget, ackValue)| ==
      if budget < ChunkCount(from, |source|) then budget else ChunkCount(from, |source|))
    decreases |source| - from
  {
    if from < |source| && budget > 0 {
      WindowLength(source, from + MAXBUFLEN, budget - 1, ackValue);
    }
  }

  /** The k-th segment of a round is the chunk at `from + k * MAXBUFLEN`. */
  lemma {:induction false} WindowAt(source: seq<Byte>, from: nat, budget: int, ackValue: int, k: nat)
    requires k < |Window(source, from, budget, ackValue)|
    ensures from + k * MAXBUFLEN < |source|
    ensures Window(source, from, budget, ackValue)[k] == SegmentAt(source, from + k * MAXBUFLEN, ackValue)
    decreases |source| - from
  {
    if k > 0 {
      WindowAt(source, from + MAXBUFLEN, budget - 1, ackValue, k - 1);
      assert (from + MAXBUFLEN) + (k - 1) * MAXBUFLEN == from + k * MAXBUFLEN;
    }
  }

  /** Within a round only the last segment can carry the termination flag,
      and when it does its payload ends at the end of the file. */
  lemma WindowFin(source: seq<Byte>, from: nat, budget: int, ackValue: int, k: nat)
    requires k < |Window(source, from, budget, ackValue)|
    requires Window(source, from, budget, ackValue)[k].fin
    ensures k == |Window(source, from, budget, ackValue)| - 1
    ensures Window(source, from, budget, ackValue)[k].position + Window(source, from, budget, ackValue)[k].size == |source|
  {
    var w := Window(source, from, budget, ackValue);
    WindowAt(source, from, budget, ackValue, k);
    if k + 1 < |w| {
      WindowAt(source, from, budget, ackValue, k + 1);
      assert false;
    }
  }

  /** The payloads of a sequence of segments, concatenated in order. */
  function Payloads(segs: seq<Segment>): seq<Byte>
  {
    if segs == [] then [] else segs[0].payload + Payloads(segs[1..])
  }

  /** A round's payloads are exactly the file bytes from the window position
      up to the end of its last segment: no gap, no overlap, no padding. */
  lemma {:induction false} WindowPayloads(source: seq<Byte>, from: nat, budget: int, ackValue: int)
    requires from <= |source|
    ensures var w := Window(source, from, budget, ackValue);
      var end := if from + |w| * MAXBUFLEN < |source| then from + |w| * MAXBUFLEN else |source|;
      w != [] ==> Payloads(w) == source[from .. end]
    decreases |source| - from
  {
    var w := Window(source, from, budget, ackValue);
    if w != [] {
      var s := SegmentAt(source, from, ackValue);
      var rest := Window(source, from + MAXBUFLEN, budget - 1, ackValue);
      assert w == [s] + rest;
      assert w[1..] == rest;
      if rest == [] {
        WindowLength(source, from + MAXBUFLEN, budget - 1, ackValue);
        assert Payloads(w) == s.payload;
      } else {
        assert from + MAXBUFLEN < |source|;
        WindowPayloads(source, from + MAXBUFLEN, budget - 1, ackValue);
        var end' := if from + MAXBUFLEN + |rest| * MAXBUFLEN < |source| then from + MAXBUFLEN + |rest| * MAXBUFLEN else |source|;
        assert from + |w| * MAXBUFLEN == from + MAXBUFLEN + |rest| * MAXBUFLEN;
        assert Payloads(w) == source[from .. from + MAXBUFLEN] + source[from + MAXBUFLEN .. end'];
        assert source[from .. from + MAXBUFLEN] + source[from + MAXBUFLEN .. end'] == source[from .. end'];
      }
    }
  }

  /** Builds the transmit buffer of one segment: MAXBUFLEN zero bytes, then
      the first `size` of them overwritten with the chunk at `position`. */
  method CopyChunk(source: seq<Byte>, position: nat, size: nat) returns (temp: array<Byte>)
    requires size <= MAXBUFLEN && position + size <= |source|
    ensures temp.Length == MAXBUFLEN
    ensures temp[..size] == source[position .. position + size]
    ensures forall i :: size <= i < MAXBUFLEN ==> temp[i] == 0
  {
    temp := new Byte[MAXBUFLEN](_ => 0);
    var i := 0;
    while i < size
      invariant 0 <= i <= size
      invariant forall j :: 0 <= j < i ==> temp[j] == source[position + j]
      invariant forall j :: size <= j < MAXBUFLEN ==> temp[j] == 0
    {
      temp[i] := source[position + i];
      i := i + 1;
    }
  }

  /** The fill phase: sends one segment per chunk from `windowPosition` on,
      at most `cwnd` of them, and returns their descriptors in send order. */
  method FillWindow(source: seq<Byte>, windowPosition: nat, cwnd: int, ackValue: int) returns (segs: seq<Segment>)
    ensures segs == Window(source, windowPosition, cwnd, ackValue)
    ensures cwnd <= 0 ==> segs == []
    ensures cwnd > 0 ==> (|segs| ==
      if cwnd < ChunkCount(windowPosition, |source|) then cwnd else ChunkCount(windowPosition, |source|))
    ensures forall k :: 0 <= k < |segs| ==>
      windowPosition + k * MAXBUFLEN < |source| && segs[k] == SegmentAt(source, windowPosition + k * MAXBUFLEN, ackValue)
  {
    var numPacketsSent := 0;
    var tempPosition := windowPosition;
    segs := [];
    while tempPosition < |source| && numPacketsSent < cwnd
      invariant segs + Window(source, tempPosition, cwnd - numPacketsSent, ackValue) == Window(source, windowPosition, cwnd, ackValue)
      decreases |source| - tempPosition
    {
      var size := MAXBUFLEN;
      if |source| - tempPosition < MAXBUFLEN {
        size := |source| - tempPosition;
      }
      var temp := CopyChunk(source, tempPosition, size);
      var segment := Segment(tempPosition, size, temp[..size], ackValue, tempPosition + MAXBUFLEN >= |source|);
      assert segment == SegmentAt(source, tempPosition, ackValue);
      assert Window(source, tempPosition, cwnd - numPacketsSent, ackValue)
          == [segment] + Window(source, tempPosition + MAXBUFLEN, cwnd - numPacketsSent - 1, ackValue);
      segs := segs + [segment];
      tempPosition := tempPosition + MAXBUFLEN;
      numPacketsSent := numPacketsSent + 1;
    }
    WindowLength(source, windowPosition, cwnd, ackValue);
    forall k | 0 <= k < |segs|
      ensures windowPosition + k * MAXBUFLEN < |source| && segs[k] == SegmentAt(source, windowPosition + k * MAXBUFLEN, ackValue)
    {
      WindowAt(source, windowPosition, cwnd, ackValue, k);
    }
  }
}
