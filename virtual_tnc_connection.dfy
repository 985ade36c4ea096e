/**
 * One client of the virtual TNC: DotPacket.Kiss.VirtualTnc/VirtualTncConnection.cs.
 * A connection pairs a KISS consumer, whose queue of decoded frames is `inbox`, with a
 * KISS producer, whose queue of encoded frames awaiting the socket is `outbox`.
 * Object identity is the `id` field.
 */
module VirtualTncConnections {
  import opened Wrappers
  import opened Bytes
  import opened KissFrames
  import KissEncoding

  datatype Connection = Connection(id: nat, connected: bool, inbox: seq<KissFrame>, outbox: seq<seq<byte>>)

  /** A connection as accepted: nothing received, nothing to send. */
  function NewConnection(id: nat, connected: bool): (c: Connection)
    ensures c.id == id && c.connected == connected && c.inbox == [] && c.outbox == []
  {
    Connection(id, connected, [], [])
  }

  /**
   * `QueueFrame`, forwarded to the producer: the frame's KISS encoding joins the end
   * of the outgoing queue, as `KissEncoder.QueueFrame` does, and nothing else changes.
   */
  function QueueFrame(c: Connection, frame: KissFrame): (r: Connection)
    ensures r.outbox == c.outbox + [KissEncoding.EncodeFrame(frame)]
    ensures r.id == c.id && r.connected == c.connected && r.inbox == c.inbox
  {
    c.(outbox := c.outbox + [KissEncoding.EncodeFrame(frame)])
  }

  /**
   * `TakeNextFrame`, forwarded to the consumer: the oldest received frame, removed
   * from the queue, or nothing when the queue is empty.
   */
  function TakeNextFrame(c: Connection): (r: (Option<KissFrame>, Connection))
    ensures r.0.None? <==> c.inbox == []
    ensures r.0.Some? ==> [r.0.value] + r.1.inbox == c.inbox
    ensures r.0.None? ==> r.1 == c
    ensures r.1 == c.(inbox := r.1.inbox)
  {
    if c.inbox == [] then (None, c) else (Some(c.inbox[0]), c.(inbox := c.inbox[1..]))
  }

  /**
   * `TakeOutstandingFrames`: takes frames while the consumer has any, keeping the ones
   * that are not null. The result is the whole queue in arrival order and the queue is
   * left empty.
   */
  method TakeOutstandingFrames(c: Connection) returns (frames: seq<KissFrame>, drained: Connection)
    ensures frames == c.inbox
    ensures drained == c.(inbox := [])
  {
    frames := [];
    drained := c;
    while drained.inbox != []
      invariant frames + drained.inbox == c.inbox
      invariant drained == c.(inbox := drained.inbox)
      decreases |drained.inbox|
    {
      var taken := TakeNextFrame(drained);
      var frame := taken.0;
      drained := taken.1;
      if frame.Some? {
        frames := frames + [frame.value];
      }
    }
  }
}
