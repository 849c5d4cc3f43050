/** What `produce_from_stream` delivers of its stream: it takes the first read that leaves space unused for the end. */
module Streams {
  import opened ByteStrings
  import opened RingBuffer
  import opened Transfer
  import opened Completion

  /** All the bytes a stream would yield if it were read to its end. */
  function AllBytes(events: seq<SourceRead>): Bytes {
    if events == [] then []
    else (if events[0].Filled? then events[0].bytes else []) + AllBytes(events[1..])
  }

  /** No read leaves space unused, or fails, while bytes are still to come. */
  predicate NoEarlyShortRead(capacity: nat, events: seq<SourceRead>) {
    events == [] ||
    match events[0]
    case NotReady => NoEarlyShortRead(capacity, events[1..])
    case Broken => AllBytes(events[1..]) == []
    case Filled(bytes) =>
      if |bytes| < capacity then AllBytes(events[1..]) == [] else NoEarlyShortRead(capacity, events[1..])
  }

  /** `produce_from_stream` takes a short read for the end of the stream, so it delivers the whole stream exactly
      when no short read comes early. */
  lemma {:induction false} WholeStreamAccepted(capacity: nat, events: seq<SourceRead>)
    ensures Accepted(capacity, events) == AllBytes(events) <==> NoEarlyShortRead(capacity, events)
    ensures Accepted(capacity, events) <= AllBytes(events)
  {
    if events != [] {
      WholeStreamAccepted(capacity, events[1..]);
      var later := AllBytes(events[1..]);
      match events[0]
      case NotReady => assert AllBytes(events) == later;
      case Broken => assert AllBytes(events) == later;
      case Filled(bytes) =>
        assert |bytes + later| == |bytes| + |later|;
        if |bytes| >= capacity && Accepted(capacity, events) == AllBytes(events) {
          SplitEqual(bytes, Accepted(capacity, events[1..]), bytes, later);
        }
    }
  }

  /** The events of a stream over `data` that fills every read until it ends, and may keep the reader waiting at any
      time. */
  predicate Fills(capacity: nat, events: seq<SourceRead>, data: Bytes) {
    if events == [] then data == []
    else match events[0]
      case NotReady => Fills(capacity, events[1..], data)
      case Broken => false
      case Filled(bytes) =>
        var n := Min(capacity, |data|);
        bytes == data[..n] && Fills(capacity, events[1..], data[n..])
  }

  /** Such a stream is accepted whole and ends cleanly, also when it is empty or its length is an exact multiple of the
      capacity. */
  lemma {:induction false} FillingStreamAccepted(capacity: nat, events: seq<SourceRead>, data: Bytes)
    requires capacity > 0 && Fills(capacity, events, data)
    ensures Accepted(capacity, events) == data && EndsCleanly(capacity, events)
    ensures forall e | e in events && e.Filled? :: |e.bytes| <= capacity
    ensures forall room: nat | capacity <= room :: ChunksFit(capacity, room, events)
  {
    if events != [] {
      assert events == [events[0]] + events[1..];
      match events[0]
      case NotReady => FillingStreamAccepted(capacity, events[1..], data);
      case Filled(bytes) =>
        FillingStreamAccepted(capacity, events[1..], data[|bytes|..]);
        assert data == data[..|bytes|] + data[|bytes|..];
        if |bytes| < capacity {
          assert data[..|bytes|] == data;
        }
    }
  }

  /** A fair executor completes the transfer of such a stream: the reader is handed exactly its bytes, and both sides
      return its length. */
  lemma FillingStreamDelivered(
      ring: Ring, events: seq<SourceRead>, data: Bytes, consumer: Consumer, rounds: seq<seq<Choice>>)
    requires ring.capacity > 0 && ring.state.Writable? && Fills(ring.capacity, events, data)
    requires consumer.ReadLoop? ==> ring.capacity <= consumer.room
    requires Fair(rounds) && |rounds| >= Measure(Start(ring, FromStream(events, 0), consumer))
    ensures
      var s := Exec(Start(ring, FromStream(events, 0), consumer), Flatten(rounds));
      && Completed(s) && Flatten(s.log) == data && s.total == |data|
      && s.producer.FromStream? && s.producer.total == |data|
      && (consumer.ConsumeAll? ==> s.ring.state.ReadFinished?)
  {
    FillingStreamAccepted(ring.capacity, events, data);
    TransferCompletes(ring, FromStream(events, 0), consumer, rounds);
  }
}
