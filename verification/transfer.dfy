/** One transfer through the shared buffer, as a state machine over polls.

    The writer is `produce_all` (tokio's `write_all` loop over `poll_write`) or `produce_from_stream`; the
    reader is `consume_all`, or a loop over `read` until it returns no bytes. An executor polls a task only
    after it was woken, but may also poll one spuriously. */
module Transfer {
  import opened Wrappers
  import opened ByteStrings
  import opened RingBuffer

  // ----- configuration and state

  datatype Producer =
    | WriteAll(rest: Bytes)
    | FromStream(events: seq<SourceRead>, total: nat)

  datatype Consumer =
    | ConsumeAll
    | ReadLoop(room: nat)

  /** `Parked`: returned `Pending` because of the buffer. `Awaiting`: returned `Pending` because of the stream,
      which now holds the waker. `Failed`: returned an error. */
  datatype Status = Runnable | Parked | Awaiting | Done | Failed(error: PollError)

  /** `consume_all` reads the state flag in a step of its own after each poll. */
  datatype ReaderPoint = Polling | Checking

  /** `total` is the count the reader returns; `log` lists the slices it was handed. */
  datatype Sys = Sys(
    ring: Ring, producer: Producer, consumer: Consumer, writer: Status,
    reader: Status, point: ReaderPoint, total: nat, log: seq<Bytes>)

  /** A transfer may start on any buffer whose flag is `Writable`: a new one, or one that was reused, with
      whatever wakers are still stored in it. */
  function Start(ring: Ring, producer: Producer, consumer: Consumer): Sys {
    Sys(ring, producer, consumer, Runnable, Runnable, Polling, 0, [])
  }

  // ----- steps

  function Wake(s: Sys, woken: Option<Task>): Sys {
    match woken
    case None => s
    case Some(WriterTask) => if s.writer.Parked? || s.writer.Awaiting? then s.(writer := Runnable) else s
    case Some(ReaderTask) => if s.reader.Parked? then s.(reader := Runnable) else s
  }

  function WriterStep(s: Sys): Sys {
    match s.producer
    case WriteAll(rest) =>
      if rest == [] then
        s.(writer := Done)
      else
        var p := PollWrite(s.ring, WriterTask, rest);
        var s1 := Wake(s.(ring := p.ring), p.woken);
        if p.result.Pending? then
          s1.(writer := Parked)
        else
          var n := p.result.value.value;
          s1.(producer := WriteAll(rest[n..]), writer := if n == 0 then Failed(WriteZero) else Runnable)
    case FromStream(events, total) =>
      var next := if events == [] then Filled([]) else events[0];
      var p := PollProducer(s.ring, WriterTask, Some(next));
      var s1 := Wake(s.(ring := p.ring), p.woken);
      var events' := if s.ring.state.Writable? && events != [] && !next.Broken? then events[1..] else events;
      match p.result
      case Pending =>
        s1.(producer := FromStream(events', total), writer := if s.ring.state.Writable? then Awaiting else Parked)
      case Ready(Ok(n)) =>
        s1.(producer := FromStream(events', total + n), writer := if n == 0 then Done else Runnable)
      case Ready(Err(e)) =>
        s1.(writer := Failed(e))
  }

  function ReaderStep(s: Sys): Sys {
    if s.point.Checking? then
      s.(point := Polling, reader := if s.ring.state.ReadFinished? then Done else Runnable)
    else
      match s.consumer
      case ConsumeAll =>
        var p := PollConsumer(s.ring, ReaderTask, Some(true));
        var s1 := Wake(s.(ring := p.ring), p.woken);
        if p.result.Pending? then
          s1.(reader := Parked)
        else
          s1.(total := s.total + p.result.value.value, point := Checking,
              log := if p.fed.Some? then s.log + [p.fed.value] else s.log)
      case ReadLoop(room) =>
        var p := PollRead(s.ring, ReaderTask, room);
        var s1 := Wake(s.(ring := p.ring), p.woken);
        match p.result
        case Pending => s1.(reader := Parked)
        case Ready(Ok(bytes)) =>
          s1.(total := s.total + |bytes|, log := s.log + [bytes], reader := if bytes == [] then Done else Runnable)
        case Ready(Err(e)) => s1.(reader := Failed(e))
  }

  /** What the environment decides: which task the executor runs, a spurious poll of a waiting task, or that the
      stream has become ready and wakes the writer. */
  datatype Choice = Run(task: Task) | Spurious(task: Task) | StreamWake

  function Next(s: Sys, c: Choice): Sys {
    match c
    case Run(WriterTask) => if s.writer.Runnable? then WriterStep(s) else s
    case Run(ReaderTask) => if s.reader.Runnable? then ReaderStep(s) else s
    case Spurious(WriterTask) =>
      if s.writer.Parked? || s.writer.Awaiting? then WriterStep(s.(writer := Runnable)) else s
    case Spurious(ReaderTask) =>
      if s.reader.Parked? then ReaderStep(s.(reader := Runnable)) else s
    case StreamWake =>
      if s.writer.Awaiting? then s.(writer := Runnable) else s
  }

  function Exec(s: Sys, schedule: seq<Choice>): Sys
    decreases schedule
  {
    if schedule == [] then s else Exec(Next(s, schedule[0]), schedule[1..])
  }

  // ----- what a producer has to offer

  /** The bytes a stream yields up to and including its first read that leaves space unused; a later read never
      happens. */
  function Accepted(capacity: nat, events: seq<SourceRead>): Bytes {
    if events == [] then []
    else match events[0]
      case NotReady => Accepted(capacity, events[1..])
      case Broken => []
      case Filled(bytes) => if |bytes| < capacity then bytes else bytes + Accepted(capacity, events[1..])
  }

  function Payload(capacity: nat, p: Producer): Bytes {
    match p
    case WriteAll(rest) => rest
    case FromStream(events, _) => Accepted(capacity, events)
  }

  predicate EndsCleanly(capacity: nat, events: seq<SourceRead>) {
    events == [] ||
    match events[0]
    case NotReady => EndsCleanly(capacity, events[1..])
    case Broken => false
    case Filled(bytes) => |bytes| < capacity || EndsCleanly(capacity, events[1..])
  }

  /** Checkable before the transfer: the buffer has room for something; `produce_all` has something to write; a
      stream ends, or leaves space unused, before it fails. */
  predicate WillFinish(capacity: nat, p: Producer) {
    && capacity > 0
    && match p
       case WriteAll(rest) => rest != []
       case FromStream(events, _) => EndsCleanly(capacity, events)
  }

  // ----- safety: conservation of bytes and no lost wake-up, in every reachable state

  predicate NoLostWakeUp(s: Sys) {
    && (s.writer.Parked? ==> s.ring.state.Readable? && s.ring.wWaker == Some(WriterTask))
    && (s.writer.Awaiting? ==> s.ring.state.Writable?)
    && (s.reader.Parked? ==> s.ring.state.Writable? && s.ring.rWaker == Some(ReaderTask))
    && !s.reader.Awaiting?
    && (s.point.Checking? ==> s.consumer.ConsumeAll? && s.reader.Runnable?)
  }

  /** What is still to be handed to the reader: the buffer's unread bytes, then what the producer still offers. */
  function Undelivered(s: Sys): Bytes {
    s.ring.InFlight() + (if s.ring.Open() then Payload(s.ring.capacity, s.producer) else [])
  }

  ghost predicate Conserved(s: Sys, payload: Bytes) {
    && Flatten(s.log) + Undelivered(s) == payload
    && s.total == |Flatten(s.log)|
    && (s.producer.FromStream? ==> s.producer.total == s.total + |s.ring.InFlight()|)
    && (s.consumer.ReadLoop? ==> !s.ring.state.ReadFinished?)
  }

  ghost predicate Safe(s: Sys, payload: Bytes) {
    NoLostWakeUp(s) && Conserved(s, payload)
  }

  lemma WriteAllStepSafe(s: Sys, payload: Bytes)
    requires Safe(s, payload) && s.writer.Runnable? && s.producer.WriteAll?
    ensures Safe(WriterStep(s), payload)
  {
    var rest := s.producer.rest;
    if rest != [] && s.ring.state.Writable? {
      var n := Min(s.ring.capacity, |rest|);
      assert rest == rest[..n] + rest[n..];
      assert Undelivered(WriterStep(s)) == Undelivered(s);
    }
  }

  lemma StreamStepSafe(s: Sys, payload: Bytes)
    requires Safe(s, payload) && s.writer.Runnable? && s.producer.FromStream?
    ensures Safe(WriterStep(s), payload)
  {
    if s.ring.state.Writable? {
      StreamReadSafe(s, payload);
    }
  }

  lemma StreamReadSafe(s: Sys, payload: Bytes)
    requires Safe(s, payload) && s.writer.Runnable? && s.producer.FromStream? && s.ring.state.Writable?
    ensures Safe(WriterStep(s), payload)
  {
    var s' := WriterStep(s);
    assert Undelivered(s') == Undelivered(s);
    assert s'.log == s.log && s'.total == s.total && s'.consumer == s.consumer;
  }

  lemma ConsumeStepSafe(s: Sys, payload: Bytes)
    requires Safe(s, payload) && s.reader.Runnable? && s.point.Polling? && s.consumer.ConsumeAll?
    ensures Safe(ReaderStep(s), payload)
  {
    var s' := ReaderStep(s);
    if s.ring.state.Readable? || s.ring.state.WriteFinished? {
      assert s'.log == s.log + [s.ring.buf];
      FlattenSnoc(s.log, s.ring.buf);
      assert Undelivered(s) == s.ring.buf + Undelivered(s');
    }
  }

  lemma ReadLoopStepSafe(s: Sys, payload: Bytes)
    requires Safe(s, payload) && s.reader.Runnable? && s.point.Polling? && s.consumer.ReadLoop?
    ensures Safe(ReaderStep(s), payload)
  {
    var s' := ReaderStep(s);
    if !s.ring.state.Writable? && |s.ring.buf| <= s.consumer.room {
      assert s'.log == s.log + [s.ring.buf];
      FlattenSnoc(s.log, s.ring.buf);
      assert Undelivered(s) == s.ring.buf + Undelivered(s');
    }
  }

  lemma ReaderStepSafe(s: Sys, payload: Bytes)
    requires Safe(s, payload) && s.reader.Runnable?
    ensures Safe(ReaderStep(s), payload)
  {
    if s.point.Polling? {
      match s.consumer
      case ConsumeAll => ConsumeStepSafe(s, payload);
      case ReadLoop(_) => ReadLoopStepSafe(s, payload);
    }
  }

  lemma NextSafe(s: Sys, c: Choice, payload: Bytes)
    requires Safe(s, payload)
    ensures Safe(Next(s, c), payload)
  {
    match c
    case Run(WriterTask) => WriterPollSafe(s, payload);
    case Run(ReaderTask) => if s.reader.Runnable? { ReaderStepSafe(s, payload); }
    case Spurious(WriterTask) => if s.writer.Parked? || s.writer.Awaiting? { WriterPollSafe(s.(writer := Runnable), payload); }
    case Spurious(ReaderTask) => if s.reader.Parked? { ReaderStepSafe(s.(reader := Runnable), payload); }
    case StreamWake =>
  }

  lemma WriterPollSafe(s: Sys, payload: Bytes)
    requires Safe(s, payload)
    ensures s.writer.Runnable? ==> Safe(WriterStep(s), payload)
  {
    if s.writer.Runnable? {
      match s.producer
      case WriteAll(_) => WriteAllStepSafe(s, payload);
      case FromStream(_, _) => StreamStepSafe(s, payload);
    }
  }

  /** Every run: the slices handed over, in order, are a prefix of the payload; the reader's count is their
      length; and whoever is parked has its waker stored where the other side will find it. */
  lemma {:induction false} EveryRunIsSafe(ring: Ring, producer: Producer, consumer: Consumer, schedule: seq<Choice>)
    requires ring.state.Writable? && (producer.FromStream? ==> producer.total == 0)
    ensures
      var s := Exec(Start(ring, producer, consumer), schedule);
      && Flatten(s.log) <= Payload(ring.capacity, producer)
      && s.total == |Flatten(s.log)|
      && NoLostWakeUp(s)
      && !(s.writer.Parked? && s.reader.Parked?)
  {
    ExecSafe(Start(ring, producer, consumer), schedule, Payload(ring.capacity, producer));
  }

  lemma {:induction false} ExecSafe(s: Sys, schedule: seq<Choice>, payload: Bytes)
    requires Safe(s, payload)
    ensures Safe(Exec(s, schedule), payload)
    decreases schedule
  {
    if schedule != [] {
      NextSafe(s, schedule[0], payload);
      ExecSafe(Next(s, schedule[0]), schedule[1..], payload);
    }
  }
}
