/** How a transfer ends: every poll makes progress, a fair executor brings every transfer to rest, and how each side is
    left then follows from the configuration alone. */
module Completion {
  import opened Wrappers
  import opened ByteStrings
  import opened RingBuffer
  import opened Transfer

  // ----- the configuration

  /** A stream fills at most the space it is offered. */
  predicate WithinCapacity(capacity: nat, p: Producer) {
    p.FromStream? ==> forall e | e in p.events && e.Filled? :: |e.bytes| <= capacity
  }

  predicate ChunksFit(capacity: nat, room: nat, events: seq<SourceRead>) {
    events == [] ||
    match events[0]
    case NotReady => ChunksFit(capacity, room, events[1..])
    case Broken => true
    case Filled(bytes) => |bytes| <= room && (|bytes| < capacity || ChunksFit(capacity, room, events[1..]))
  }

  /** `read` refuses a destination smaller than the bytes waiting for it, so the largest chunk must fit; `write_all`
      makes its largest write first. */
  predicate ReadsFit(capacity: nat, c: Consumer, p: Producer) {
    c.ReadLoop? ==>
      match p
      case WriteAll(rest) => Min(capacity, |rest|) <= c.room
      case FromStream(events, _) => ChunksFit(capacity, c.room, events)
  }

  // ----- progress

  /** Holds in every reachable state, together with `NoLostWakeUp`. */
  predicate Orderly(s: Sys) {
    && NoLostWakeUp(s)
    && (s.consumer.ReadLoop? ==> !s.ring.state.ReadFinished?)
    && (s.ring.state.ReadFinished? && s.reader.Runnable? ==> s.point.Checking?)
    && (s.writer.Parked? && s.producer.WriteAll? ==> s.producer.rest != [])
  }

  function Todo(s: Sys): nat {
    if !s.ring.Open() || s.writer.Done? || s.writer.Failed? then 0
    else match s.producer
      case WriteAll(rest) => |rest| + 1
      case FromStream(events, _) => |events| + 1
  }

  /** A bound on the number of polls that still change anything. */
  function Measure(s: Sys): nat {
    10 * Todo(s)
    + (if s.ring.state.Readable? then 4 else if s.ring.state.WriteFinished? then if s.ring.buf == [] then 4 else 6 else 0)
    + (match s.writer case Runnable => 1 case Awaiting => 2 case _ => 0)
    + (if s.reader.Runnable? then if s.point.Checking? then 2 else 1 else 0)
  }

  /** The choices that poll a task the executor knows to be ready. */
  predicate Enabled(s: Sys, c: Choice) {
    match c
    case Run(WriterTask) => s.writer.Runnable?
    case Run(ReaderTask) => s.reader.Runnable?
    case Spurious(_) => false
    case StreamWake => s.writer.Awaiting?
  }

  lemma WriterStepProgress(s: Sys)
    requires Orderly(s) && s.writer.Runnable?
    ensures Orderly(WriterStep(s)) && Measure(WriterStep(s)) < Measure(s)
  {
    match s.producer
    case WriteAll(_) => WriteAllProgress(s);
    case FromStream(_, _) => StreamProgress(s);
  }

  lemma WriteAllProgress(s: Sys)
    requires Orderly(s) && s.writer.Runnable? && s.producer.WriteAll?
    ensures Orderly(WriterStep(s)) && Measure(WriterStep(s)) < Measure(s)
  {
  }

  lemma StreamProgress(s: Sys)
    requires Orderly(s) && s.writer.Runnable? && s.producer.FromStream?
    ensures Orderly(WriterStep(s)) && Measure(WriterStep(s)) < Measure(s)
  {
  }

  lemma ReaderStepProgress(s: Sys)
    requires Orderly(s) && s.reader.Runnable?
    ensures Orderly(ReaderStep(s)) && Measure(ReaderStep(s)) < Measure(s)
  {
    if s.point.Polling? {
      match s.consumer
      case ConsumeAll => ConsumeProgress(s);
      case ReadLoop(_) => ReadProgress(s);
    }
  }

  lemma ConsumeProgress(s: Sys)
    requires Orderly(s) && s.reader.Runnable? && s.point.Polling? && s.consumer.ConsumeAll?
    ensures Orderly(ReaderStep(s)) && Measure(ReaderStep(s)) < Measure(s)
  {
  }

  lemma ReadProgress(s: Sys)
    requires Orderly(s) && s.reader.Runnable? && s.point.Polling? && s.consumer.ReadLoop?
    ensures Orderly(ReaderStep(s)) && Measure(ReaderStep(s)) < Measure(s)
  {
  }

  /** A choice either changes nothing or brings the transfer closer to its end. */
  lemma NextProgress(s: Sys, c: Choice)
    requires Orderly(s)
    ensures Orderly(Next(s, c))
    ensures Next(s, c) == s || Measure(Next(s, c)) < Measure(s)
    ensures Enabled(s, c) ==> Measure(Next(s, c)) < Measure(s)
  {
    match c
    case Run(WriterTask) => if s.writer.Runnable? { WriterStepProgress(s); }
    case Run(ReaderTask) => if s.reader.Runnable? { ReaderStepProgress(s); }
    case Spurious(WriterTask) => if s.writer.Awaiting? { WriterStepProgress(s.(writer := Runnable)); }
    case Spurious(ReaderTask) =>
    case StreamWake =>
  }

  // ----- fairness

  /** A round of a fair executor gives every party its turn at least once, in any order and with anything else
      in between. */
  predicate FairRound(round: seq<Choice>) {
    Run(WriterTask) in round && Run(ReaderTask) in round && StreamWake in round
  }

  predicate Fair(rounds: seq<seq<Choice>>) {
    forall i | 0 <= i < |rounds| :: FairRound(rounds[i])
  }

  /** Nobody is ready, and nobody will be woken. */
  predicate Settled(s: Sys) {
    !s.writer.Runnable? && !s.writer.Awaiting? && !s.reader.Runnable?
  }

  lemma {:induction false} ExecOrderly(s: Sys, schedule: seq<Choice>)
    requires Orderly(s)
    ensures Orderly(Exec(s, schedule)) && Measure(Exec(s, schedule)) <= Measure(s)
    decreases schedule
  {
    if schedule != [] {
      NextProgress(s, schedule[0]);
      ExecOrderly(Next(s, schedule[0]), schedule[1..]);
    }
  }

  /** If an enabled choice occurs anywhere in a schedule, running the schedule makes progress. */
  lemma {:induction false} EnabledChoiceProgress(s: Sys, schedule: seq<Choice>, c: Choice)
    requires Orderly(s) && Enabled(s, c) && c in schedule
    ensures Measure(Exec(s, schedule)) < Measure(s)
    decreases schedule
  {
    var s' := Next(s, schedule[0]);
    NextProgress(s, schedule[0]);
    if s' == s {
      EnabledChoiceProgress(s, schedule[1..], c);
    } else {
      ExecOrderly(s', schedule[1..]);
    }
  }

  lemma {:induction false} ExecAppend(s: Sys, a: seq<Choice>, b: seq<Choice>)
    ensures Exec(s, a + b) == Exec(Exec(s, a), b)
    decreases a
  {
    if a == [] {
      assert a + b == b;
    } else {
      ExecAppend(Next(s, a[0]), a[1..], b);
      assert (a + b)[1..] == a[1..] + b;
    }
  }

  lemma SettledIsFinal(s: Sys, c: Choice)
    requires Orderly(s) && Settled(s)
    ensures Next(s, c) == s
  {
  }

  lemma {:induction false} SettledStays(s: Sys, schedule: seq<Choice>)
    requires Orderly(s) && Settled(s)
    ensures Exec(s, schedule) == s
    decreases schedule
  {
    if schedule != [] {
      SettledIsFinal(s, schedule[0]);
      SettledStays(s, schedule[1..]);
    }
  }

  /** Whatever the configuration, a fair executor brings the transfer to rest within as many rounds as the measure;
      by `SettledIsFinal` nothing changes from then on. */
  lemma {:induction false} FairRunSettles(s: Sys, rounds: seq<seq<Choice>>)
    requires Orderly(s) && Fair(rounds) && |rounds| >= Measure(s)
    ensures Settled(Exec(s, Flatten(rounds))) && Orderly(Exec(s, Flatten(rounds)))
    decreases rounds
  {
    ExecOrderly(s, Flatten(rounds));
    if Settled(s) {
      SettledStays(s, Flatten(rounds));
    } else {
      var c := if s.writer.Runnable? then Run(WriterTask) else if s.writer.Awaiting? then StreamWake else Run(ReaderTask);
      NextProgress(s, c);
      var round, later := rounds[0], rounds[1..];
      assert c in round;
      EnabledChoiceProgress(s, round, c);
      ExecOrderly(s, round);
      ExecAppend(s, round, Flatten(later));
      FairRunSettles(Exec(s, round), later);
    }
  }

  // ----- what the configuration says about every reachable state, if the buffer has capacity

  predicate Completed(s: Sys) {
    s.writer.Done? && s.reader.Done? && !s.ring.Open()
  }

  /** The bytes waiting for a `read` fit its destination, and so will all that come. */
  predicate StillFits(s: Sys) {
    && (s.ring.Open() ==> ReadsFit(s.ring.capacity, s.consumer, s.producer))
    && (!s.ring.state.Writable? && s.consumer.ReadLoop? ==> |s.ring.buf| <= s.consumer.room)
  }

  /** The state can have come from a transfer that will finish or not, and whose reads all fit or not. */
  predicate OnCourse(s: Sys, finishes: bool, fits: bool) {
    && s.ring.capacity > 0 && WithinCapacity(s.ring.capacity, s.producer)
    && (if s.ring.Open() then finishes == WillFinish(s.ring.capacity, s.producer)
        else finishes && (s.producer.WriteAll? ==> s.producer.rest == []))
    && fits == StillFits(s)
    && (s.ring.state.Readable? ==> s.ring.buf != [] && (s.producer.WriteAll? ==> s.producer.rest != []))
    && WriterOnCourse(s) && ReaderOnCourse(s)
  }

  predicate WriterOnCourse(s: Sys) {
    match s.writer
    case Done => s.ring.Open() ==> s.producer == WriteAll([])
    case Failed(e) => e == StreamFailed && s.ring.state.Writable? && s.producer.FromStream?
                      && s.producer.events != [] && s.producer.events[0].Broken?
    case _ => true
  }

  predicate ReaderOnCourse(s: Sys) {
    match s.reader
    case Done => if s.consumer.ConsumeAll? then s.ring.state.ReadFinished? else s.ring.state.WriteFinished? && s.ring.buf == []
    case Failed(e) => e == BufferTooSmall && s.consumer.ReadLoop? && !s.ring.state.Writable? && |s.ring.buf| > s.consumer.room
    case _ => true
  }

  lemma WriterStaysOnCourse(s: Sys, finishes: bool, fits: bool)
    requires OnCourse(s, finishes, fits) && Orderly(s) && s.writer.Runnable?
    ensures OnCourse(WriterStep(s), finishes, fits)
  {
    match s.producer
    case WriteAll(_) =>
    case FromStream(_, _) => if s.ring.state.Writable? { StreamStaysOnCourse(s, finishes, fits); }
  }

  lemma StreamStaysOnCourse(s: Sys, finishes: bool, fits: bool)
    requires OnCourse(s, finishes, fits) && Orderly(s) && s.writer.Runnable?
    requires s.producer.FromStream? && s.ring.state.Writable?
    ensures OnCourse(WriterStep(s), finishes, fits)
  {
    StreamStillFits(s);
  }

  lemma StreamStillFits(s: Sys)
    requires s.ring.capacity > 0 && s.producer.FromStream? && s.ring.state.Writable?
    ensures StillFits(WriterStep(s)) == StillFits(s)
  {
  }

  lemma ReaderStaysOnCourse(s: Sys, finishes: bool, fits: bool)
    requires OnCourse(s, finishes, fits) && Orderly(s) && s.reader.Runnable?
    ensures OnCourse(ReaderStep(s), finishes, fits)
  {
  }

  lemma NextOnCourse(s: Sys, c: Choice, finishes: bool, fits: bool)
    requires OnCourse(s, finishes, fits) && Orderly(s)
    ensures OnCourse(Next(s, c), finishes, fits)
  {
    match c
    case Run(WriterTask) => if s.writer.Runnable? { WriterStaysOnCourse(s, finishes, fits); }
    case Run(ReaderTask) => if s.reader.Runnable? { ReaderStaysOnCourse(s, finishes, fits); }
    case Spurious(WriterTask) => if s.writer.Awaiting? { WriterStaysOnCourse(s.(writer := Runnable), finishes, fits); }
    case Spurious(ReaderTask) =>
    case StreamWake =>
  }

  lemma {:induction false} ExecOnCourse(s: Sys, schedule: seq<Choice>, finishes: bool, fits: bool)
    requires OnCourse(s, finishes, fits) && Orderly(s)
    ensures OnCourse(Exec(s, schedule), finishes, fits) && Orderly(Exec(s, schedule))
    decreases schedule
  {
    if schedule != [] {
      NextOnCourse(s, schedule[0], finishes, fits);
      NextProgress(s, schedule[0]);
      ExecOnCourse(Next(s, schedule[0]), schedule[1..], finishes, fits);
    }
  }

  /** No deadlock: a transfer that will finish and whose reads fit has, until it is complete, a task that is ready to be
      polled or whose stream will wake it. */
  lemma SomethingIsEnabled(s: Sys) returns (c: Choice)
    requires OnCourse(s, true, true) && Orderly(s) && !Completed(s)
    ensures Enabled(s, c) && !c.Spurious?
  {
    c := if s.writer.Runnable? then Run(WriterTask)
         else if s.writer.Awaiting? then StreamWake
         else Run(ReaderTask);
  }

  /** How a transfer at rest looks. */
  lemma SettledOutcome(s: Sys, finishes: bool, fits: bool)
    requires OnCourse(s, finishes, fits) && Orderly(s) && Settled(s)
    ensures Completed(s) <==> finishes && fits
    ensures !fits ==> s.reader == Failed(BufferTooSmall) && |s.ring.buf| > s.consumer.room && s.ring.InFlight() == s.ring.buf
    ensures !fits ==> s.writer == if s.ring.state.Readable? then Parked else Done
    ensures fits && !finishes ==> s.reader == Parked && s.ring.state.Writable?
    ensures fits && !finishes ==> s.writer == if s.producer == WriteAll([]) then Done else Failed(StreamFailed)
    ensures fits ==> Undelivered(s) == []
  {
  }

  // ----- the main results

  /** After as many fair rounds as the measure of the start, the transfer is complete exactly when `WillFinish` and
      `ReadsFit` held before it. If the reads fit, the reader was handed the whole payload, and both counts are its length;
      the flag says so after a complete transfer. */
  lemma {:induction false} TransferCompletes(ring: Ring, producer: Producer, consumer: Consumer, rounds: seq<seq<Choice>>)
    requires ring.state.Writable? && (producer.FromStream? ==> producer.total == 0)
    requires WithinCapacity(ring.capacity, producer)
    requires Fair(rounds) && |rounds| >= Measure(Start(ring, producer, consumer))
    ensures
      var payload := Payload(ring.capacity, producer);
      var s := Exec(Start(ring, producer, consumer), Flatten(rounds));
      && (Completed(s) <==> WillFinish(ring.capacity, producer) && ReadsFit(ring.capacity, consumer, producer))
      && (Completed(s) ==>
            && Flatten(s.log) == payload && s.total == |payload|
            && (producer.FromStream? ==> s.producer.FromStream? && s.producer.total == |payload|)
            && (consumer.ConsumeAll? ==> s.ring.state.ReadFinished?))
  {
    var s0 := Start(ring, producer, consumer);
    ExecSafe(s0, Flatten(rounds), Payload(ring.capacity, producer));
    ExecKeepsKind(s0, Flatten(rounds));
    if ring.capacity > 0 {
      TransferOutcome(ring, producer, consumer, rounds);
    } else {
      OutcomeWithoutCapacity(ring, producer, consumer, rounds);
    }
  }

  /** How every transfer through a buffer with capacity ends. A chunk too large for the reader ends the reader with
      `BufferTooSmall`, before that chunk. Otherwise everything is delivered, and a transfer that does not finish leaves the
      reader waiting: a stream that fails ends the writer with its error, and writing no bytes is no write at all. */
  lemma {:induction false} TransferOutcome(ring: Ring, producer: Producer, consumer: Consumer, rounds: seq<seq<Choice>>)
    requires ring.capacity > 0 && ring.state.Writable? && (producer.FromStream? ==> producer.total == 0)
    requires WithinCapacity(ring.capacity, producer)
    requires Fair(rounds) && |rounds| >= Measure(Start(ring, producer, consumer))
    ensures
      var payload := Payload(ring.capacity, producer);
      var finishes, fits := WillFinish(ring.capacity, producer), ReadsFit(ring.capacity, consumer, producer);
      var s := Exec(Start(ring, producer, consumer), Flatten(rounds));
      && (Completed(s) <==> finishes && fits) && (Completed(s) && consumer.ConsumeAll? ==> s.ring.state.ReadFinished?)
      && (s.reader == Failed(BufferTooSmall) <==> !fits) && (s.reader.Failed? ==> !fits)
      && (!fits ==> |s.ring.buf| > consumer.room && Flatten(s.log) + s.ring.buf <= payload)
      && (fits ==> Flatten(s.log) == payload && s.total == |payload|)
      && (fits && !finishes ==> s.reader == Parked)
      && (s.writer == Failed(StreamFailed) <==> fits && producer.FromStream? && !EndsCleanly(ring.capacity, producer.events))
      && (s.writer.Failed? ==> s.writer == Failed(StreamFailed))
      && (s.writer == Parked ==> !fits && s.ring.state.Readable?)
      && (producer.FromStream? ==> s.producer.FromStream? && s.producer.total == s.total + |s.ring.InFlight()|)
  {
    var s0 := Start(ring, producer, consumer);
    var payload := Payload(ring.capacity, producer);
    var finishes, fits := WillFinish(ring.capacity, producer), ReadsFit(ring.capacity, consumer, producer);
    var s := Exec(s0, Flatten(rounds));
    FairRunSettles(s0, rounds);
    ExecOnCourse(s0, Flatten(rounds), finishes, fits);
    ExecSafe(s0, Flatten(rounds), payload);
    ExecKeepsKind(s0, Flatten(rounds));
    SettledOutcome(s, finishes, fits);
  }

  lemma NextKeepsKind(s: Sys, c: Choice)
    ensures Next(s, c).producer.FromStream? == s.producer.FromStream?
    ensures Next(s, c).consumer == s.consumer
    ensures Next(s, c).ring.capacity == s.ring.capacity
  {
    WriterKeepsKind(s);
    WriterKeepsKind(s.(writer := Runnable));
    ReaderKeepsKind(s);
    ReaderKeepsKind(s.(reader := Runnable));
  }

  lemma WriterKeepsKind(s: Sys)
    ensures WriterStep(s).producer.FromStream? == s.producer.FromStream?
    ensures WriterStep(s).consumer == s.consumer && WriterStep(s).ring.capacity == s.ring.capacity
  {
  }

  lemma ReaderKeepsKind(s: Sys)
    ensures ReaderStep(s).producer == s.producer
    ensures ReaderStep(s).consumer == s.consumer && ReaderStep(s).ring.capacity == s.ring.capacity
  {
  }

  lemma {:induction false} ExecKeepsKind(s: Sys, schedule: seq<Choice>)
    ensures Exec(s, schedule).producer.FromStream? == s.producer.FromStream?
    ensures Exec(s, schedule).consumer == s.consumer
    ensures Exec(s, schedule).ring.capacity == s.ring.capacity
    decreases schedule
  {
    if schedule != [] {
      NextKeepsKind(s, schedule[0]);
      ExecKeepsKind(Next(s, schedule[0]), schedule[1..]);
    }
  }

  /** After any run whatever, `reuse` makes the same buffer fit for another transfer: stale bytes and stale wakers
      do no harm. */
  lemma {:induction false} ReusedBufferCompletes(
      first: Sys, schedule: seq<Choice>, producer: Producer, consumer: Consumer, rounds: seq<seq<Choice>>)
    requires producer.FromStream? ==> producer.total == 0
    requires WithinCapacity(first.ring.capacity, producer)
    requires Fair(rounds) && |rounds| >= Measure(Start(Reuse(first.ring), producer, consumer))
    ensures
      var s := Exec(Start(Reuse(Exec(first, schedule).ring), producer, consumer), Flatten(rounds));
      && (Completed(s) <==> WillFinish(first.ring.capacity, producer) && ReadsFit(first.ring.capacity, consumer, producer))
      && (Completed(s) ==> Flatten(s.log) == Payload(first.ring.capacity, producer))
  {
    ExecKeepsKind(first, schedule);
    TransferCompletes(Reuse(Exec(first, schedule).ring), producer, consumer, rounds);
  }

  // ----- a buffer without capacity

  /** A writer that wrote nothing has ended: with an error if it had something to write. */
  predicate Hollow(s: Sys, producer: Producer) {
    && s.ring.capacity == 0 && s.ring.Open() && WithinCapacity(0, s.producer)
    && (s.ring.state.Readable? ==> s.ring.buf == [] && (s.writer.Done? || s.writer.Failed?))
    && (match producer
        case WriteAll(rest) =>
          s.producer == producer && (s.writer.Done? ==> rest == []) && (s.writer.Failed? ==> s.writer.error == WriteZero && rest != [])
        case FromStream(events, _) =>
          && s.producer.FromStream? && (s.writer.Failed? ==> s.writer.error == StreamFailed && FailsFirst(events))
          && (s.writer.Done? ==> !FailsFirst(events))
          && (!s.writer.Done? && !s.writer.Failed? ==> (FailsFirst(s.producer.events) <==> FailsFirst(events))))
    && !s.reader.Failed?
  }

  /** The first answer of the stream is its failure. */
  predicate FailsFirst(events: seq<SourceRead>) {
    events != [] && (events[0].Broken? || (events[0].NotReady? && FailsFirst(events[1..])))
  }

  lemma {:induction false} ExecHollow(s: Sys, schedule: seq<Choice>, producer: Producer)
    requires Hollow(s, producer) && Orderly(s)
    ensures Hollow(Exec(s, schedule), producer)
    decreases schedule
  {
    if schedule != [] {
      NextHollow(s, schedule[0], producer);
      NextProgress(s, schedule[0]);
      ExecHollow(Next(s, schedule[0]), schedule[1..], producer);
    }
  }

  lemma NextHollow(s: Sys, c: Choice, producer: Producer)
    requires Hollow(s, producer) && Orderly(s)
    ensures Hollow(Next(s, c), producer)
  {
    match c
    case Run(WriterTask) => if s.writer.Runnable? { WriterHollow(s, producer); }
    case Run(ReaderTask) => if s.reader.Runnable? { ReaderHollow(s, producer); }
    case Spurious(WriterTask) => if s.writer.Awaiting? { WriterHollow(s.(writer := Runnable), producer); }
    case Spurious(ReaderTask) =>
    case StreamWake =>
  }

  lemma WriterHollow(s: Sys, producer: Producer)
    requires Hollow(s, producer) && Orderly(s) && s.writer.Runnable?
    ensures Hollow(WriterStep(s), producer)
  {
  }

  lemma ReaderHollow(s: Sys, producer: Producer)
    requires Hollow(s, producer) && Orderly(s) && s.reader.Runnable?
    ensures Hollow(ReaderStep(s), producer)
  {
  }

  /** Without capacity nothing is ever delivered and no transfer completes; writing something fails with `WriteZero`. */
  lemma {:induction false} OutcomeWithoutCapacity(
      ring: Ring, producer: Producer, consumer: Consumer, rounds: seq<seq<Choice>>)
    requires ring.capacity == 0 && ring.state.Writable? && WithinCapacity(0, producer)
    requires Fair(rounds) && |rounds| >= Measure(Start(ring, producer, consumer))
    ensures
      var s := Exec(Start(ring, producer, consumer), Flatten(rounds));
      && !Completed(s) && s.ring.Open() && s.ring.InFlight() == []
      && s.writer == (match producer
                      case WriteAll(rest) => if rest == [] then Done else Failed(WriteZero)
                      case FromStream(events, _) => if FailsFirst(events) then Failed(StreamFailed) else Done)
      && !s.reader.Failed?
  {
    var s0 := Start(ring, producer, consumer);
    FairRunSettles(s0, rounds);
    ExecHollow(s0, Flatten(rounds), producer);
  }

  // ----- a second transfer without `reuse`

  /** The old bytes that the reader may still be handed. */
  function LeftOver(s: Sys): Bytes {
    if s.consumer.ConsumeAll? && s.ring.state.ReadFinished? then [] else s.ring.buf
  }

  function AfterTheEnd(producer: Producer): Status {
    match producer
    case WriteAll(rest) => if rest == [] then Done else Failed(WriteZero)
    case FromStream(_, _) => Done
  }

  predicate Over(s: Sys, producer: Producer, before: Bytes) {
    && !s.ring.Open() && s.producer == producer && (s.writer == Runnable || s.writer == AfterTheEnd(producer))
    && Flatten(s.log) + LeftOver(s) == before
  }

  lemma ReaderOver(s: Sys, producer: Producer, before: Bytes)
    requires Over(s, producer, before) && s.reader.Runnable?
    ensures Over(ReaderStep(s), producer, before)
  {
    if s.point.Polling? && ReaderStep(s).log != s.log {
      FlattenSnoc(s.log, s.ring.buf);
    }
  }

  lemma NextOver(s: Sys, c: Choice, producer: Producer, before: Bytes)
    requires Over(s, producer, before)
    ensures Over(Next(s, c), producer, before)
    ensures c == Run(WriterTask) || s.writer != Runnable ==> Next(s, c).writer == AfterTheEnd(producer)
  {
    match c
    case Run(WriterTask) =>
    case Run(ReaderTask) => if s.reader.Runnable? { ReaderOver(s, producer, before); }
    case Spurious(WriterTask) =>
    case Spurious(ReaderTask) => if s.reader.Parked? { ReaderOver(s.(reader := Runnable), producer, before); }
    case StreamWake =>
  }

  lemma {:induction false} ExecOver(s: Sys, schedule: seq<Choice>, producer: Producer, before: Bytes)
    requires Over(s, producer, before)
    ensures Over(Exec(s, schedule), producer, before)
    ensures s.writer != Runnable || Run(WriterTask) in schedule ==> Exec(s, schedule).writer == AfterTheEnd(producer)
    decreases schedule
  {
    if schedule != [] {
      NextOver(s, schedule[0], producer, before);
      ExecOver(Next(s, schedule[0]), schedule[1..], producer, before);
    }
  }

  /** A transfer over a buffer whose last transfer ended, without `reuse`: at its turn `produce_all` fails with `WriteZero`,
      `produce_from_stream` returns 0 without reading, and the reader can be handed only old bytes. */
  lemma SecondTransferNeedsReuse(ring: Ring, producer: Producer, consumer: Consumer, schedule: seq<Choice>)
    requires !ring.Open() && Run(WriterTask) in schedule
    ensures
      var s := Exec(Start(ring, producer, consumer), schedule);
      s.writer == AfterTheEnd(producer) && s.producer == producer && Flatten(s.log) <= ring.buf
  {
    var s0 := Start(ring, producer, consumer);
    ExecOver(s0, schedule, producer, LeftOver(s0));
  }

  // ----- when the closure rejects a slice

  /** `consume_all` returns the closure's error; nothing polls the consumer again. */
  function Rejected(s: Sys): Sys {
    s.(ring := PollConsumer(s.ring, ReaderTask, Some(false)).ring, reader := Failed(ClosureFailed), point := Polling)
  }

  predicate Stranded(s: Sys) {
    s.ring.state.Readable? && s.reader.Failed? && (s.writer.Runnable? || s.writer.Parked?)
    && (s.producer.WriteAll? ==> s.producer.rest != [])
  }

  lemma {:induction false} StrandedForever(s: Sys, schedule: seq<Choice>)
    requires Stranded(s)
    ensures Stranded(Exec(s, schedule))
    ensures s.writer.Parked? || Run(WriterTask) in schedule ==> Exec(s, schedule).writer.Parked?
    decreases schedule
  {
    if schedule != [] {
      assert Stranded(Next(s, schedule[0]));
      StrandedForever(Next(s, schedule[0]), schedule[1..]);
    }
  }

  predicate Released(s: Sys) {
    s.ring.state.ReadFinished? && s.reader.Failed? && (s.writer.Runnable? || s.writer.Done?)
    && (s.producer.WriteAll? ==> s.producer.rest == [])
  }

  lemma {:induction false} ReleasedEnds(s: Sys, schedule: seq<Choice>)
    requires Released(s)
    ensures Exec(s, schedule).writer.Done? <==> s.writer.Done? || Run(WriterTask) in schedule
    decreases schedule
  {
    if schedule != [] {
      assert Released(Next(s, schedule[0]));
      ReleasedEnds(Next(s, schedule[0]), schedule[1..]);
    }
  }

  /** If the closure rejects a slice, the writer ends under an executor that gives it a turn exactly when it had already
      written everything. Otherwise the flag stays `Readable` and the writer is parked, whatever else is polled, and
      never made runnable again. */
  lemma RejectedSliceStrandsWriter(s: Sys, schedule: seq<Choice>, finishes: bool, fits: bool)
    requires OnCourse(s, finishes, fits) && Orderly(s) && (s.ring.state.Readable? || s.ring.state.WriteFinished?)
    ensures PollConsumer(s.ring, ReaderTask, Some(false)).result == Ready(Err(ClosureFailed))
    ensures PollConsumer(s.ring, ReaderTask, Some(false)).fed == Some(s.ring.buf)
    ensures
      var final := Exec(Rejected(s), schedule);
      && (final.writer.Done? <==> s.ring.state.WriteFinished? && (s.writer.Done? || Run(WriterTask) in schedule))
      && (s.ring.state.Readable? ==> final.ring.state.Readable?)
      && (s.ring.state.Readable? && (s.writer.Parked? || Run(WriterTask) in schedule) ==> final.writer.Parked?)
  {
    if s.ring.state.Readable? {
      StrandedForever(Rejected(s), schedule);
    } else {
      ReleasedEnds(Rejected(s), schedule);
    }
  }
}
