/** The two tasks of a transfer as code over the shared buffer: the loops of `produce_all`, `produce_from_stream` and
    `consume_all` (src/fpsc/producer_cosumer.rs), driven by an executor. */
module Sessions {
  import opened Wrappers
  import opened ByteStrings
  import opened RingBuffer
  import opened Transfer

  /** `produce_all` or `produce_from_stream` joined with a reading loop, over one `Ringbuf`. Each method is one
      turn of a task's loop up to its next `await`. */
  class Session {
    const ring: Ringbuf
    var producer: Producer
    const consumer: Consumer
    var writer: Status
    var reader: Status
    var point: ReaderPoint
    var total: nat
    var log: seq<Bytes>

    function View(): Sys
      reads this, ring
    {
      Sys(ring.View(), producer, consumer, writer, reader, point, total, log)
    }

    constructor (ring: Ringbuf, producer: Producer, consumer: Consumer)
      ensures View() == Start(ring.View(), producer, consumer) && this.ring == ring
    {
      this.ring, this.producer, this.consumer := ring, producer, consumer;
      writer, reader, point, total, log := Runnable, Runnable, Polling, 0, [];
    }

    method WakeTask(woken: Option<Task>)
      modifies this`writer, this`reader
      ensures View() == Wake(old(View()), woken)
    {
      match woken {
        case None =>
        case Some(WriterTask) =>
          if writer == Parked || writer == Awaiting {
            writer := Runnable;
          }
        case Some(ReaderTask) =>
          if reader == Parked {
            reader := Runnable;
          }
      }
    }

    /** One turn of tokio's `write_all` loop. */
    method TurnWriteAll(rest: Bytes)
      requires producer == WriteAll(rest) && writer == Runnable
      modifies this, ring
      ensures View() == WriterStep(old(View()))
    {
      if rest == [] {
        writer := Done;
        return;
      }
      var result, woken := ring.WritePoll(WriterTask, rest);
      WakeTask(woken);
      if result.Pending? {
        writer := Parked;
      } else {
        var n := result.value.value;
        producer := WriteAll(rest[n..]);
        writer := if n == 0 then Failed(WriteZero) else Runnable;
      }
    }

    /** One turn of the `produce_from_stream` loop; the count is kept in the producer. */
    method TurnFromStream(events: seq<SourceRead>, count: nat)
      requires producer == FromStream(events, count) && writer == Runnable
      modifies this, ring
      ensures View() == WriterStep(old(View()))
    {
      var next := if events == [] then Filled([]) else events[0];
      var polledStream := ring.state == Writable;
      var later := if polledStream && events != [] && !next.Broken? then events[1..] else events;
      var result, woken := ring.ProducerPoll(WriterTask, Some(next));
      WakeTask(woken);
      match result {
        case Pending =>
          producer := FromStream(later, count);
          writer := if polledStream then Awaiting else Parked;
        case Ready(Ok(n)) =>
          producer := FromStream(later, count + n);
          writer := if n == 0 then Done else Runnable;
        case Ready(Err(e)) =>
          writer := Failed(e);
      }
    }

    method TurnWriter()
      requires writer == Runnable
      modifies this, ring
      ensures View() == WriterStep(old(View()))
    {
      match producer {
        case WriteAll(rest) => TurnWriteAll(rest);
        case FromStream(events, count) => TurnFromStream(events, count);
      }
    }

    /** One turn of the `consume_all` loop, or of a loop over `read`. */
    method TurnReader()
      requires reader == Runnable
      modifies this, ring
      ensures View() == ReaderStep(old(View()))
    {
      if point == Checking {
        point := Polling;
        if ring.state == ReadFinished {
          reader := Done;
        }
        return;
      }
      match consumer {
        case ConsumeAll =>
          var result, woken, fed := ring.ConsumerPoll(ReaderTask, Some(true));
          WakeTask(woken);
          if result.Pending? {
            reader := Parked;
          } else {
            total := total + result.value.value;
            point := Checking;
            if fed.Some? {
              log := log + [fed.value];
            }
          }
        case ReadLoop(room) =>
          var result, woken := ring.ReadPoll(ReaderTask, room);
          WakeTask(woken);
          match result {
            case Pending => reader := Parked;
            case Ready(Ok(bytes)) =>
              total := total + |bytes|;
              log := log + [bytes];
              reader := if bytes == [] then Done else Runnable;
            case Ready(Err(e)) => reader := Failed(e);
          }
      }
    }

    method Take(c: Choice)
      modifies this, ring
      ensures View() == Next(old(View()), c)
    {
      match c {
        case Run(WriterTask) =>
          if writer == Runnable { TurnWriter(); }
        case Run(ReaderTask) =>
          if reader == Runnable { TurnReader(); }
        case Spurious(WriterTask) =>
          if writer == Parked || writer == Awaiting {
            writer := Runnable;
            TurnWriter();
          }
        case Spurious(ReaderTask) =>
          if reader == Parked {
            reader := Runnable;
            TurnReader();
          }
        case StreamWake =>
          if writer == Awaiting { writer := Runnable; }
      }
    }

    /** The executor's loop. */
    method Drive(schedule: seq<Choice>)
      modifies this, ring
      ensures View() == Exec(old(View()), schedule)
    {
      for i := 0 to |schedule|
        invariant Exec(View(), schedule[i..]) == Exec(old(View()), schedule)
      {
        assert schedule[i..][0] == schedule[i] && schedule[i..][1..] == schedule[i + 1..];
        Take(schedule[i]);
      }
    }
  }
}
