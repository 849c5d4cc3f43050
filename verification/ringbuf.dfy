/** The buffer shared by one writer task and one reader task, with its four-state flag and two waker slots
    (src/fpsc/ringbuf.rs), and the poll functions of its two wrappers (src/fpsc/producer_cosumer.rs).

    Every poll body is one atomic step. Each is a method of `Ringbuf` that updates the fields in place and
    is proved to do what the function of the same meaning on `Ring` values does; the run-level results in
    module `Transfer` are about those functions. */
module RingBuffer {
  import opened Wrappers
  import opened ByteStrings

  datatype BufState = Writable | Readable | WriteFinished | ReadFinished

  /** A waker is the right to make one task runnable again. */
  datatype Task = WriterTask | ReaderTask

  datatype Poll<+T> = Pending | Ready(value: T)

  /** `WriteZero` is tokio's own error, for a write that accepted nothing. */
  datatype PollError = BufferTooSmall | ClosureFailed | StreamFailed | NoStream | WriteZero

  /** What polling the source stream of a producer yields: it may not be ready, it may fill some prefix of the
      space offered (nothing at all at its end), or it may fail. */
  datatype SourceRead = NotReady | Filled(bytes: Bytes) | Broken

  /** A snapshot of the shared state. */
  datatype Ring = Ring(capacity: nat, buf: Bytes, state: BufState, wWaker: Option<Task>, rWaker: Option<Task>)
  {
    predicate Open() {
      state.Writable? || state.Readable?
    }

    /** Bytes that were written and not yet handed over. */
    function InFlight(): Bytes {
      if state.Readable? || state.WriteFinished? then buf else []
    }
  }

  /** The effect of one poll: new shared state, result, the waker that was invoked, and the bytes handed to the
      reading side. */
  datatype Polled<+T> = Polled(ring: Ring, result: Poll<Result<T, PollError>>, woken: Option<Task>, fed: Option<Bytes>)

  function Min(a: nat, b: nat): nat {
    if a <= b then a else b
  }

  // ----- the writing side

  function PollWrite(r: Ring, cx: Task, data: Bytes): (p: Polled<nat>)
    ensures p.result.Ready? ==> p.result.value.Ok? && p.result.value.value <= |data|
  {
    match r.state
    case Writable =>
      var nwrite := Min(r.capacity, |data|);
      var state := if nwrite == |data| then WriteFinished else Readable;
      Polled(r.(buf := data[..nwrite], state := state, rWaker := None), Ready(Ok(nwrite)), r.rWaker, None)
    case Readable =>
      Polled(r.(wWaker := Some(cx)), Pending, None, None)
    case _ =>
      Polled(r.(rWaker := None), Ready(Ok(0)), r.rWaker, None)
  }

  /** `ProducerBuf::poll`; `source` is what polling the attached stream would yield now, if one is attached. */
  function PollProducer(r: Ring, cx: Task, source: Option<SourceRead>): Polled<nat>
  {
    match r.state
    case Writable =>
      (match source
       case None => Polled(r, Ready(Err(NoStream)), None, None)
       case Some(NotReady) => Polled(r.(wWaker := Some(cx)), Pending, None, None)
       case Some(Broken) => Polled(r, Ready(Err(StreamFailed)), None, None)
       case Some(Filled(bytes)) =>
         var state := if |bytes| < r.capacity then WriteFinished else Readable;
         Polled(r.(buf := bytes, state := state, rWaker := None), Ready(Ok(|bytes|)), r.rWaker, None))
    case Readable =>
      Polled(r.(wWaker := Some(cx)), Pending, None, None)
    case _ =>
      Polled(r, Ready(Ok(0)), None, None)
  }

  // ----- the reading side

  /** `poll_read` into a buffer with room for `room` bytes. */
  function PollRead(r: Ring, cx: Task, room: nat): Polled<Bytes>
  {
    if r.state.Writable? then
      Polled(r.(rWaker := Some(cx)), Pending, None, None)
    else if room < |r.buf| then
      Polled(r, Ready(Err(BufferTooSmall)), None, None)
    else if r.state.Readable? then
      Polled(r.(state := Writable, wWaker := None), Ready(Ok(r.buf)), r.wWaker, Some(r.buf))
    else
      Polled(r.(buf := []), Ready(Ok(r.buf)), None, Some(r.buf))
  }

  /** `ConsumerBuf::poll`; `task` is absent, or says whether the closure accepts the slice it is given. */
  function PollConsumer(r: Ring, cx: Task, task: Option<bool>): Polled<nat>
  {
    match r.state
    case Writable =>
      Polled(r.(rWaker := Some(cx)), Pending, None, None)
    case Readable =>
      (match task
       case Some(true) => Polled(r.(state := Writable, wWaker := None), Ready(Ok(|r.buf|)), r.wWaker, Some(r.buf))
       case Some(false) => Polled(r, Ready(Err(ClosureFailed)), None, Some(r.buf))
       case None => Polled(r.(state := Writable, wWaker := None), Ready(Ok(0)), r.wWaker, None))
    case WriteFinished =>
      (match task
       case Some(true) => Polled(r.(state := ReadFinished), Ready(Ok(|r.buf|)), None, Some(r.buf))
       case Some(false) => Polled(r.(state := ReadFinished), Ready(Err(ClosureFailed)), None, Some(r.buf))
       case None => Polled(r.(state := ReadFinished), Ready(Ok(0)), None, None))
    case ReadFinished =>
      Polled(r, Ready(Ok(0)), None, None)
  }

  /** Without a closure the bytes are dropped: the shared state goes on as if a closure had accepted them, and the count
      is 0. */
  lemma NoClosureDrops(r: Ring, cx: Task)
    ensures
      var dropped, accepted := PollConsumer(r, cx, None), PollConsumer(r, cx, Some(true));
      && dropped.ring == accepted.ring && dropped.woken == accepted.woken && dropped.fed == None
      && dropped.result == if accepted.result.Pending? then Pending else Ready(Ok(0))
  {
  }

  function Reuse(r: Ring): Ring {
    r.(buf := [], state := Writable)
  }

  /** The shared object itself. `capacity` never changes: no write exceeds it. */
  class Ringbuf {
    const capacity: nat
    var buf: Bytes
    var state: BufState
    var wWaker: Option<Task>
    var rWaker: Option<Task>

    function View(): Ring
      reads this
    {
      Ring(capacity, buf, state, wWaker, rWaker)
    }

    constructor (capacity: nat)
      ensures View() == Ring(capacity, [], Writable, None, None)
    {
      this.capacity := capacity;
      buf, state, wWaker, rWaker := [], Writable, None, None;
    }

    method TakeWriterWaker() returns (woken: Option<Task>)
      modifies this`wWaker
      ensures woken == old(wWaker) && wWaker == None
    {
      woken := wWaker;
      wWaker := None;
    }

    method TakeReaderWaker() returns (woken: Option<Task>)
      modifies this`rWaker
      ensures woken == old(rWaker) && rWaker == None
    {
      woken := rWaker;
      rWaker := None;
    }

    /** A write waits exactly while bytes are unread. Any other write wakes the reader; it takes what the buffer holds, or
        nothing once the transfer has ended, and ends the transfer exactly if that is everything. */
    method WritePoll(cx: Task, data: Bytes) returns (result: Poll<Result<nat, PollError>>, woken: Option<Task>)
      modifies this
      ensures Polled(View(), result, woken, None) == PollWrite(old(View()), cx, data)
      ensures result.Pending? <==> old(state) == Readable
      ensures result.Pending? ==> woken == None && wWaker == Some(cx) && rWaker == old(rWaker)
      ensures result.Ready? ==> woken == old(rWaker) && rWaker == None && wWaker == old(wWaker)
      ensures result.Ready? ==>
                result.value == Ok(if old(state) != Writable then 0 else if |data| <= capacity then |data| else capacity)
      ensures old(state) == Writable ==> buf == data[..result.value.value]
      ensures old(state) == Writable ==> state == if |data| <= capacity then WriteFinished else Readable
      ensures old(state) != Writable ==> buf == old(buf) && state == old(state)
    {
      match state {
        case Writable =>
          var nwrite := Min(capacity, |data|);
          buf := [];
          buf := buf + data[..nwrite];
          if nwrite == |data| {
            state := WriteFinished;
          } else {
            state := Readable;
          }
          woken := TakeReaderWaker();
          result := Ready(Ok(nwrite));
        case Readable =>
          wWaker := Some(cx);
          result, woken := Pending, None;
        case _ =>
          woken := TakeReaderWaker();
          result := Ready(Ok(0));
      }
    }

    method ProducerPoll(cx: Task, source: Option<SourceRead>)
      returns (result: Poll<Result<nat, PollError>>, woken: Option<Task>)
      modifies this
      ensures Polled(View(), result, woken, None) == PollProducer(old(View()), cx, source)
      ensures result.Pending? <==> old(state) == Readable || (old(state) == Writable && source == Some(NotReady))
      ensures result == Ready(Err(NoStream)) <==> old(state) == Writable && source == None
      ensures result == Ready(Err(StreamFailed)) <==> old(state) == Writable && source == Some(Broken)
      ensures old(state) == WriteFinished || old(state) == ReadFinished ==> result == Ready(Ok(0))
      ensures wWaker == if result.Pending? then Some(cx) else old(wWaker)
      ensures if old(state) == Writable && source.Some? && source.value.Filled?
              then woken == old(rWaker) && rWaker == None && buf == source.value.bytes && result == Ready(Ok(|buf|))
                   && state == if |buf| < capacity then WriteFinished else Readable
              else woken == None && rWaker == old(rWaker) && buf == old(buf) && state == old(state)
    {
      woken := None;
      match state {
        case Writable =>
          match source {
            case None => result := Ready(Err(NoStream));
            case Some(NotReady) =>
              wWaker := Some(cx);
              result := Pending;
            case Some(Broken) => result := Ready(Err(StreamFailed));
            case Some(Filled(bytes)) =>
              // The stream filled the buffer's own memory; only the length is set here.
              buf := bytes;
              state := if |bytes| < capacity then WriteFinished else Readable;
              woken := TakeReaderWaker();
              result := Ready(Ok(|buf|));
          }
        case Readable =>
          wWaker := Some(cx);
          result := Pending;
        case _ =>
          result := Ready(Ok(0));
      }
    }

    method ReadPoll(cx: Task, room: nat) returns (result: Poll<Result<Bytes, PollError>>, woken: Option<Task>)
      modifies this
      ensures
        var p := PollRead(old(View()), cx, room);
        View() == p.ring && result == p.result && woken == p.woken
      ensures result.Pending? <==> old(state) == Writable
      ensures result == Ready(Err(BufferTooSmall)) <==> old(state) != Writable && room < |old(buf)|
      ensures result.Ready? && result.value.Ok? ==> result.value.value == old(buf)
      ensures rWaker == if result.Pending? then Some(cx) else old(rWaker)
      ensures if result.Ready? && result.value.Ok? && old(state) == Readable
              then state == Writable && woken == old(wWaker) && wWaker == None
              else state == old(state) && woken == None && wWaker == old(wWaker)
      ensures result.Ready? && result.value.Ok? && old(state) != Readable ==> buf == []
      ensures result.Pending? || result.value.Err? ==> buf == old(buf)
    {
      woken := None;
      if state == Writable {
        rWaker := Some(cx);
        result := Pending;
      } else {
        var total := |buf|;
        var nread := Min(total, room);
        if nread < total {
          return Ready(Err(BufferTooSmall)), None;
        }
        result := Ready(Ok(buf[..nread]));
        assert buf[..nread] == buf;
        if state == WriteFinished || state == ReadFinished {
          buf := [];
        } else {
          state := Writable;
          woken := TakeWriterWaker();
        }
      }
    }

    /** `fed` is the slice the closure was called with, if it was called. */
    method ConsumerPoll(cx: Task, task: Option<bool>)
      returns (result: Poll<Result<nat, PollError>>, woken: Option<Task>, fed: Option<Bytes>)
      modifies this
      ensures Polled(View(), result, woken, fed) == PollConsumer(old(View()), cx, task)
      ensures result.Pending? <==> old(state) == Writable
      ensures fed == if task.Some? && (old(state) == Readable || old(state) == WriteFinished) then Some(old(buf)) else None
      ensures result == Ready(Err(ClosureFailed)) <==> fed.Some? && !task.value
      ensures result.Ready? && result.value.Ok? ==> result.value.value == if fed.Some? then |old(buf)| else 0
      ensures state == if old(state) == WriteFinished then ReadFinished
                       else if old(state) == Readable && result != Ready(Err(ClosureFailed)) then Writable
                       else old(state)
      ensures if old(state) == Readable && state == Writable then woken == old(wWaker) && wWaker == None
              else woken == None && wWaker == old(wWaker)
      ensures buf == old(buf) && rWaker == if result.Pending? then Some(cx) else old(rWaker)
    {
      woken, fed := None, None;
      match state {
        case Readable =>
          if task.Some? {
            fed := Some(buf);
            if task.value {
              var nread := |buf|;
              state := Writable;
              woken := TakeWriterWaker();
              result := Ready(Ok(nread));
            } else {
              result := Ready(Err(ClosureFailed));
            }
            return;
          }
          state := Writable;
          woken := TakeWriterWaker();
          result := Ready(Ok(0));
        case ReadFinished =>
          result := Ready(Ok(0));
        case WriteFinished =>
          state := ReadFinished;
          if task.Some? {
            fed := Some(buf);
            result := if task.value then Ready(Ok(|buf|)) else Ready(Err(ClosureFailed));
            return;
          }
          result := Ready(Ok(0));
        case Writable =>
          rWaker := Some(cx);
          result := Pending;
      }
    }

    /** No stored waker is lost. */
    method ReuseBuffer()
      modifies this
      ensures View() == Reuse(old(View()))
      ensures buf == [] && state == Writable && wWaker == old(wWaker) && rWaker == old(rWaker)
    {
      buf := [];
      state := Writable;
    }
  }
}
