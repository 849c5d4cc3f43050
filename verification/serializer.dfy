/** The serializer: one growable buffer and at most one stored value (src/serializer.rs). */
module Serializers {
  import opened Wrappers
  import opened ByteStrings
  import opened Framing

  const BUFFER_SIZE: nat := 131072  // 128 KB
  const BIGGEST_BUFFER_SIZE: nat := 1024 * BUFFER_SIZE

  datatype SerializeError = NoData | EncodingRefused | BufferTooBig | BufferTooSmall

  /** `Vec::resize` with zeros. */
  function Resize(b: Bytes, size: nat): (resized: Bytes)
    ensures |resized| == size
    ensures forall i | 0 <= i < size :: resized[i] == if i < |b| then b[i] else 0
  {
    if size <= |b| then b[..size] else b + Zeros(size - |b|)
  }

  /** `copy_from_slice` into the part of `b` that starts at `at`. */
  function Overwrite(b: Bytes, at: nat, bytes: Bytes): (r: Bytes)
    requires at + |bytes| <= |b|
    ensures |r| == |b|
  {
    b[..at] + bytes + b[at + |bytes|..]
  }

  lemma OverwrittenFront(b: Bytes, bytes: Bytes)
    requires |bytes| <= |b|
    ensures Overwrite(b, 0, bytes)[..|bytes|] == bytes
  {
  }

  // ----- the library's encoder, writing into the part of `dst` that starts at `from`

  datatype EncodeResult = Wrote(size: nat) | UnexpectedEnd | Refused

  /** A failed attempt may leave anything in the part it was given. */
  method EncodeIntoSlice<T>(c: Codec<T>, value: T, dst: Bytes, from: nat) returns (dst': Bytes, r: EncodeResult)
    requires from <= |dst|
    ensures |dst'| == |dst| && dst'[..from] == dst[..from]
    ensures match c.enc(value)
            case None => r == Refused
            case Some(e) =>
              if from + |e| <= |dst| then r == Wrote(|e|) && dst' == Overwrite(dst, from, e)
              else r == UnexpectedEnd
  {
    var encoded := c.enc(value);
    if encoded.Some? && from + |encoded.value| <= |dst| {
      dst' := Overwrite(dst, from, encoded.value);
      r := Wrote(|encoded.value|);
    } else {
      assert |Zeros(|dst| - from)| == |dst| - from;
      var partial: Bytes :| |partial| == |dst| - from;
      dst' := dst[..from] + partial;
      r := if encoded.None? then Refused else UnexpectedEnd;
    }
  }

  // ----- doubling

  function Doubled(len: nat, k: nat): nat {
    if k == 0 then len else 2 * Doubled(len, k - 1)
  }

  /** After `k` doublings the buffer has room for `need` bytes and is within the cap; an undoubled buffer has no cap. */
  predicate RoomAfter(len: nat, need: nat, k: nat) {
    need <= Doubled(len, k) && (k > 0 ==> Doubled(len, k) <= BIGGEST_BUFFER_SIZE)
  }

  lemma {:induction false} DoubledMonotone(len: nat, j: nat, k: nat)
    requires j <= k
    ensures Doubled(len, j) <= Doubled(len, k)
    decreases k
  {
    if j < k {
      DoubledMonotone(len, j, k - 1);
    }
  }

  /** The room a value needs behind its header. */
  function Need<T>(c: Codec<T>, value: T): nat
    requires c.enc(value).Some?
  {
    4 + |c.enc(value).value|
  }

  // ----- packing many records into one buffer

  /** `LoopsForever`: the buffer is only ever resized to one fixed size, so an attempt that fails there is repeated
      without end. `SlicePanics`: there is not even room for the size field. */
  datatype VecOutcome = Done(size: nat) | ElementRefused | SlicePanics | LoopsForever

  const RESIZED: nat := BUFFER_SIZE * 2

  /** One value at `offset` in a buffer of length `len`: where it ends, and how long the buffer is then. */
  function PackStep<T>(c: Codec<T>, len: nat, offset: nat, value: T): (VecOutcome, nat)
  {
    if offset + 4 > len then (SlicePanics, len)
    else
      match c.enc(value)
      case None => (ElementRefused, len)
      case Some(e) =>
        if offset + 4 + |e| <= len then (Done(offset + 4 + |e|), len)
        else if offset + 4 > RESIZED then (SlicePanics, RESIZED)
        else if offset + 4 + |e| <= RESIZED then (Done(offset + 4 + |e|), RESIZED)
        else (LoopsForever, RESIZED)
  }

  function Pack<T>(c: Codec<T>, len: nat, offset: nat, src: seq<T>): VecOutcome
    decreases |src|
  {
    if src == [] then Done(offset)
    else
      var (step, len') := PackStep(c, len, offset, src[0]);
      if step.Done? then Pack(c, len', step.size, src[1..]) else step
  }

  predicate AllEncode<T>(c: Codec<T>, src: seq<T>) {
    forall i | 0 <= i < |src| :: c.enc(src[i]).Some?
  }

  function FramedSize<T>(c: Codec<T>, src: seq<T>): nat
    requires AllEncode(c, src)
    decreases |src|
  {
    if src == [] then 0 else Need(c, src[0]) + FramedSize(c, src[1..])
  }

  /** No record starts in the last four positions of a buffer of length `len`, or at its very end. */
  predicate HeadersFit<T>(c: Codec<T>, len: nat, offset: nat, src: seq<T>)
    requires AllEncode(c, src)
    decreases |src|
  {
    src == [] || (!(len - 4 < offset <= len) && HeadersFit(c, len, offset + Need(c, src[0]), src[1..]))
  }

  lemma {:induction false} HeadersFitBeyond<T>(c: Codec<T>, len: nat, offset: nat, src: seq<T>)
    requires AllEncode(c, src)
    requires len < offset || offset + FramedSize(c, src) <= len
    ensures HeadersFit(c, len, offset, src)
    decreases |src|
  {
    if src != [] {
      HeadersFitBeyond(c, len, offset + Need(c, src[0]), src[1..]);
    }
  }

  /** Packing succeeds exactly when all records together fit the buffer at hand or the one size it can be resized to, and
      none starts where the buffer at hand has no room for its header, because then it panics instead of being resized. */
  lemma {:induction false} PackSucceedsIff<T>(c: Codec<T>, len: nat, offset: nat, src: seq<T>)
    requires offset <= len && AllEncode(c, src)
    ensures
      var end := offset + FramedSize(c, src);
      && (Pack(c, len, offset, src).Done? <==> (end <= len || end <= 262144) && HeadersFit(c, len, offset, src))
      && (Pack(c, len, offset, src).Done? ==> Pack(c, len, offset, src).size == end)
    decreases |src|
  {
    if src != [] {
      var next := offset + Need(c, src[0]);
      if next <= len {
        PackSucceedsIff(c, len, next, src[1..]);
      } else if next <= RESIZED {
        PackSucceedsIff(c, RESIZED, next, src[1..]);
        HeadersFitBeyond(c, len, next, src[1..]);
        if next + FramedSize(c, src[1..]) <= RESIZED {
          HeadersFitBeyond(c, RESIZED, next, src[1..]);
        }
      }
    }
  }

  /** In particular, whatever fits the buffer at hand is packed. */
  lemma {:induction false} PackFits<T>(c: Codec<T>, len: nat, offset: nat, src: seq<T>)
    requires AllEncode(c, src) && offset + FramedSize(c, src) <= len
    ensures Pack(c, len, offset, src) == Done(offset + FramedSize(c, src))
    decreases |src|
  {
    if src != [] {
      PackFits(c, len, offset + Need(c, src[0]), src[1..]);
    }
  }

  /** The retry loop for one element after at most `n` attempts, if it has ended by then. A failed attempt resizes the
      buffer, always to the same length. */
  function Attempts<T>(c: Codec<T>, len: nat, offset: nat, value: T, n: nat): Option<VecOutcome>
    decreases n
  {
    if n == 0 then None
    else if offset + 4 > len then Some(SlicePanics)
    else
      match c.enc(value)
      case None => Some(ElementRefused)
      case Some(e) =>
        if offset + 4 + |e| <= len then Some(Done(offset + 4 + |e|))
        else Attempts(c, RESIZED, offset, value, n - 1)
  }

  lemma {:induction false} ResizedTooSmall<T>(c: Codec<T>, offset: nat, value: T, n: nat)
    requires offset + 4 <= RESIZED && c.enc(value).Some? && RESIZED < offset + Need(c, value)
    ensures Attempts(c, RESIZED, offset, value, n) == None
  {
    if n > 0 {
      ResizedTooSmall(c, offset, value, n - 1);
    }
  }

  /** The retry loop never ends exactly when the value can be encoded, there is room for its header before and after the
      resize, and room for the value at neither length; otherwise it ends within two attempts, as `PackStep` says. */
  lemma RetriesForeverIff<T>(c: Codec<T>, len: nat, offset: nat, value: T)
    ensures (forall n: nat :: Attempts(c, len, offset, value, n).None?)
            <==> c.enc(value).Some? && offset + 4 <= len && offset + 4 <= RESIZED
                 && len < offset + Need(c, value) && RESIZED < offset + Need(c, value)
    ensures (forall n: nat :: Attempts(c, len, offset, value, n).None?) <==> PackStep(c, len, offset, value).0 == LoopsForever
    ensures PackStep(c, len, offset, value).0 != LoopsForever
            ==> Attempts(c, len, offset, value, 2) == Some(PackStep(c, len, offset, value).0)
  {
    if PackStep(c, len, offset, value).0 == LoopsForever {
      forall n: nat
        ensures Attempts(c, len, offset, value, n).None?
      {
        if n > 0 {
          ResizedTooSmall(c, offset, value, n - 1);
        }
      }
    } else {
      assert Attempts(c, len, offset, value, 2).Some?;
    }
  }

  // ----- how packing a list fails

  /** The length of the buffer once `at` bytes of it are packed. */
  function RoomAt(len: nat, at: nat): nat {
    if at <= len then len else RESIZED
  }

  predicate Packs<T>(c: Codec<T>, len: nat, offset: nat, src: seq<T>)
    requires AllEncode(c, src)
  {
    var end := offset + FramedSize(c, src);
    (end <= len || end <= RESIZED) && HeadersFit(c, len, offset, src)
  }

  /** The records before the `i`-th are packed, and the `i`-th ends the packing with `r`: it is retried forever, or it has
      room for its header but cannot be encoded, or its header has no place, before or after the buffer is resized. */
  ghost predicate FailsAt<T>(c: Codec<T>, len: nat, offset: nat, src: seq<T>, i: nat, r: VecOutcome) {
    && i < |src| && AllEncode(c, src[..i]) && Packs(c, len, offset, src[..i])
    && var at := offset + FramedSize(c, src[..i]);
       var room := RoomAt(len, at);
       match r
       case LoopsForever => forall n: nat :: Attempts(c, room, at, src[i], n).None?
       case ElementRefused => at + 4 <= room && c.enc(src[i]).None?
       case SlicePanics => at + 4 > room || (at + 4 > RESIZED && c.enc(src[i]).Some? && room < at + Need(c, src[i]))
       case Done(_) => false
  }

  lemma {:induction false} PackPrefix<T>(c: Codec<T>, len: nat, offset: nat, a: seq<T>, b: seq<T>)
    requires offset <= len && AllEncode(c, a) && Pack(c, len, offset, a).Done?
    ensures
      var at := offset + FramedSize(c, a);
      at <= RoomAt(len, at) && Pack(c, len, offset, a + b) == Pack(c, RoomAt(len, at), at, b)
    decreases |a|
  {
    PackSucceedsIff(c, len, offset, a);
    if a == [] {
      assert a + b == b;
    } else {
      assert (a + b)[1..] == a[1..] + b;
      var (step, len') := PackStep(c, len, offset, a[0]);
      PackPrefix(c, len', step.size, a[1..], b);
    }
  }

  lemma StepFails<T>(c: Codec<T>, room: nat, at: nat, value: T, r: VecOutcome)
    requires at <= room && !r.Done?
    ensures PackStep(c, room, at, value).0 == r
            <==> match r
                 case LoopsForever => forall n: nat :: Attempts(c, room, at, value, n).None?
                 case ElementRefused => at + 4 <= room && c.enc(value).None?
                 case SlicePanics => at + 4 > room || (at + 4 > RESIZED && c.enc(value).Some? && room < at + Need(c, value))
  {
    RetriesForeverIff(c, room, at, value);
  }

  lemma {:induction false} FirstFailure<T>(c: Codec<T>, len: nat, offset: nat, src: seq<T>) returns (i: nat)
    requires offset <= len && !Pack(c, len, offset, src).Done?
    ensures i < |src| && AllEncode(c, src[..i]) && Pack(c, len, offset, src[..i]).Done?
    ensures
      var at := offset + FramedSize(c, src[..i]);
      at <= RoomAt(len, at) && Pack(c, len, offset, src) == PackStep(c, RoomAt(len, at), at, src[i]).0
    decreases |src|
  {
    var (step, len') := PackStep(c, len, offset, src[0]);
    if step.Done? {
      var j := FirstFailure(c, len', step.size, src[1..]);
      i := j + 1;
      assert src[..i][1..] == src[1..][..j] && src[..i][0] == src[0];
    } else {
      i := 0;
    }
    PackPrefix(c, len, offset, src[..i], src[i..]);
    assert src[..i] + src[i..] == src;
  }

  /** Packing fails in exactly one way: there is a first element at which it fails, and how that one fails is the
      outcome. */
  lemma PackFailsIff<T>(c: Codec<T>, len: nat, offset: nat, src: seq<T>, r: VecOutcome)
    requires offset <= len && !r.Done?
    ensures Pack(c, len, offset, src) == r <==> exists i :: FailsAt(c, len, offset, src, i, r)
  {
    if Pack(c, len, offset, src) == r {
      var i := FirstFailure(c, len, offset, src);
      PackSucceedsIff(c, len, offset, src[..i]);
      var at := offset + FramedSize(c, src[..i]);
      StepFails(c, RoomAt(len, at), at, src[i], r);
      assert FailsAt(c, len, offset, src, i, r);
    }
    forall i: nat | FailsAt(c, len, offset, src, i, r)
      ensures Pack(c, len, offset, src) == r
    {
      FailureIsOutcome(c, len, offset, src, i, r);
    }
  }

  lemma FailureIsOutcome<T>(c: Codec<T>, len: nat, offset: nat, src: seq<T>, i: nat, r: VecOutcome)
    requires offset <= len && !r.Done? && FailsAt(c, len, offset, src, i, r)
    ensures Pack(c, len, offset, src) == r
  {
    PackSucceedsIff(c, len, offset, src[..i]);
    PackPrefix(c, len, offset, src[..i], src[i..]);
    assert src[..i] + src[i..] == src && src[i..][0] == src[i];
    var at := offset + FramedSize(c, src[..i]);
    StepFails(c, RoomAt(len, at), at, src[i], r);
  }

  function Payloads<T>(c: Codec<T>, src: seq<T>): (payloads: seq<Bytes>)
    requires AllEncode(c, src)
    ensures |payloads| == |src|
    ensures forall i | 0 <= i < |src| :: payloads[i] == c.enc(src[i]).value
  {
    seq(|src|, i requires 0 <= i < |src| => c.enc(src[i]).value)
  }

  predicate Encodable<T>(c: Codec<T>, src: seq<T>) {
    forall i | 0 <= i < |src| :: c.enc(src[i]).Some? && |c.enc(src[i]).value| < TWO_32
  }

  lemma PayloadsDecode<T(!new)>(c: Codec<T>, src: seq<T>)
    requires Lawful(c) && Encodable(c, src)
    ensures Parse(c, Frames(Payloads(c, src))) == Records(src)
  {
    ParseFrames(c, Payloads(c, src), src);
  }

  // ----- reading a stream to its end

  datatype ReadOutcome = ReadDone(total: nat, buffer: Bytes) | ReadPanics

  /** The buffer after one read of `chunk` when `total` bytes were read before. Whatever else happens to it, the chunk
      is also appended to the buffer. */
  function Absorb(buffer: Bytes, total: nat, chunk: Bytes): Option<Bytes>
  {
    if |buffer| > total + |chunk| then Some(Overwrite(buffer, total, chunk) + chunk)
    else if |buffer| == total + |chunk| then Some(buffer + chunk)
    else None
  }

  function AbsorbAll(buffer: Bytes, total: nat, chunks: seq<Bytes>): ReadOutcome
    decreases |chunks|
  {
    if chunks == [] then ReadDone(total, buffer)
    else
      match Absorb(buffer, total, chunks[0])
      case None => ReadPanics
      case Some(absorbed) => AbsorbAll(absorbed, total + |chunks[0]|, chunks[1..])
  }

  lemma AbsorbNext(buffer: Bytes, total: nat, chunks: seq<Bytes>, i: nat)
    requires i < |chunks|
    ensures AbsorbAll(buffer, total, chunks[i..])
            == match Absorb(buffer, total, chunks[i])
               case None => ReadPanics
               case Some(absorbed) => AbsorbAll(absorbed, total + |chunks[i]|, chunks[i + 1..])
  {
    assert chunks[i..][0] == chunks[i] && chunks[i..][1..] == chunks[i + 1..];
  }

  /** The bytes just read are in the scratch buffer. Extending the buffer for the first time shrinks the scratch buffer
      to nothing, and taking the bytes out of it again then panics. */
  method PlaceRead(buffer: Bytes, total: nat, scratch: Bytes, nread: nat) returns (buffer': Bytes, scratch': Bytes, ok: bool)
    requires total <= |buffer| && 0 < nread <= |scratch|
    ensures ok <==> Absorb(buffer, total, scratch[..nread]).Some?
    ensures ok ==> Absorb(buffer, total, scratch[..nread]) == Some(buffer') && scratch' == scratch
  {
    buffer', scratch' := buffer, scratch;
    var resizeTime := 0;  // still, whenever the loop gets here
    if |buffer| > total + nread {
      buffer' := Overwrite(buffer, total, scratch[..nread]);
    } else if |buffer| < total + nread {
      buffer' := buffer + scratch;
      buffer' := Overwrite(buffer', total, scratch[..nread]);
      scratch' := Resize(scratch, BUFFER_SIZE * (resizeTime + 1) * resizeTime);
    }
    ok := nread <= |scratch'|;
    if ok {
      buffer' := buffer' + scratch'[..nread];
    }
  }

  /** The results of the successive reads before a stream ends: none is empty, or longer than the scratch buffer. */
  predicate AreReads(chunks: seq<Bytes>) {
    forall i | 0 <= i < |chunks| :: 0 < |chunks[i]| <= BUFFER_SIZE
  }

  method ReadAllFromStream(chunks: seq<Bytes>, initial: Bytes) returns (r: ReadOutcome)
    requires AreReads(chunks)
    ensures r == AbsorbAll(initial, 0, chunks)
  {
    var total: nat := 0;
    var buffer := initial;
    var scratch := Zeros(BUFFER_SIZE);
    for i := 0 to |chunks|
      invariant |scratch| == BUFFER_SIZE && |buffer| == |initial| + total
      invariant AbsorbAll(buffer, total, chunks[i..]) == AbsorbAll(initial, 0, chunks)
    {
      var nread := |chunks[i]|;
      OverwrittenFront(scratch, chunks[i]);
      scratch := Overwrite(scratch, 0, chunks[i]);
      AbsorbNext(buffer, total, chunks, i);
      var ok;
      buffer, scratch, ok := PlaceRead(buffer, total, scratch, nread);
      if !ok {
        return ReadPanics;
      }
      total := total + nread;
    }
    r := ReadDone(total, buffer);
  }

  /** The loop panics exactly when some read is longer than the buffer was at the start. */
  lemma {:induction false} PanicsIffReadTooLong(buffer: Bytes, total: nat, chunks: seq<Bytes>)
    requires total <= |buffer|
    ensures AbsorbAll(buffer, total, chunks).ReadPanics? <==> exists chunk :: chunk in chunks && |chunk| > |buffer| - total
    ensures AbsorbAll(buffer, total, chunks).ReadDone? ==>
              AbsorbAll(buffer, total, chunks).total == total + |Flatten(chunks)|
    decreases |chunks|
  {
    if chunks != [] {
      assert chunks == [chunks[0]] + chunks[1..];
      if |chunks[0]| <= |buffer| - total {
        PanicsIffReadTooLong(Absorb(buffer, total, chunks[0]).value, total + |chunks[0]|, chunks[1..]);
      }
    }
  }

  /** What the loop takes for the contents of the stream, if it does not panic. */
  function ReadBack(buffer: Bytes, chunks: seq<Bytes>): Option<Bytes> {
    match AbsorbAll(buffer, 0, chunks)
    case ReadPanics => None
    case ReadDone(total, bytes) => if total <= |bytes| then Some(bytes[..total]) else None
  }

  /** A read survives if it is no longer than the buffer was at the start, and if it is as long, repeats the bytes that
      lie in its place: the last ones of the starting buffer and the stream so far. */
  predicate Survives(initial: Bytes, before: Bytes, chunk: Bytes) {
    |chunk| <= |initial| && (|chunk| == |initial| ==> chunk == (initial + before)[|before|..])
  }

  predicate AllSurvive(initial: Bytes, chunks: seq<Bytes>) {
    forall i | 0 <= i < |chunks| :: Survives(initial, Flatten(chunks[..i]), chunks[i])
  }

  /** The starting buffer slides along the stream. */
  lemma SurvivesShift(initial: Bytes, head: Bytes, before: Bytes, chunk: Bytes)
    requires |head| <= |initial|
    ensures Survives((initial + head)[|head|..], before, chunk) <==> Survives(initial, head + before, chunk)
  {
    assert (initial + (head + before))[|head + before|..] == ((initial + head)[|head|..] + before)[|before|..];
  }

  lemma AllSurviveHead(initial: Bytes, chunks: seq<Bytes>)
    requires chunks != [] && |chunks[0]| <= |initial|
    ensures AllSurvive(initial, chunks)
            <==> Survives(initial, [], chunks[0]) && AllSurvive((initial + chunks[0])[|chunks[0]|..], chunks[1..])
  {
    var head, later := chunks[0], chunks[1..];
    var next := (initial + head)[|head|..];
    assert Flatten(chunks[..0]) == [];
    forall i | 0 <= i < |later|
      ensures Survives(next, Flatten(later[..i]), later[i]) <==> Survives(initial, Flatten(chunks[..i + 1]), chunks[i + 1])
    {
      assert chunks[..i + 1][1..] == later[..i];
      SurvivesShift(initial, head, Flatten(later[..i]), later[i]);
    }
    if AllSurvive(initial, chunks) {
      forall i | 0 <= i < |later|
        ensures Survives(next, Flatten(later[..i]), later[i])
      {
        assert Survives(initial, Flatten(chunks[..i + 1]), chunks[i + 1]);
      }
    }
    if Survives(initial, [], head) && AllSurvive(next, later) {
      forall i | 0 <= i < |chunks|
        ensures Survives(initial, Flatten(chunks[..i]), chunks[i])
      {
        assert i == 0 || Survives(next, Flatten(later[..i - 1]), later[i - 1]);
      }
    }
  }

  /** One read: what is placed behind the bytes read so far, and what lies where the next read goes. */
  lemma AbsorbMoves(buffer: Bytes, total: nat, chunk: Bytes) returns (placed: Bytes)
    requires total <= |buffer| && |chunk| <= |buffer| - total
    ensures |placed| == |chunk| && (placed == chunk <==> Survives(buffer[total..], [], chunk))
    ensures
      var absorbed := Absorb(buffer, total, chunk);
      && absorbed.Some? && |absorbed.value| == |buffer| + |chunk|
      && absorbed.value[..total + |chunk|] == buffer[..total] + placed
      && absorbed.value[total + |chunk|..] == (buffer[total..] + chunk)[|chunk|..]
  {
    var tail := buffer[total..];
    assert (tail + [])[0..] == tail;
    placed := if |chunk| < |tail| then chunk else tail;
    assert buffer == buffer[..total] + tail;
  }

  /** Bytes already placed are not touched again, and as many bytes as at the start stay behind them. */
  lemma {:induction false} PlacedStays(buffer: Bytes, total: nat, chunks: seq<Bytes>)
    requires total <= |buffer|
    ensures
      var r := AbsorbAll(buffer, total, chunks);
      r.ReadDone? ==>
        total <= r.total <= |r.buffer| && r.buffer[..total] == buffer[..total] && |r.buffer| - r.total == |buffer| - total
    decreases |chunks|
  {
    if chunks != [] && |chunks[0]| <= |buffer| - total {
      var placed := AbsorbMoves(buffer, total, chunks[0]);
      var absorbed := Absorb(buffer, total, chunks[0]).value;
      PlacedStays(absorbed, total + |chunks[0]|, chunks[1..]);
      var r := AbsorbAll(absorbed, total + |chunks[0]|, chunks[1..]);
      if r.ReadDone? {
        assert r.buffer[..total] == r.buffer[..total + |chunks[0]|][..total];
        assert absorbed[..total] == absorbed[..total + |chunks[0]|][..total];
      }
    }
  }

  predicate ReadExactly(r: ReadOutcome, bytes: Bytes) {
    r.ReadDone? && r.total <= |r.buffer| && r.buffer[..r.total] == bytes
  }

  lemma {:induction false} ReadsAreRightIff(buffer: Bytes, total: nat, chunks: seq<Bytes>)
    requires total <= |buffer|
    ensures ReadExactly(AbsorbAll(buffer, total, chunks), buffer[..total] + Flatten(chunks))
            <==> AllSurvive(buffer[total..], chunks)
    decreases |chunks|
  {
    if chunks == [] {
      assert buffer[..total] + Flatten(chunks) == buffer[..total];
    } else if |chunks[0]| > |buffer| - total {
      assert !Survives(buffer[total..], Flatten(chunks[..0]), chunks[0]);
    } else {
      FirstReadIsRightIff(buffer, total, chunks);
    }
  }

  lemma FrontOfFront(bytes: Bytes, k: nat, n: nat)
    requires k <= n <= |bytes|
    ensures bytes[..n][..k] == bytes[..k]
  {
  }

  lemma FirstPartIff(bytes: Bytes, front: Bytes, placed: Bytes, chunk: Bytes, later: Bytes)
    requires |placed| == |chunk| && |bytes| >= |front + placed| && bytes[..|front + placed|] == front + placed
    ensures bytes == front + (chunk + later) <==> placed == chunk && bytes == front + placed + later
  {
    assert front + (chunk + later) == (front + chunk) + later;
    if bytes == front + (chunk + later) {
      assert bytes[..|front + chunk|] == front + chunk;
      SplitEqual(front, placed, front, chunk);
    }
  }

  lemma {:induction false} FirstReadIsRightIff(buffer: Bytes, total: nat, chunks: seq<Bytes>)
    requires total <= |buffer| && chunks != [] && |chunks[0]| <= |buffer| - total
    ensures ReadExactly(AbsorbAll(buffer, total, chunks), buffer[..total] + Flatten(chunks))
            <==> AllSurvive(buffer[total..], chunks)
    decreases |chunks|, 0
  {
    var chunk, later := chunks[0], chunks[1..];
    var placed := AbsorbMoves(buffer, total, chunk);
    var absorbed := Absorb(buffer, total, chunk).value;
    var r := AbsorbAll(absorbed, total + |chunk|, later);
    AllSurviveHead(buffer[total..], chunks);
    PlacedStays(absorbed, total + |chunk|, later);
    ReadsAreRightIff(absorbed, total + |chunk|, later);
    if r.ReadDone? {
      FrontOfFront(r.buffer, total + |chunk|, r.total);
      FirstPartIff(r.buffer[..r.total], buffer[..total], placed, chunk, Flatten(later));
    }
  }

  /** The reading loop returns the stream exactly when every read survives; whatever the reads are, in any order. */
  lemma ReadBackIsStreamIff(buffer: Bytes, chunks: seq<Bytes>)
    ensures ReadBack(buffer, chunks) == Some(Flatten(chunks)) <==> AllSurvive(buffer, chunks)
    ensures ReadBack(buffer, chunks) == None <==> exists chunk :: chunk in chunks && |chunk| > |buffer|
  {
    ReadsAreRightIff(buffer, 0, chunks);
    PlacedStays(buffer, 0, chunks);
    PanicsIffReadTooLong(buffer, 0, chunks);
    assert buffer[..0] + Flatten(chunks) == Flatten(chunks) && buffer[0..] == buffer;
  }

  /** In particular shorter reads do. */
  lemma ShortReadsSurvive(buffer: Bytes, chunks: seq<Bytes>)
    requires forall chunk | chunk in chunks :: |chunk| < |buffer|
    ensures AllSurvive(buffer, chunks)
  {
    forall i | 0 <= i < |chunks|
      ensures Survives(buffer, Flatten(chunks[..i]), chunks[i])
    {
      assert chunks[i] in chunks;
    }
  }

  /** So as long as every read is shorter than the buffer was at the start, the bytes read so far are at the front of the
      buffer and its length is the starting length plus their number. */
  lemma ShortReadsArePlaced(buffer: Bytes, chunks: seq<Bytes>)
    requires forall chunk | chunk in chunks :: |chunk| < |buffer|
    ensures
      var r := AbsorbAll(buffer, 0, chunks);
      && r.ReadDone? && r.total == |Flatten(chunks)| && |r.buffer| == |buffer| + r.total
      && r.buffer[..r.total] == Flatten(chunks)
  {
    ShortReadsSurvive(buffer, chunks);
    ReadsAreRightIff(buffer, 0, chunks);
    PlacedStays(buffer, 0, chunks);
    assert buffer[..0] + Flatten(chunks) == Flatten(chunks) && buffer[0..] == buffer;
  }

  /** But a file of records that fills a new buffer at the first read is not read back, unless its first record is
      empty: the zeros of the new buffer stay in its place. */
  lemma FullFirstReadIsLost(size: nat, chunks: seq<Bytes>, payload: Bytes, rest: Bytes)
    requires size >= 4 && chunks != [] && |chunks[0]| == size
    requires 0 < |payload| < TWO_32 && Flatten(chunks) == Frame(payload) + rest
    ensures ReadBack(Zeros(size), chunks) != Some(Flatten(chunks))
  {
    ReadBackIsStreamIff(Zeros(size), chunks);
    if AllSurvive(Zeros(size), chunks) {
      assert Survives(Zeros(size), Flatten(chunks[..0]), chunks[0]);
      assert chunks[0] == Zeros(size) && chunks[0] <= Flatten(chunks);
      assert Flatten(chunks)[..4] == Zeros(4);
      FrameLayout(payload, rest);
      ZeroHeader(|payload|);
    }
  }

  lemma ZeroHeader(size: u32)
    ensures U32Bytes(size) == Zeros(4) <==> size == 0
  {
    assert U32Bytes(0) == Zeros(4);
    if U32Bytes(size) == Zeros(4) {
      U32BytesInjective(size, 0);
    }
  }

  // ----- one attempt at one record

  /** `save_size_header_into_slice`: a reader of the four bytes gets the size back, and no other byte changes. */
  method SaveSizeHeader(size: u32, dst: Bytes, at: nat) returns (dst': Bytes)
    requires at + 4 <= |dst|
    ensures |dst'| == |dst| && U32FromBytes(dst'[at..at + 4]) == size && dst'[at..at + 4] == U32Bytes(size)
    ensures dst'[..at] == dst[..at] && dst'[at + 4..] == dst[at + 4..]
  {
    dst' := Overwrite(dst, at, U32Bytes(size));
    assert dst'[at..at + 4] == U32Bytes(size);
    U32RoundTrip(size);
  }

  /** Encodes a value behind the place for its header and, if it fits, fills in the header. */
  method TryAt<T>(c: Codec<T>, value: T, dst: Bytes, offset: nat) returns (dst': Bytes, r: EncodeResult)
    requires offset + 4 <= |dst|
    ensures |dst'| == |dst| && dst'[..offset] == dst[..offset]
    ensures match c.enc(value)
            case None => r == Refused
            case Some(e) =>
              if offset + 4 + |e| <= |dst|
              then r == Wrote(|e|) && dst'[..offset + 4 + |e|] == dst[..offset] + Frame(e)
              else r == UnexpectedEnd
  {
    dst', r := EncodeIntoSlice(c, value, dst, offset + 4);
    assert dst'[..offset] == dst'[..offset + 4][..offset] == dst[..offset];
    if r.Wrote? {
      ghost var e := c.enc(value).value;
      assert dst'[offset + 4..offset + 4 + |e|] == e;
      ghost var encoded := dst';
      dst' := SaveSizeHeader(Wrap32(r.size), dst', offset);
      assert dst'[offset + 4..offset + 4 + |e|] == dst'[offset + 4..][..|e|] == encoded[offset + 4..][..|e|] == e;
      assert dst'[..offset + 4 + |e|] == dst'[..offset] + dst'[offset..offset + 4] + dst'[offset + 4..offset + 4 + |e|];
    }
  }

  // ----- the object

  class Serializer<T(!new)> {
    const codec: Codec<T>
    var buffer: Bytes
    var data: Option<T>

    constructor (codec: Codec<T>, data: Option<T>)
      ensures this.codec == codec && this.data == data && buffer == Zeros(131072)
    {
      this.codec, this.data := codec, data;
      buffer := Zeros(BUFFER_SIZE);
    }

    method TakeData() returns (taken: Option<T>)
      modifies this`data
      ensures taken == old(data) && data == None
    {
      taken := data;
      data := None;
    }

    method SetData(value: T)
      modifies this`data
      ensures data == Some(value)
    {
      data := Some(value);
    }

    /** Doubles `dst` until the stored value fits behind a size header. It succeeds exactly when some number of doublings
        makes room, and then makes the fewest; the result decodes to the stored value, which is kept. After a failure
        the stored value is gone. `dst` must have room for a header: slicing it panics otherwise. */
    method EncodeIntoVecWithHeader(dst: Bytes) returns (dst': Bytes, r: Result<nat, SerializeError>, ghost doublings: nat)
      requires |dst| >= 4
      modifies this`data
      ensures r.Ok? <==> old(data).Some? && codec.enc(old(data).value).Some?
                         && exists k :: RoomAfter(|dst|, Need(codec, old(data).value), k)
      ensures r.Ok? ==>
                var e := codec.enc(old(data).value).value;
                && r.value == 4 + |e| <= |dst'| && dst'[..r.value] == Frame(e)
                && |dst'| == Doubled(|dst|, doublings) && RoomAfter(|dst|, 4 + |e|, doublings)
                && (forall k: nat | k < doublings :: !RoomAfter(|dst|, Need(codec, old(data).value), k))
                && (Lawful(codec) && |e| < TWO_32 ==> Parse(codec, dst'[..r.value]) == Records([old(data).value]))
      ensures data == if r.Ok? then old(data) else None
      ensures r == Err(NoData) <==> old(data) == None
      ensures r == Err(EncodingRefused) <==> old(data).Some? && codec.enc(old(data).value).None?
      ensures r.Err? ==> r.error == NoData || r.error == EncodingRefused || r.error == BufferTooBig
      ensures |dst'| == Doubled(|dst|, doublings)
      ensures (doublings > 0 ==> |dst'| <= 134217728) && (r == Err(BufferTooBig) ==> 2 * |dst'| > 134217728)
    {
      dst', doublings := dst, 0;
      var stored := TakeData();
      if stored.None? {
        return dst', Err(NoData), 0;
      }
      var value := stored.value;
      var size := |dst'|;
      while true
        invariant 4 <= size == |dst'| == Doubled(|dst|, doublings)
        invariant doublings > 0 ==> size <= BIGGEST_BUFFER_SIZE
        invariant codec.enc(value).Some? ==> forall k: nat | k < doublings :: !RoomAfter(|dst|, Need(codec, value), k)
        invariant doublings > 0 ==> codec.enc(value).Some?
        invariant data == None
        decreases BIGGEST_BUFFER_SIZE - size
      {
        var attempt;
        dst', attempt := TryAt(codec, value, dst', 0);
        match attempt {
          case UnexpectedEnd =>
            ghost var need := Need(codec, value);
            assert !RoomAfter(|dst|, need, doublings);
            size := size * 2;
            if size > BIGGEST_BUFFER_SIZE {
              forall k: nat
                ensures !RoomAfter(|dst|, need, k)
              {
                if k > doublings {
                  DoubledMonotone(|dst|, doublings + 1, k);
                }
              }
              return dst', Err(BufferTooBig), doublings;
            }
            dst' := Resize(dst', size);
            doublings := doublings + 1;
          case Refused =>
            return dst', Err(EncodingRefused), doublings;
          case Wrote(written) =>
            ghost var e := codec.enc(value).value;
            assert dst'[..4 + written] == Frame(e);
            SetData(value);
            assert RoomAfter(|dst|, Need(codec, value), doublings);
            if Lawful(codec) && |e| < TWO_32 {
              ParseFrames(codec, [e], [value]);
              assert Frames([e]) == Frame(e);
            }
            return dst', Ok(4 + written), doublings;
        }
      }
    }

    /** Appends the framed value to `stream`; the buffer is not grown. A value that does not fit is lost. */
    method SaveIntoAsyncWrite(stream: Bytes) returns (stream': Bytes, r: Result<nat, SerializeError>)
      requires |buffer| >= 4
      modifies this
      ensures |buffer| == old(|buffer|)
      ensures r.Ok? <==> old(data).Some? && codec.enc(old(data).value).Some?
                         && 4 + |codec.enc(old(data).value).value| <= |buffer|
      ensures stream' == if r.Ok? then stream + Frame(codec.enc(old(data).value).value) else stream
      ensures r.Ok? ==> r.value == 4 + |codec.enc(old(data).value).value|
      ensures data == if r.Ok? then old(data) else None
      ensures r == Err(NoData) <==> old(data) == None
      ensures r == Err(EncodingRefused) <==> old(data).Some? && codec.enc(old(data).value).None?
      ensures r == Err(BufferTooSmall) <==> old(data).Some? && codec.enc(old(data).value).Some?
                                            && |buffer| < 4 + |codec.enc(old(data).value).value|
    {
      stream' := stream;
      var stored := TakeData();
      if stored.None? {
        return stream', Err(NoData);
      }
      var attempt;
      buffer, attempt := TryAt(codec, stored.value, buffer, 0);
      if !attempt.Wrote? {
        return stream', Err(if attempt.Refused? then EncodingRefused else BufferTooSmall);
      }
      var size := attempt.size;
      assert buffer[..4 + size] == Frame(codec.enc(stored.value).value);
      stream' := stream + buffer[..4 + size];
      SetData(stored.value);
      r := Ok(4 + size);
    }

    /** Frames all the values of `src` one behind the other in the buffer. */
    method EncodeVecInto(src: seq<T>) returns (r: VecOutcome)
      modifies this`buffer
      ensures r == Pack(codec, old(|buffer|), 0, src)
      ensures !r.Done? ==> exists i :: FailsAt(codec, old(|buffer|), 0, src, i, r)
      ensures r.Done? ==>
                && AllEncode(codec, src) && r.size <= |buffer| && buffer[..r.size] == Frames(Payloads(codec, src))
      ensures r.Done? && Lawful(codec) && Encodable(codec, src) ==> Parse(codec, buffer[..r.size]) == Records(src)
      ensures r.Done? ==> |buffer| == RoomAt(old(|buffer|), r.size)
    {
      var offset: nat := 0;
      for i := 0 to |src|
        invariant offset <= |buffer| == RoomAt(old(|buffer|), offset)
        invariant Pack(codec, |buffer|, offset, src[i..]) == Pack(codec, old(|buffer|), 0, src)
        invariant AllEncode(codec, src[..i])
        invariant buffer[..offset] == Frames(Payloads(codec, src[..i]))
      {
        assert src[i..] == [src[i]] + src[i + 1..];
        var packed := PackOne(src[i], offset);
        if !packed.Done? {
          PackFailsIff(codec, old(|buffer|), 0, src, packed);
          return packed;
        }
        assert Payloads(codec, src[..i + 1]) == Payloads(codec, src[..i]) + [codec.enc(src[i]).value];
        FramesSnoc(Payloads(codec, src[..i]), codec.enc(src[i]).value);
        offset := packed.size;
      }
      assert src[..|src|] == src;
      r := Done(offset);
      if Lawful(codec) && Encodable(codec, src) {
        PayloadsDecode(codec, src);
      }
    }

    /** One value: encode, or resize to the one fixed size and try again. */
    method PackOne(value: T, offset: nat) returns (r: VecOutcome)
      requires offset <= |buffer|
      modifies this`buffer
      ensures (r, |buffer|) == PackStep(codec, old(|buffer|), offset, value)
      ensures r.LoopsForever? <==> forall n: nat :: Attempts(codec, old(|buffer|), offset, value, n).None?
      ensures r.Done? ==>
                && codec.enc(value).Some? && r.size <= |buffer|
                && buffer[..r.size] == old(buffer[..offset]) + Frame(codec.enc(value).value)
    {
      ghost var kept := buffer[..offset];
      RetriesForeverIff(codec, |buffer|, offset, value);
      var resized := false;
      while true
        invariant offset <= |buffer| && buffer[..offset] == kept
        invariant |buffer| == if resized then RESIZED else old(|buffer|)
        invariant resized ==> codec.enc(value).Some?
        invariant resized ==> offset + 4 <= old(|buffer|) < offset + 4 + |codec.enc(value).value|
        decreases !resized
      {
        if offset + 4 > |buffer| {
          return SlicePanics;
        }
        var attempt;
        buffer, attempt := TryAt(codec, value, buffer, offset);
        match attempt {
          case UnexpectedEnd =>
            if resized {
              // The source resizes to the same length again and repeats this attempt.
              return LoopsForever;
            }
            buffer := Resize(buffer, RESIZED);
            if offset > RESIZED {
              return SlicePanics;
            }
            resized := true;
          case Refused =>
            return ElementRefused;
          case Wrote(size) =>
            return Done(offset + 4 + size);
        }
      }
    }

    /** Reads a stream to its end through the serializer's own buffer and decodes it. */
    method DecodeFromAsyncRead(chunks: seq<Bytes>) returns (r: Parsed<T>)
      requires AreReads(chunks)
      modifies this`buffer
      ensures r == match ReadBack(old(buffer), chunks)
                   case None => Panics
                   case Some(bytes) => Parse(codec, bytes)
      ensures AbsorbAll(old(buffer), 0, chunks).ReadDone? ==> buffer == AbsorbAll(old(buffer), 0, chunks).buffer
      ensures ReadBack(old(buffer), chunks) == Some(Flatten(chunks)) <==> AllSurvive(old(buffer), chunks)
      ensures AllSurvive(old(buffer), chunks) ==> r == Parse(codec, Flatten(chunks))
    {
      ReadBackIsStreamIff(buffer, chunks);
      var outcome := ReadAllFromStream(chunks, buffer);
      match outcome {
        case ReadPanics => r := Panics;
        case ReadDone(total, bytes) =>
          buffer := bytes;
          if total > |bytes| {
            return Panics;
          }
          r := DecodeFromSliceWithHeader(codec, buffer[..total]);
      }
    }
  }
}
