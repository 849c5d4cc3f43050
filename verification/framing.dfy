/** Length-prefixed records: a four-byte big-endian size, then the encoded value (src/serializer.rs). The encoding
    itself is the bincode library's and is a parameter. */
module Framing {
  import opened Wrappers
  import opened ByteStrings

  /** `enc` has no result for a value the library refuses to encode; `dec` has none for bytes it refuses. */
  datatype Codec<!T> = Codec(enc: T -> Option<Bytes>, dec: Bytes -> Option<T>)

  /** What is assumed of the library: a value decodes from its own encoding. */
  ghost predicate Lawful<T(!new)>(c: Codec<T>) {
    forall x :: c.enc(x).Some? ==> c.dec(c.enc(x).value) == Some(x)
  }

  function Frame(payload: Bytes): (frame: Bytes)
    ensures |frame| == 4 + |payload|
  {
    U32Bytes(Wrap32(|payload|)) + payload
  }

  /** The layout: four bytes of size, most significant first, then the payload. */
  lemma FrameLayout(payload: Bytes, rest: Bytes)
    requires |payload| < TWO_32
    ensures
      var frame := Frame(payload) + rest;
      && frame[..4] == U32Bytes(|payload|) && FromBigEndian(frame[..4]) == |payload|
      && frame[4..4 + |payload|] == payload && frame[4 + |payload|..] == rest
  {
    assert (Frame(payload) + rest)[..4] == U32Bytes(|payload|);
    U32Decodes(|payload|);
  }

  function Frames(payloads: seq<Bytes>): Bytes {
    if payloads == [] then [] else Frame(payloads[0]) + Frames(payloads[1..])
  }

  /** `Panics`: a size that reaches past the end of the buffer makes the slice expression panic. */
  datatype Parsed<+T> = Records(values: seq<T>) | BadHeader | BadPayload | Panics

  function Prepend<T>(values: seq<T>, p: Parsed<T>): Parsed<T> {
    if p.Records? then Records(values + p.values) else p
  }

  function Parse<T>(c: Codec<T>, buf: Bytes): Parsed<T>
    decreases |buf|
  {
    if buf == [] then Records([])
    else if |buf| < 4 then BadHeader
    else
      var size := U32FromBytes(buf[..4]);
      if 4 + size > |buf| then Panics
      else
        match c.dec(buf[4..4 + size])
        case None => BadPayload
        case Some(value) => Prepend([value], Parse(c, buf[4 + size..]))
  }

  lemma PrependPrepend<T>(a: seq<T>, b: seq<T>, p: Parsed<T>)
    ensures Prepend(a, Prepend(b, p)) == Prepend(a + b, p)
  {
    if p.Records? {
      assert a + (b + p.values) == a + b + p.values;
    }
  }

  method DecodeFromSliceWithHeader<T>(c: Codec<T>, buffer: Bytes) returns (r: Parsed<T>)
    ensures r == Parse(c, buffer)
  {
    var values: seq<T> := [];
    var offset := 0;
    while offset < |buffer|
      invariant offset <= |buffer|
      invariant Parse(c, buffer) == Prepend(values, Parse(c, buffer[offset..]))
    {
      ghost var rest := buffer[offset..];
      if |buffer| - offset < 4 {
        return BadHeader;
      }
      assert rest[..4] == buffer[offset..offset + 4];
      var size := U32FromBytes(buffer[offset..offset + 4]);
      offset := offset + 4;
      if offset + size > |buffer| {
        return Panics;
      }
      assert rest[4..4 + size] == buffer[offset..offset + size];
      var value := c.dec(buffer[offset..offset + size]);
      if value.None? {
        return BadPayload;
      }
      assert rest[4 + size..] == buffer[offset + size..];
      PrependPrepend(values, [value.value], Parse(c, buffer[offset + size..]));
      values := values + [value.value];
      offset := offset + size;
    }
    assert buffer[offset..] == [];
    assert values + [] == values;
    r := Records(values);
  }

  // ----- round trip, and decoding of concatenations

  lemma ParseFrame<T>(c: Codec<T>, payload: Bytes, rest: Bytes)
    requires |payload| < TWO_32
    ensures Parse(c, Frame(payload) + rest)
            == match c.dec(payload) case None => BadPayload case Some(value) => Prepend([value], Parse(c, rest))
  {
    var buf := Frame(payload) + rest;
    assert buf[..4] == U32Bytes(|payload|);
    U32RoundTrip(|payload|);
    assert buf[4..4 + |payload|] == payload;
    assert buf[4 + |payload|..] == rest;
  }

  /** Decoding is a homomorphism: if the first part parses, the whole parses as the first part followed by whatever
      the second part parses as, failures included. */
  lemma {:induction false} ParseAppend<T>(c: Codec<T>, a: Bytes, b: Bytes)
    requires Parse(c, a).Records?
    ensures Parse(c, a + b) == Prepend(Parse(c, a).values, Parse(c, b))
    decreases |a|
  {
    if a == [] {
      assert a + b == b;
      PrependNothing(Parse(c, b));
    } else {
      var size := U32FromBytes(a[..4]);
      var rest := a[4 + size..];
      assert (a + b)[..4] == a[..4];
      assert (a + b)[4..4 + size] == a[4..4 + size];
      assert (a + b)[4 + size..] == rest + b;
      ParseAppend(c, rest, b);
      PrependPrepend([c.dec(a[4..4 + size]).value], Parse(c, rest).values, Parse(c, b));
    }
  }

  /** A buffer that ends inside a record: an error if the cut is inside the size bytes, a panic if it is behind them. */
  lemma CutOffRecord<T>(c: Codec<T>, front: Bytes, payload: Bytes, k: nat)
    requires Parse(c, front).Records? && |payload| < TWO_32 && 0 < k < 4 + |payload|
    ensures Parse(c, front + Frame(payload)[..k]) == if k < 4 then BadHeader else Panics
  {
    var rest := Frame(payload)[..k];
    ParseAppend(c, front, rest);
    if k >= 4 {
      assert rest[..4] == Frame(payload)[..4] == U32Bytes(|payload|);
      U32RoundTrip(|payload|);
    }
  }

  lemma PrependNothing<T>(p: Parsed<T>)
    ensures Prepend([], p) == p
  {
    if p.Records? {
      assert [] + p.values == p.values;
    }
  }

  ghost predicate Encodes<T>(c: Codec<T>, payloads: seq<Bytes>, values: seq<T>) {
    && |payloads| == |values|
    && forall i | 0 <= i < |values| :: |payloads[i]| < TWO_32 && c.dec(payloads[i]) == Some(values[i])
  }

  /** A buffer parses to a list of values exactly when it is the concatenation of frames of payloads that decode to
      them. */
  lemma {:induction false} ParseFrames<T>(c: Codec<T>, payloads: seq<Bytes>, values: seq<T>)
    requires Encodes(c, payloads, values)
    ensures Parse(c, Frames(payloads)) == Records(values)
  {
    if payloads != [] {
      ParseFrames(c, payloads[1..], values[1..]);
      ParseFrame(c, payloads[0], Frames(payloads[1..]));
      assert [values[0]] + values[1..] == values;
    }
  }

  lemma HeadFrame<T>(c: Codec<T>, buf: Bytes) returns (payload: Bytes, tail: Bytes)
    requires buf != [] && Parse(c, buf).Records?
    ensures buf == Frame(payload) + tail && |payload| < TWO_32
    ensures c.dec(payload).Some? && Parse(c, tail).Records?
    ensures Parse(c, buf).values == [c.dec(payload).value] + Parse(c, tail).values
  {
    var size := U32FromBytes(buf[..4]);
    payload, tail := buf[4..4 + size], buf[4 + size..];
    CutFrame(buf);
  }

  lemma CutFrame(buf: Bytes)
    requires |buf| >= 4 && |buf| >= 4 + U32FromBytes(buf[..4])
    ensures var size := U32FromBytes(buf[..4]); buf == Frame(buf[4..4 + size]) + buf[4 + size..]
  {
    var size := U32FromBytes(buf[..4]);
    U32BytesRoundTrip(buf[..4]);
    assert buf == buf[..4] + buf[4..4 + size] + buf[4 + size..];
  }

  lemma {:induction false} ParsedIsFrames<T>(c: Codec<T>, buf: Bytes) returns (payloads: seq<Bytes>)
    requires Parse(c, buf).Records?
    ensures Encodes(c, payloads, Parse(c, buf).values) && buf == Frames(payloads)
    decreases |buf|
  {
    if buf == [] {
      payloads := [];
    } else {
      var payload, tail := HeadFrame(c, buf);
      var rest := ParsedIsFrames(c, tail);
      payloads := [payload] + rest;
      EncodesMore(c, payload, c.dec(payload).value, rest, Parse(c, tail).values);
      FramesMore(payload, rest);
    }
  }

  lemma EncodesMore<T>(c: Codec<T>, payload: Bytes, value: T, payloads: seq<Bytes>, values: seq<T>)
    requires |payload| < TWO_32 && c.dec(payload) == Some(value) && Encodes(c, payloads, values)
    ensures Encodes(c, [payload] + payloads, [value] + values)
  {
  }

  lemma FramesMore(payload: Bytes, payloads: seq<Bytes>)
    ensures Frames([payload] + payloads) == Frame(payload) + Frames(payloads)
  {
    assert ([payload] + payloads)[1..] == payloads;
  }

  lemma FrameIsHeaderFirst(payload: Bytes, rest: Bytes)
    requires |payload| < TWO_32
    ensures Frame(payload) + rest == U32Bytes(|payload|) + (payload + rest)
  {
  }

  lemma FrameSplit(a: Bytes, restA: Bytes, b: Bytes, restB: Bytes)
    requires |a| < TWO_32 && |b| < TWO_32 && Frame(a) + restA == Frame(b) + restB
    ensures a == b && restA == restB
  {
    FrameIsHeaderFirst(a, restA);
    FrameIsHeaderFirst(b, restB);
    SplitEqual(U32Bytes(|a|), a + restA, U32Bytes(|b|), b + restB);
    U32BytesInjective(|a|, |b|);
    SplitEqual(a, restA, b, restB);
  }

  /** Frames are unambiguous: a buffer is the concatenation of the frames of at most one list of payloads. */
  lemma {:induction false} FramesInjective(a: seq<Bytes>, b: seq<Bytes>)
    requires (forall p | p in a :: |p| < TWO_32) && (forall p | p in b :: |p| < TWO_32)
    requires Frames(a) == Frames(b)
    ensures a == b
  {
    if a != [] && b != [] {
      FrameSplit(a[0], Frames(a[1..]), b[0], Frames(b[1..]));
      FramesInjective(a[1..], b[1..]);
      assert a == [a[0]] + a[1..] && b == [b[0]] + b[1..];
    }
  }

  lemma {:induction false} FramesSnoc(payloads: seq<Bytes>, last: Bytes)
    ensures Frames(payloads + [last]) == Frames(payloads) + Frame(last)
  {
    if payloads == [] {
      FramesMore(last, []);
    } else {
      FramesSnoc(payloads[1..], last);
      assert (payloads + [last])[1..] == payloads[1..] + [last];
    }
  }
}
