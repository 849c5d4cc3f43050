/** Signed messages behind a fixed 100-byte header (src/network/protocol.rs). The message encoding and the signature
    scheme are libraries and are parameters. */
module Messages {
  import opened Wrappers
  import opened ByteStrings
  import opened Framing

  type Signature = s: Bytes | |s| == 64 witness Zeros(64)

  datatype Header = Header(msgLength: u32, signature: Signature, publicKey: Hash)

  datatype Message<+P> = Message(sender: Hash, timestamp: u64, payload: P, receiver: Hash)

  datatype MessageError = BufferTooSmall | NotEncodable | TooLarge | SignFailed
                        | TooShort | BadSignature | Undecodable | WrongSender | WrongReceiver

  const HEADER_SIZE: nat := 100
  const MAX_UDP_MSG_SIZE: nat := 1024

  /** Signing under a public key may fail; verification decides. */
  datatype Scheme = Scheme(sign: (Hash, Bytes) -> Option<Signature>, verify: (Bytes, Hash, Signature) -> bool)

  /** What is assumed of the signature library: its own signatures verify. */
  ghost predicate Sound(s: Scheme) {
    forall key: Hash, data: Bytes :: s.sign(key, data).Some? ==> s.verify(data, key, s.sign(key, data).value)
  }

  // ----- header

  function EncodeHeader(h: Header): (b: Bytes)
    ensures |b| == HEADER_SIZE
  {
    U32Bytes(h.msgLength) + h.signature + h.publicKey
  }

  function DecodeHeader(data: Bytes): (r: Result<Header, MessageError>)
    ensures r.Ok? <==> |data| >= 100
    ensures r.Ok? ==>
              && r.value.msgLength == FromBigEndian(data[..4])
              && r.value.signature == data[4..68] && r.value.publicKey == data[68..100]
  {
    if |data| < HEADER_SIZE then Err(TooShort)
    else Ok(Header(U32FromBytes(data[..4]), data[4..68], data[68..100]))
  }

  /** The layout: four bytes of length, the signature, the key. */
  lemma HeaderLayout(h: Header)
    ensures
      var b := EncodeHeader(h);
      |b| == 100 && FromBigEndian(b[..4]) == h.msgLength && b[4..68] == h.signature && b[68..100] == h.publicKey
  {
    var b := EncodeHeader(h);
    assert b[..4] == U32Bytes(h.msgLength);
    U32Decodes(h.msgLength);
  }

  /** Whatever follows a header, it decodes to itself; and any 100 bytes are the encoding of the header they decode to. */
  lemma HeaderRoundTrip(h: Header, rest: Bytes)
    ensures DecodeHeader(EncodeHeader(h) + rest) == Ok(h)
  {
    var data := EncodeHeader(h) + rest;
    assert data[..4] == U32Bytes(h.msgLength);
    assert data[4..68] == h.signature;
    assert data[68..100] == h.publicKey;
    U32RoundTrip(h.msgLength);
  }

  lemma HeaderBytesRoundTrip(data: Bytes)
    requires |data| >= HEADER_SIZE
    ensures EncodeHeader(DecodeHeader(data).value) == data[..HEADER_SIZE]
  {
    U32BytesRoundTrip(data[..4]);
    assert data[..100] == data[..4] + data[4..68] + data[68..100];
  }

  // ----- encoding into a buffer, in place

  function Envelope(signature: Signature, key: Hash, bytes: Bytes): (envelope: Bytes)
    ensures |envelope| == HEADER_SIZE + |bytes|
  {
    EncodeHeader(Header(Wrap32(|bytes|), signature, key)) + bytes
  }

  method WriteAt(buffer: array<byte>, at: nat, bytes: Bytes)
    requires at + |bytes| <= buffer.Length
    modifies buffer
    ensures buffer[..at] == old(buffer[..at])
    ensures buffer[at..at + |bytes|] == bytes
    ensures buffer[at + |bytes|..] == old(buffer[at + |bytes|..])
  {
    for i := 0 to |bytes|
      invariant buffer[..at] == old(buffer[..at])
      invariant buffer[at..at + i] == bytes[..i]
      invariant buffer[at + |bytes|..] == old(buffer[at + |bytes|..])
    {
      buffer[at + i] := bytes[i];
    }
  }

  /** Signs under `key` and fills the buffer with header and message. Only a success touches the first 100 bytes, and
      nothing behind the message is ever touched by one. */
  method Encode<P(!new)>(c: Codec<Message<P>>, s: Scheme, key: Hash, msg: Message<P>, buffer: array<byte>)
    returns (r: Result<nat, MessageError>)
    modifies buffer
    ensures r.Ok? <==> buffer.Length >= MAX_UDP_MSG_SIZE && c.enc(msg).Some?
                       && HEADER_SIZE + |c.enc(msg).value| <= MAX_UDP_MSG_SIZE && s.sign(key, c.enc(msg).value).Some?
    ensures r.Ok? ==>
              var bytes := c.enc(msg).value;
              && r.value == HEADER_SIZE + |bytes|
              && buffer[..r.value] == Envelope(s.sign(key, bytes).value, key, bytes)
              && buffer[r.value..] == old(buffer[r.value..])
    ensures r.Ok? ==>
              && FromBigEndian(buffer[..4]) == r.value - 100 == |c.enc(msg).value| && buffer[100..r.value] == c.enc(msg).value
              && buffer[4..68] == s.sign(key, buffer[100..r.value]).value && buffer[68..100] == key
    ensures r.Err? && buffer.Length >= HEADER_SIZE ==> buffer[..HEADER_SIZE] == old(buffer[..HEADER_SIZE])
    ensures r == Err(BufferTooSmall) <==> buffer.Length < 1024
    ensures r == Err(NotEncodable) <==>
            buffer.Length >= 1024 && (c.enc(msg).None? || 100 + |c.enc(msg).value| > buffer.Length)
    ensures r == Err(TooLarge) <==>
            buffer.Length >= 1024 && c.enc(msg).Some? && 1024 < 100 + |c.enc(msg).value| <= buffer.Length
  {
    if buffer.Length < MAX_UDP_MSG_SIZE {
      return Err(BufferTooSmall);
    }
    var encoded := c.enc(msg);
    if encoded.None? || HEADER_SIZE + |encoded.value| > buffer.Length {
      return Err(NotEncodable);
    }
    var bytes := encoded.value;
    WriteAt(buffer, HEADER_SIZE, bytes);
    var total := HEADER_SIZE + |bytes|;
    if total > MAX_UDP_MSG_SIZE {
      return Err(TooLarge);
    }
    var signature := s.sign(key, buffer[HEADER_SIZE..total]);
    if signature.None? {
      return Err(SignFailed);
    }
    label written:
    WriteAt(buffer, 0, EncodeHeader(Header(Wrap32(|bytes|), signature.value, key)));
    assert buffer[HEADER_SIZE..total] == buffer[HEADER_SIZE..][..|bytes|] == old@written(buffer[HEADER_SIZE..])[..|bytes|] == bytes;
    assert buffer[total..] == buffer[HEADER_SIZE..][|bytes|..] == old@written(buffer[HEADER_SIZE..])[|bytes|..];
    assert buffer[..total] == buffer[0..HEADER_SIZE] + buffer[HEADER_SIZE..total];
    ghost var h := Header(Wrap32(|bytes|), signature.value, key);
    HeaderLayout(h);
    assert buffer[..100] == buffer[0..100] == EncodeHeader(h);
    assert buffer[..4] == buffer[..100][..4] && buffer[4..68] == buffer[..100][4..68] && buffer[68..100] == buffer[..100][68..100];
    r := Ok(total);
  }

  // ----- decoding

  function DecodeWithHeader<P>(c: Codec<Message<P>>, s: Scheme, myName: Hash, bytes: Bytes, h: Header)
    : Result<Message<P>, MessageError>
  {
    if !s.verify(bytes, h.publicKey, h.signature) then Err(BadSignature)
    else
      match c.dec(bytes)
      case None => Err(Undecodable)
      case Some(msg) =>
        if msg.sender != h.publicKey then Err(WrongSender)
        else if msg.receiver != myName then Err(WrongReceiver)
        else Ok(msg)
  }

  function Decode<P>(c: Codec<Message<P>>, s: Scheme, myName: Hash, slice: Bytes): Result<Message<P>, MessageError>
  {
    if |slice| < HEADER_SIZE then Err(TooShort)
    else
      var h := DecodeHeader(slice[..HEADER_SIZE]).value;
      if |slice| < h.msgLength + HEADER_SIZE then Err(TooShort)
      else DecodeWithHeader(c, s, myName, slice[HEADER_SIZE..HEADER_SIZE + h.msgLength], h)
  }

  /** Every answer of decoding, by the bytes of the slice. */
  lemma DecodeOutcome<P>(c: Codec<Message<P>>, s: Scheme, myName: Hash, slice: Bytes, msg: Message<P>)
    ensures
      var r := Decode(c, s, myName, slice);
      var short := |slice| < 100 || |slice| < 100 + FromBigEndian(slice[..4]);
      && (r == Err(TooShort) <==> short)
      && (!short ==>
            var key, signature, bytes := slice[68..100], slice[4..68], slice[100..100 + FromBigEndian(slice[..4])];
            var verified, decoded := s.verify(bytes, key, signature), c.dec(bytes);
            && (r == Err(BadSignature) <==> !verified)
            && (r == Err(Undecodable) <==> verified && decoded.None?)
            && (r == Err(WrongSender) <==> verified && decoded.Some? && decoded.value.sender != key)
            && (r == Err(WrongReceiver) <==>
                  verified && decoded.Some? && decoded.value.sender == key && decoded.value.receiver != myName)
            && (r == Ok(msg) <==> verified && decoded == Some(msg) && msg.sender == key && msg.receiver == myName))
  {
    if |slice| >= 100 {
      var front := slice[..100];
      assert front[..4] == slice[..4] && front[4..68] == slice[4..68] && front[68..100] == slice[68..100];
    }
  }

  lemma DecodeEnvelope<P>(c: Codec<Message<P>>, s: Scheme, myName: Hash, signature: Signature, key: Hash, bytes: Bytes, trailing: Bytes)
    requires |bytes| < TWO_32
    ensures Decode(c, s, myName, Envelope(signature, key, bytes) + trailing)
            == DecodeWithHeader(c, s, myName, bytes, Header(|bytes|, signature, key))
  {
    var h := Header(|bytes|, signature, key);
    var slice := Envelope(signature, key, bytes) + trailing;
    assert slice[..HEADER_SIZE] == EncodeHeader(h) + [];
    HeaderRoundTrip(h, []);
    assert slice[HEADER_SIZE..HEADER_SIZE + |bytes|] == bytes;
  }

  /** Round trip. What `Encode` wrote, followed by anything, decodes to the original message exactly when the message
      names the signing key as its sender and the decoding node as its receiver. */
  lemma MessageRoundTrip<P(!new)>(c: Codec<Message<P>>, s: Scheme, key: Hash, msg: Message<P>, myName: Hash, trailing: Bytes)
    requires Lawful(c) && Sound(s)
    requires c.enc(msg).Some? && |c.enc(msg).value| < TWO_32 && s.sign(key, c.enc(msg).value).Some?
    ensures
      var bytes := c.enc(msg).value;
      var slice := Envelope(s.sign(key, bytes).value, key, bytes) + trailing;
      Decode(c, s, myName, slice) == Ok(msg) <==> msg.sender == key && msg.receiver == myName
  {
    var bytes := c.enc(msg).value;
    DecodeEnvelope(c, s, myName, s.sign(key, bytes).value, key, bytes, trailing);
  }

  /** Soundness. An accepted slice is an envelope whose signature verifies, on exactly the message bytes, under the
      message's own sender key, and the message is addressed to this node. */
  lemma AcceptedIsAuthentic<P>(c: Codec<Message<P>>, s: Scheme, myName: Hash, slice: Bytes)
    returns (signature: Signature, bytes: Bytes, trailing: Bytes)
    requires Decode(c, s, myName, slice).Ok?
    ensures
      var msg := Decode(c, s, myName, slice).value;
      && slice == Envelope(signature, msg.sender, bytes) + trailing && |bytes| < TWO_32
      && s.verify(bytes, msg.sender, signature)
      && c.dec(bytes) == Some(msg) && msg.receiver == myName
  {
    var h := DecodeHeader(slice[..HEADER_SIZE]).value;
    HeaderBytesRoundTrip(slice[..HEADER_SIZE]);
    signature := h.signature;
    bytes := slice[HEADER_SIZE..HEADER_SIZE + h.msgLength];
    trailing := slice[HEADER_SIZE + h.msgLength..];
    assert slice == slice[..HEADER_SIZE] + bytes + trailing;
  }

  /** A message cut off anywhere is refused as too short, before its signature is looked at. */
  lemma TruncatedIsRefused<P>(c: Codec<Message<P>>, s: Scheme, myName: Hash, signature: Signature, key: Hash, bytes: Bytes, k: nat)
    requires |bytes| < TWO_32 && k < HEADER_SIZE + |bytes|
    ensures Decode(c, s, myName, Envelope(signature, key, bytes)[..k]) == Err(TooShort)
  {
    if k >= HEADER_SIZE {
      var h := Header(|bytes|, signature, key);
      var slice := Envelope(signature, key, bytes)[..k];
      assert slice[..HEADER_SIZE] == EncodeHeader(h) + [];
      HeaderRoundTrip(h, []);
    }
  }
}
