/** The three kinds of block: data blocks and digest blocks (src/block.rs) and the vote blocks carried by
    messages (src/network/protocol.rs). A block's hash covers all its other fields. */
module Blocks {
  import opened Wrappers
  import opened ByteStrings

  /** `result` of a vote block is the bit pattern of its 32-bit float. */
  datatype Block =
    | DataBlock(hash: Hash, timestamp: u64, prevHash: Hash, dataHash: Hash, dataUuid: Uuid, digestId: u32, localIndex: u32)
    | DigestBlock(hash: Hash, digestId: u32, timestamp: u64, prevHash: Hash, merkleRoot: Hash, length: u32)
    | VoteBlock(hash: Hash, prevHash: Hash, expireTime: u64, blockHash: Hash, voter: Hash, vote: bool, timestamp: u64,
                suspectedBlock: Hash, result: u32, voteIndex: u64, digestId: u32)
  {
    /** A digest block's index is its digest id. */
    function Index(): nat {
      match this
      case DataBlock(_, _, _, _, _, _, _) => localIndex
      case DigestBlock(_, _, _, _, _, _) => digestId
      case VoteBlock(_, _, _, _, _, _, _, _, _, _, _) => voteIndex
    }

    function WithHash(h: Hash): Block {
      match this
      case DataBlock(_, time, prev, dataHash, uuid, id, index) => DataBlock(h, time, prev, dataHash, uuid, id, index)
      case DigestBlock(_, id, time, prev, root, length) => DigestBlock(h, id, time, prev, root, length)
      case VoteBlock(_, prev, expire, block, voter, vote, time, suspected, result, index, id) =>
        VoteBlock(h, prev, expire, block, voter, vote, time, suspected, result, index, id)
    }
  }

  datatype BlockError = WrongHash | WrongTime | WrongPrevHash

  // ----- hashing

  function BoolText(b: bool): Bytes {
    if b then [116, 114, 117, 101] else [102, 97, 108, 115, 101]  // "true", "false"
  }

  /** The bytes that are hashed: every field but `hash`, integers big-endian. */
  function Preimage(b: Block): Bytes {
    match b
    case DataBlock(_, timestamp, prevHash, dataHash, dataUuid, digestId, localIndex) =>
      U64Bytes(timestamp) + (prevHash + (dataHash + (dataUuid + (U32Bytes(digestId) + U32Bytes(localIndex)))))
    case DigestBlock(_, digestId, timestamp, prevHash, merkleRoot, length) =>
      U64Bytes(timestamp) + (prevHash + (merkleRoot + (U32Bytes(length) + U32Bytes(digestId))))
    case VoteBlock(_, prevHash, expireTime, blockHash, voter, vote, timestamp, suspectedBlock, result, voteIndex, digestId) =>
      prevHash + (U64Bytes(timestamp) + (U64Bytes(expireTime) + (blockHash + (voter + (BoolText(vote)
        + (suspectedBlock + (U32Bytes(result) + (U64Bytes(voteIndex) + U32Bytes(digestId)))))))))
  }

  function HashBlock(H: HashFn, b: Block): Hash {
    H(Preimage(b))
  }

  /** A new block: its hash field is computed from the others. */
  function Seal(H: HashFn, b: Block): (sealed: Block)
    ensures Preimage(sealed) == Preimage(b) && sealed.hash == HashBlock(H, sealed)
  {
    b.WithHash(HashBlock(H, b))
  }

  /** The layout: which field the bytes at each position are. */
  lemma DataPreimageLayout(b: Block)
    requires b.DataBlock?
    ensures
      var p := Preimage(b);
      && |p| == 96 && FromBigEndian(p[..8]) == b.timestamp && p[8..40] == b.prevHash && p[40..72] == b.dataHash
      && p[72..88] == b.dataUuid && FromBigEndian(p[88..92]) == b.digestId && FromBigEndian(p[92..96]) == b.localIndex
  {
    var p, numbers := Preimage(b), U32Bytes(b.digestId) + U32Bytes(b.localIndex);
    CutThree(U64Bytes(b.timestamp), b.prevHash, b.dataHash, b.dataUuid + numbers);
    CutBehind(p, 72, b.dataUuid, numbers);
    CutLater(p, 88, 0, 4);
    CutLater(p, 88, 4, 8);
    TwoNumbers(b.digestId, b.localIndex);
    U64Decodes(b.timestamp);
  }

  lemma TwoNumbers(m: u32, n: u32)
    ensures
      var numbers := U32Bytes(m) + U32Bytes(n);
      |numbers| == 8 && FromBigEndian(numbers[0..4]) == m && FromBigEndian(numbers[4..8]) == n
  {
    var numbers := U32Bytes(m) + U32Bytes(n);
    CutAt(U32Bytes(m), U32Bytes(n));
    assert numbers[0..4] == numbers[..4] && numbers[4..8] == numbers[4..];
    U32Decodes(m);
    U32Decodes(n);
  }

  lemma DigestPreimageLayout(b: Block)
    requires b.DigestBlock?
    ensures
      var p := Preimage(b);
      && |p| == 80 && FromBigEndian(p[..8]) == b.timestamp && p[8..40] == b.prevHash && p[40..72] == b.merkleRoot
      && FromBigEndian(p[72..76]) == b.length && FromBigEndian(p[76..80]) == b.digestId
  {
    var p, numbers := Preimage(b), U32Bytes(b.length) + U32Bytes(b.digestId);
    CutThree(U64Bytes(b.timestamp), b.prevHash, b.merkleRoot, numbers);
    CutLater(p, 72, 0, 4);
    CutLater(p, 72, 4, 8);
    TwoNumbers(b.length, b.digestId);
    U64Decodes(b.timestamp);
  }

  lemma VoteIsText(vote: bool)
    ensures
      var text := if vote then "true" else "false";
      |BoolText(vote)| == |text| && forall i | 0 <= i < |text| :: BoolText(vote)[i] == text[i] as int
  {
  }

  /** The vote is hashed as the text of the truth value, so what follows it moves by one byte. */
  lemma VotePreimageLayout(b: Block)
    requires b.VoteBlock?
    ensures
      var p := Preimage(b);
      var n := 112 + |BoolText(b.vote)|;
      && |p| == n + 48 && p[..32] == b.prevHash && FromBigEndian(p[32..40]) == b.timestamp
      && FromBigEndian(p[40..48]) == b.expireTime && p[48..80] == b.blockHash && p[80..112] == b.voter
      && p[112..n] == BoolText(b.vote) && p[n..n + 32] == b.suspectedBlock && FromBigEndian(p[n + 32..n + 36]) == b.result
      && FromBigEndian(p[n + 36..n + 44]) == b.voteIndex && FromBigEndian(p[n + 44..n + 48]) == b.digestId
  {
    var p := Preimage(b);
    var tail := BoolText(b.vote) + (b.suspectedBlock + (U32Bytes(b.result) + (U64Bytes(b.voteIndex) + U32Bytes(b.digestId))));
    VoteFront(b, tail);
    VoteTail(b, tail);
    var t := |BoolText(b.vote)|;
    CutLater(p, 112, 0, t);
    CutLater(p, 112, t, t + 32);
    CutLater(p, 112, t + 32, t + 36);
    CutLater(p, 112, t + 36, t + 44);
    CutLater(p, 112, t + 44, t + 48);
  }

  lemma VoteFront(b: Block, tail: Bytes)
    requires b.VoteBlock?
    requires tail == BoolText(b.vote) + (b.suspectedBlock + (U32Bytes(b.result) + (U64Bytes(b.voteIndex) + U32Bytes(b.digestId))))
    ensures
      var p := Preimage(b);
      && |p| == 112 + |tail| && p[112..] == tail && p[..32] == b.prevHash && FromBigEndian(p[32..40]) == b.timestamp
      && FromBigEndian(p[40..48]) == b.expireTime && p[48..80] == b.blockHash && p[80..112] == b.voter
  {
    var p, rest := Preimage(b), b.blockHash + (b.voter + tail);
    CutThree(b.prevHash, U64Bytes(b.timestamp), U64Bytes(b.expireTime), rest);
    CutThree(b.blockHash, b.voter, tail, []);
    CutLater(p, 48, 0, 32);
    CutLater(p, 48, 32, 64);
    CutLater(p, 48, 64, |rest|);
    U64Decodes(b.timestamp);
    U64Decodes(b.expireTime);
  }

  lemma VoteTail(b: Block, tail: Bytes)
    requires b.VoteBlock?
    requires tail == BoolText(b.vote) + (b.suspectedBlock + (U32Bytes(b.result) + (U64Bytes(b.voteIndex) + U32Bytes(b.digestId))))
    ensures
      var t := |BoolText(b.vote)|;
      && |tail| == t + 48 && tail[..t] == BoolText(b.vote) && tail[t..t + 32] == b.suspectedBlock
      && FromBigEndian(tail[t + 32..t + 36]) == b.result
      && FromBigEndian(tail[t + 36..t + 44]) == b.voteIndex && FromBigEndian(tail[t + 44..t + 48]) == b.digestId
  {
    var t, last := |BoolText(b.vote)|, U64Bytes(b.voteIndex) + U32Bytes(b.digestId);
    CutThree(BoolText(b.vote), b.suspectedBlock, U32Bytes(b.result), last);
    CutAt(U64Bytes(b.voteIndex), U32Bytes(b.digestId));
    CutLater(tail, t + 36, 0, 8);
    CutLater(tail, t + 36, 8, 12);
    assert last[8..12] == last[8..];
    U32Decodes(b.result);
    U64Decodes(b.voteIndex);
    U32Decodes(b.digestId);
  }

  lemma DataPreimageInjective(a: Block, b: Block)
    requires a.DataBlock? && b.DataBlock? && Preimage(a) == Preimage(b)
    ensures a == b.WithHash(a.hash)
  {
    var a4, b4 := U32Bytes(a.digestId) + U32Bytes(a.localIndex), U32Bytes(b.digestId) + U32Bytes(b.localIndex);
    var a3, b3 := a.dataUuid + a4, b.dataUuid + b4;
    var a2, b2 := a.dataHash + a3, b.dataHash + b3;
    var a1, b1 := a.prevHash + a2, b.prevHash + b2;
    SplitEqual(U64Bytes(a.timestamp), a1, U64Bytes(b.timestamp), b1);
    SplitEqual(a.prevHash, a2, b.prevHash, b2);
    SplitEqual(a.dataHash, a3, b.dataHash, b3);
    SplitEqual(a.dataUuid, a4, b.dataUuid, b4);
    SplitEqual(U32Bytes(a.digestId), U32Bytes(a.localIndex), U32Bytes(b.digestId), U32Bytes(b.localIndex));
    U64BytesInjective(a.timestamp, b.timestamp);
    U32BytesInjective(a.digestId, b.digestId);
    U32BytesInjective(a.localIndex, b.localIndex);
  }

  lemma DigestPreimageInjective(a: Block, b: Block)
    requires a.DigestBlock? && b.DigestBlock? && Preimage(a) == Preimage(b)
    ensures a == b.WithHash(a.hash)
  {
    var a3, b3 := U32Bytes(a.length) + U32Bytes(a.digestId), U32Bytes(b.length) + U32Bytes(b.digestId);
    var a2, b2 := a.merkleRoot + a3, b.merkleRoot + b3;
    var a1, b1 := a.prevHash + a2, b.prevHash + b2;
    SplitEqual(U64Bytes(a.timestamp), a1, U64Bytes(b.timestamp), b1);
    SplitEqual(a.prevHash, a2, b.prevHash, b2);
    SplitEqual(a.merkleRoot, a3, b.merkleRoot, b3);
    SplitEqual(U32Bytes(a.length), U32Bytes(a.digestId), U32Bytes(b.length), U32Bytes(b.digestId));
    U64BytesInjective(a.timestamp, b.timestamp);
    U32BytesInjective(a.length, b.length);
    U32BytesInjective(a.digestId, b.digestId);
  }

  /** The vote is written as text of varying length in the middle; the total length tells which text it was. */
  lemma VotePreimageInjective(a: Block, b: Block)
    requires a.VoteBlock? && b.VoteBlock? && Preimage(a) == Preimage(b)
    ensures a == b.WithHash(a.hash)
  {
    assert |BoolText(a.vote)| == |BoolText(b.vote)|;
    var a9, b9 := U64Bytes(a.voteIndex) + U32Bytes(a.digestId), U64Bytes(b.voteIndex) + U32Bytes(b.digestId);
    var a7, b7 := U32Bytes(a.result) + a9, U32Bytes(b.result) + b9;
    var a6, b6 := a.suspectedBlock + a7, b.suspectedBlock + b7;
    var a5, b5 := BoolText(a.vote) + a6, BoolText(b.vote) + b6;
    var a4, b4 := a.voter + a5, b.voter + b5;
    var a3, b3 := a.blockHash + a4, b.blockHash + b4;
    var a2, b2 := U64Bytes(a.expireTime) + a3, U64Bytes(b.expireTime) + b3;
    var a1, b1 := U64Bytes(a.timestamp) + a2, U64Bytes(b.timestamp) + b2;
    SplitEqual(a.prevHash, a1, b.prevHash, b1);
    SplitEqual(U64Bytes(a.timestamp), a2, U64Bytes(b.timestamp), b2);
    SplitEqual(U64Bytes(a.expireTime), a3, U64Bytes(b.expireTime), b3);
    SplitEqual(a.blockHash, a4, b.blockHash, b4);
    SplitEqual(a.voter, a5, b.voter, b5);
    SplitEqual(BoolText(a.vote), a6, BoolText(b.vote), b6);
    SplitEqual(a.suspectedBlock, a7, b.suspectedBlock, b7);
    SplitEqual(U32Bytes(a.result), a9, U32Bytes(b.result), b9);
    SplitEqual(U64Bytes(a.voteIndex), U32Bytes(a.digestId), U64Bytes(b.voteIndex), U32Bytes(b.digestId));
    U64BytesInjective(a.timestamp, b.timestamp);
    U64BytesInjective(a.expireTime, b.expireTime);
    U64BytesInjective(a.voteIndex, b.voteIndex);
    U32BytesInjective(a.result, b.result);
    U32BytesInjective(a.digestId, b.digestId);
  }

  /** Two blocks are hashed from the same bytes only if they are the same block, also across kinds. */
  lemma PreimageInjective(a: Block, b: Block)
    requires Preimage(a) == Preimage(b)
    ensures (a.DataBlock? <==> b.DataBlock?) && (a.DigestBlock? <==> b.DigestBlock?)
    ensures a == b.WithHash(a.hash)
  {
    if a.DataBlock? && b.DataBlock? {
      DataPreimageInjective(a, b);
    } else if a.DigestBlock? && b.DigestBlock? {
      DigestPreimageInjective(a, b);
    } else if a.VoteBlock? && b.VoteBlock? {
      VotePreimageInjective(a, b);
    } else {
      assert false;
    }
  }

  // ----- verification

  /** `time_start + time_gap` is a 64-bit sum, which wraps around in a release build. */
  predicate InWindow(t: u64, start: u64, gap: u64) {
    start <= t <= Wrap64(start + gap)
  }

  /** It accepts the times of the window if the window ends before the clock overflows, and otherwise none at all. */
  lemma InWindowMeaning(t: u64, start: u64, gap: u64)
    ensures InWindow(t, start, gap) <==> start + gap < TWO_64 && start <= t <= start + gap
  {
  }

  function VerifyBlock(H: HashFn, b: Block, preHash: Hash, start: u64, gap: u64): (r: Result<(), BlockError>)
    ensures r.Ok? <==> b.hash == HashBlock(H, b) && InWindow(b.timestamp, start, gap) && b.prevHash == preHash
    ensures r == Err(WrongHash) <==> b.hash != HashBlock(H, b)
    ensures r == Err(WrongPrevHash) <==>
            b.hash == HashBlock(H, b) && InWindow(b.timestamp, start, gap) && b.prevHash != preHash
  {
    if b.hash != HashBlock(H, b) then Err(WrongHash)
    else if b.timestamp < start || b.timestamp > Wrap64(start + gap) then Err(WrongTime)
    else if b.prevHash != preHash then Err(WrongPrevHash)
    else Ok(())
  }

  /** Once two blocks verify and have the same hash they are the same block, if their pre-images do not collide. */
  lemma HashFixesBlock(H: HashFn, a: Block, b: Block)
    requires a.hash == HashBlock(H, a) && b.hash == HashBlock(H, b) && a.hash == b.hash
    requires CollisionFree(H, {Preimage(a), Preimage(b)})
    ensures a == b
  {
    assert !Collide(H, Preimage(a), Preimage(b));
    PreimageInjective(a, b);
  }

  // ----- genesis blocks; the clock reading is a parameter

  datatype Kind = DataKind | DigestKind | VoteKind

  /** A genesis block carries the time it was made, follows nothing, and is empty but for its digest id; a digest block
      counts it as one block. */
  function Genesis(H: HashFn, kind: Kind, digestId: u32, now: u64): (b: Block)
    ensures b.timestamp == now && b.prevHash == Zeros(32) && b.digestId == digestId && b.hash == HashBlock(H, b)
    ensures kind.DataKind? ==> b.DataBlock? && b.localIndex == 0 && b.dataHash == Zeros(32) && b.dataUuid == Zeros(16)
    ensures kind.DigestKind? ==> b.DigestBlock? && b.length == 1 && b.merkleRoot == Zeros(32)
    ensures kind.VoteKind? ==>
              && b.VoteBlock? && b.voteIndex == 0 && b.expireTime == 0 && !b.vote && b.result == 0
              && b.blockHash == b.voter == b.suspectedBlock == Zeros(32)
  {
    match kind
    case DataKind => Seal(H, DataBlock(ZERO_HASH, now, ZERO_HASH, ZERO_HASH, ZERO_UUID, digestId, 0))
    case DigestKind => Seal(H, DigestBlock(ZERO_HASH, digestId, now, ZERO_HASH, ZERO_HASH, 1))
    case VoteKind =>
      Seal(H, VoteBlock(ZERO_HASH, ZERO_HASH, 0, ZERO_HASH, ZERO_HASH, false, now, ZERO_HASH, 0, 0, digestId))
  }
}
