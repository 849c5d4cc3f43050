/** Chains of blocks linked by hashes (src/chain.rs). `Chain` is the value of a chain and carries the read-only
    operations; `BlockChain` is the object that grows in place. */
module Chains {
  import opened Wrappers
  import opened ByteStrings
  import opened Blocks

  datatype ChainLimit = ChainLimit(maxLen: nat, timeGap: u64)

  datatype Chain = Chain(blocks: seq<Block>, limit: ChainLimit)

  datatype ChainError = EmptyChain | ChainFull | BadRange | BadBlock(error: BlockError)

  // ----- whole-chain verification

  predicate LinkOk(H: HashFn, blocks: seq<Block>, gap: u64, i: nat)
    requires 1 <= i < |blocks|
  {
    VerifyBlock(H, blocks[i], blocks[i - 1].hash, blocks[0].timestamp, gap).Ok?
  }

  /** Every block but the first verifies against its predecessor and the window that the first block opens. */
  predicate Linked(H: HashFn, blocks: seq<Block>, gap: u64) {
    forall i | 1 <= i < |blocks| :: LinkOk(H, blocks, gap, i)
  }

  /** What `verify` accepts: a chain of one block counts as empty. */
  predicate Verified(H: HashFn, c: Chain) {
    |c.blocks| >= 2 && Linked(H, c.blocks, c.limit.timeGap)
  }

  /** On failure the error is that of the first block that does not verify. */
  method VerifyChain(H: HashFn, c: Chain) returns (r: Result<(), ChainError>)
    ensures r.Ok? <==> Verified(H, c)
    ensures r == Err(EmptyChain) <==> |c.blocks| <= 1
    ensures r.Ok? || r.error.EmptyChain? || r.error.BadBlock?
    ensures r.Err? && r.error.BadBlock? ==>
              exists i | 1 <= i < |c.blocks| ::
                && !LinkOk(H, c.blocks, c.limit.timeGap, i) && (forall k | 1 <= k < i :: LinkOk(H, c.blocks, c.limit.timeGap, k))
                && r.error.error == VerifyBlock(H, c.blocks[i], c.blocks[i - 1].hash, c.blocks[0].timestamp, c.limit.timeGap).error
  {
    if |c.blocks| <= 1 {
      return Err(EmptyChain);
    }
    for i := 1 to |c.blocks|
      invariant forall k | 1 <= k < i :: LinkOk(H, c.blocks, c.limit.timeGap, k)
    {
      var v := VerifyBlock(H, c.blocks[i], c.blocks[i - 1].hash, c.blocks[0].timestamp, c.limit.timeGap);
      if v.Err? {
        assert !LinkOk(H, c.blocks, c.limit.timeGap, i);
        return Err(BadBlock(v.error));
      }
    }
    r := Ok(());
  }

  // ----- incremental verification

  function BlockVerify(H: HashFn, c: Chain, b: Block): (r: Result<(), ChainError>)
    ensures r == Err(EmptyChain) <==> c.blocks == []
  {
    if c.blocks == [] then Err(EmptyChain)
    else
      match VerifyBlock(H, b, c.blocks[|c.blocks| - 1].hash, c.blocks[0].timestamp, c.limit.timeGap)
      case Ok(_) => Ok(())
      case Err(e) => Err(BadBlock(e))
  }

  function AddBlock(H: HashFn, c: Chain, b: Block): Result<Chain, ChainError> {
    var extended := c.(blocks := c.blocks + [b]);
    if c.blocks == [] then
      if b.prevHash != ZERO_HASH then Err(EmptyChain) else Ok(extended)
    else if |c.blocks| >= c.limit.maxLen then Err(ChainFull)
    else
      match BlockVerify(H, c, b)
      case Ok(_) => Ok(extended)
      case Err(e) => Err(e)
  }

  /** What `add` answers, for every chain and block: an empty chain takes only a block that follows nothing, a full one
      none at all, and any other exactly a block that verifies against its last block and the window of its first. */
  lemma AddBlockOutcome(H: HashFn, c: Chain, b: Block)
    ensures
      var r := AddBlock(H, c, b);
      && (r.Ok? ==> r.value.blocks == c.blocks + [b] && r.value.limit == c.limit)
      && (c.blocks == [] ==> r.Ok? == (b.prevHash == ZERO_HASH))
      && (r == Err(EmptyChain) <==> c.blocks == [] && b.prevHash != ZERO_HASH)
      && (r == Err(ChainFull) <==> c.blocks != [] && |c.blocks| >= c.limit.maxLen)
      && (c.blocks != [] && |c.blocks| < c.limit.maxLen ==>
            var v := VerifyBlock(H, b, c.blocks[|c.blocks| - 1].hash, c.blocks[0].timestamp, c.limit.timeGap);
            r.Ok? == v.Ok? && (v.Err? ==> r == Err(BadBlock(v.error))))
  {
  }

  class BlockChain {
    const H: HashFn
    const limit: ChainLimit
    var blocks: seq<Block>

    function View(): Chain
      reads this
    {
      Chain(blocks, limit)
    }

    constructor (H: HashFn, kind: Kind, digestId: u32, limit: ChainLimit, now: u64)
      ensures this.H == H && View() == Chain([Genesis(H, kind, digestId, now)], limit)
    {
      this.H, this.limit := H, limit;
      var block := Genesis(H, kind, digestId, now);
      blocks := [block];
    }

    method Verify() returns (r: Result<(), ChainError>)
      ensures r.Ok? <==> Verified(H, View())
    {
      r := VerifyChain(H, View());
    }

    method Add(b: Block) returns (r: Result<(), ChainError>)
      modifies this
      ensures match AddBlock(H, old(View()), b)
              case Ok(extended) => r == Ok(()) && View() == extended
              case Err(e) => r == Err(e) && View() == old(View())
      ensures blocks == if r.Ok? then old(blocks) + [b] else old(blocks)
    {
      if |blocks| == 0 {
        if b.prevHash != ZERO_HASH {
          return Err(EmptyChain);
        }
        blocks := blocks + [b];
        return Ok(());
      }
      if |blocks| >= limit.maxLen {
        return Err(ChainFull);
      }
      r := BlockVerify(H, View(), b);
      if r.Ok? {
        blocks := blocks + [b];
      }
    }
  }

  /** The chain after offering the given blocks one by one, refused ones being skipped. */
  function Offer(H: HashFn, c: Chain, offered: seq<Block>): Chain
    decreases offered
  {
    if offered == [] then c
    else
      match AddBlock(H, c, offered[0])
      case Ok(extended) => Offer(H, extended, offered[1..])
      case Err(_) => Offer(H, c, offered[1..])
  }

  /** The same, but stopping at the first refusal. */
  function AddAll(H: HashFn, c: Chain, offered: seq<Block>): Result<Chain, ChainError>
    decreases offered
  {
    if offered == [] then Ok(c)
    else
      match AddBlock(H, c, offered[0])
      case Ok(extended) => AddAll(H, extended, offered[1..])
      case Err(e) => Err(e)
  }

  ghost predicate WellGrown(H: HashFn, c: Chain, genesis: Block) {
    && c.blocks != [] && c.blocks[0] == genesis
    && Linked(H, c.blocks, c.limit.timeGap)
    && (|c.blocks| == 1 || |c.blocks| <= c.limit.maxLen)
  }

  lemma LinkedTimestamps(H: HashFn, blocks: seq<Block>, gap: u64, k: nat)
    requires Linked(H, blocks, gap) && k < |blocks|
    ensures blocks[0].timestamp <= blocks[k].timestamp <= blocks[0].timestamp + gap
  {
    if k > 0 {
      assert LinkOk(H, blocks, gap, k);
      InWindowMeaning(blocks[k].timestamp, blocks[0].timestamp, gap);
    }
  }

  lemma AddBlockKeepsWellGrown(H: HashFn, c: Chain, genesis: Block, b: Block)
    requires WellGrown(H, c, genesis)
    ensures AddBlock(H, c, b).Ok? ==> WellGrown(H, AddBlock(H, c, b).value, genesis)
  {
    if AddBlock(H, c, b).Ok? {
      var blocks := c.blocks + [b];
      forall i | 1 <= i < |blocks|
        ensures LinkOk(H, blocks, c.limit.timeGap, i)
      {
        if i < |c.blocks| {
          assert LinkOk(H, c.blocks, c.limit.timeGap, i);
        }
      }
    }
  }

  /** Every chain reached from a new one by any offers of blocks, good or bad, passes `verify` as soon as it has two
      blocks, stays within its length limit and keeps all its timestamps in the window of its first block. */
  lemma {:induction false} GrownChainsVerify(H: HashFn, c: Chain, genesis: Block, offered: seq<Block>)
    requires WellGrown(H, c, genesis)
    ensures
      var grown := Offer(H, c, offered);
      && WellGrown(H, grown, genesis) && grown.limit == c.limit
      && (|grown.blocks| >= 2 ==> Verified(H, grown))
      && (forall b | b in grown.blocks :: genesis.timestamp <= b.timestamp <= genesis.timestamp + c.limit.timeGap)
    decreases offered
  {
    if offered != [] {
      AddBlockKeepsWellGrown(H, c, genesis, offered[0]);
      match AddBlock(H, c, offered[0])
      case Ok(extended) => GrownChainsVerify(H, extended, genesis, offered[1..]);
      case Err(_) => GrownChainsVerify(H, c, genesis, offered[1..]);
    } else {
      forall b | b in c.blocks
        ensures genesis.timestamp <= b.timestamp <= genesis.timestamp + c.limit.timeGap
      {
        var i :| 0 <= i < |c.blocks| && c.blocks[i] == b;
        LinkedTimestamps(H, c.blocks, c.limit.timeGap, i);
      }
    }
  }

  /** And only those: a non-empty list of blocks can be grown from its first block exactly when it is linked and
      within the length limit. */
  lemma AddAllIffLinked(H: HashFn, blocks: seq<Block>, limit: ChainLimit)
    requires blocks != []
    ensures AddAll(H, Chain([blocks[0]], limit), blocks[1..]).Ok?
            <==> Linked(H, blocks, limit.timeGap) && (|blocks| == 1 || |blocks| <= limit.maxLen)
    ensures AddAll(H, Chain([blocks[0]], limit), blocks[1..]).Ok?
            ==> AddAll(H, Chain([blocks[0]], limit), blocks[1..]).value == Chain(blocks, limit)
  {
    assert blocks[..1] == [blocks[0]];
    AddRestIffLinked(H, blocks, limit, 1);
  }

  lemma {:induction false} AddRestIffLinked(H: HashFn, blocks: seq<Block>, limit: ChainLimit, k: nat)
    requires 1 <= k <= |blocks|
    requires forall i | 1 <= i < k :: LinkOk(H, blocks, limit.timeGap, i)
    ensures
      var r := AddAll(H, Chain(blocks[..k], limit), blocks[k..]);
      && (r.Ok? <==> Linked(H, blocks, limit.timeGap) && (k == |blocks| || |blocks| <= limit.maxLen))
      && (r.Ok? ==> r.value == Chain(blocks, limit))
    decreases |blocks| - k
  {
    var c := Chain(blocks[..k], limit);
    if k == |blocks| {
      assert blocks[..k] == blocks;
    } else {
      assert blocks[k..][0] == blocks[k] && blocks[k..][1..] == blocks[k + 1..];
      assert blocks[..k] + [blocks[k]] == blocks[..k + 1];
      assert LinkOk(H, blocks, limit.timeGap, k) <==> BlockVerify(H, c, blocks[k]).Ok?;
      if AddBlock(H, c, blocks[k]).Ok? {
        AddRestIffLinked(H, blocks, limit, k + 1);
      }
    }
  }

  // ----- tamper evidence

  /** What was hashed into the verified blocks of a chain; its first block is not verified. */
  ghost function ChainInputs(blocks: seq<Block>): set<Bytes> {
    set i | 1 <= i < |blocks| :: Preimage(blocks[i])
  }

  /** Two linked chains that end in the same hash are the same from the end backwards: the shorter one is a suffix
      of the longer, except that its first block is fixed only in its hash field. */
  lemma LastHashFixesChain(H: HashFn, a: seq<Block>, gapA: u64, b: seq<Block>, gapB: u64)
    requires 1 <= |a| <= |b| && Linked(H, a, gapA) && Linked(H, b, gapB)
    requires a[|a| - 1].hash == b[|b| - 1].hash
    requires CollisionFree(H, ChainInputs(a) + ChainInputs(b))
    ensures a[1..] == b[|b| - |a| + 1..]
    ensures a[0].hash == b[|b| - |a|].hash
  {
    var inputs, tail := ChainInputs(a) + ChainInputs(b), b[|b| - |a|..];
    Unions(ChainInputs(a), ChainInputs(b));
    LinkedIsFixed(H, a, gapA, 0, a, inputs);
    LinkedIsFixed(H, b, gapB, |b| - |a|, tail, inputs);
    AgreeFrom(H, a, tail, inputs, 0);
  }

  lemma Unions(a: set<Bytes>, b: set<Bytes>)
    ensures a <= a + b && b <= a + b
  {
  }

  /** The case of equal lengths. */
  lemma LastHashFixesRest(H: HashFn, a: seq<Block>, gapA: u64, b: seq<Block>, gapB: u64)
    requires 1 <= |a| == |b| && Linked(H, a, gapA) && Linked(H, b, gapB)
    requires a[|a| - 1].hash == b[|b| - 1].hash
    requires CollisionFree(H, ChainInputs(a) + ChainInputs(b))
    ensures a[1..] == b[1..] && a[0].hash == b[0].hash
  {
    LastHashFixesChain(H, a, gapA, b, gapB);
  }

  /** Block `i` has its own hash, is linked, and is among what was hashed. */
  predicate Fixed(H: HashFn, blocks: seq<Block>, inputs: set<Bytes>, i: nat)
    requires 1 <= i < |blocks|
  {
    blocks[i].hash == HashBlock(H, blocks[i]) && blocks[i].prevHash == blocks[i - 1].hash && Preimage(blocks[i]) in inputs
  }

  lemma LinkedIsFixed(H: HashFn, blocks: seq<Block>, gap: u64, from: nat, suffix: seq<Block>, inputs: set<Bytes>)
    requires from < |blocks| && suffix == blocks[from..] && Linked(H, blocks, gap) && ChainInputs(blocks) <= inputs
    ensures forall i | 1 <= i < |suffix| :: Fixed(H, suffix, inputs, i)
  {
    forall i | 1 <= i < |suffix|
      ensures Fixed(H, suffix, inputs, i)
    {
      assert LinkOk(H, blocks, gap, from + i);
      assert Preimage(blocks[from + i]) in ChainInputs(blocks);
    }
  }

  lemma {:induction false} AgreeFrom(H: HashFn, a: seq<Block>, b: seq<Block>, inputs: set<Bytes>, from: nat)
    requires from < |a| == |b| && a[|a| - 1].hash == b[|b| - 1].hash && CollisionFree(H, inputs)
    requires forall i | 1 <= i < |a| :: Fixed(H, a, inputs, i)
    requires forall i | 1 <= i < |b| :: Fixed(H, b, inputs, i)
    ensures a[from].hash == b[from].hash && a[from + 1..] == b[from + 1..]
    decreases |a| - from
  {
    if from + 1 < |a| {
      AgreeFrom(H, a, b, inputs, from + 1);
      assert Fixed(H, a, inputs, from + 1) && Fixed(H, b, inputs, from + 1);
      FixedAgree(H, a, b, inputs, from + 1);
      assert a[from + 1..] == [a[from + 1]] + a[from + 2..] && b[from + 1..] == [b[from + 1]] + b[from + 2..];
    }
  }

  lemma FixedAgree(H: HashFn, a: seq<Block>, b: seq<Block>, inputs: set<Bytes>, i: nat)
    requires 1 <= i < |a| == |b| && Fixed(H, a, inputs, i) && Fixed(H, b, inputs, i)
    requires a[i].hash == b[i].hash && CollisionFree(H, inputs)
    ensures a[i] == b[i] && a[i - 1].hash == b[i - 1].hash
  {
    assert !Collide(H, Preimage(a[i]), Preimage(b[i]));
    PreimageInjective(a[i], b[i]);
  }

  /** The exception is real. Replacing the first block by any other goes unnoticed exactly when the other has the same
      hash field and all later timestamps lie in the window that it opens; nothing else in it is ever looked at. */
  lemma FirstBlockIsNotFixed(H: HashFn, c: Chain, other: Block)
    requires Verified(H, c)
    ensures Verified(H, c.(blocks := c.blocks[0 := other]))
            <==> other.hash == c.blocks[0].hash
                 && forall i | 1 <= i < |c.blocks| :: InWindow(c.blocks[i].timestamp, other.timestamp, c.limit.timeGap)
  {
    var blocks := c.blocks[0 := other];
    forall i | 1 <= i < |blocks|
      ensures LinkOk(H, blocks, c.limit.timeGap, i)
              <==> InWindow(c.blocks[i].timestamp, other.timestamp, c.limit.timeGap)
                   && (i == 1 ==> other.hash == c.blocks[0].hash)
    {
      assert LinkOk(H, c.blocks, c.limit.timeGap, i);
    }
    if Linked(H, blocks, c.limit.timeGap) {
      assert LinkOk(H, blocks, c.limit.timeGap, 1);
    }
  }

  // ----- finding blocks by their index field

  /** `Panics` stands for an `unwrap` of nothing. */
  datatype Lookup = Found(block: Block) | Absent | Panics

  function BlockRefByIndex(c: Chain, index: nat): Lookup {
    if c.blocks == [] then Panics
    else
      var minIndex, maxIndex := c.blocks[0].Index(), c.blocks[|c.blocks| - 1].Index();
      if minIndex <= index <= maxIndex then
        if index - minIndex < |c.blocks| then Found(c.blocks[index - minIndex]) else Panics
      else Absent
  }

  /** Blocks of one kind whose own index fields count up from `first`. */
  predicate CountsUp(blocks: seq<Block>, first: nat) {
    || (forall k | 0 <= k < |blocks| :: blocks[k].DataBlock? && blocks[k].localIndex == first + k)
    || (forall k | 0 <= k < |blocks| :: blocks[k].DigestBlock? && blocks[k].digestId == first + k)
    || (forall k | 0 <= k < |blocks| :: blocks[k].VoteBlock? && blocks[k].voteIndex == first + k)
  }

  /** The lookup in such a chain finds the block with the index, and nothing outside the chain. */
  lemma LookupByField(c: Chain, first: nat, index: nat)
    requires c.blocks != [] && CountsUp(c.blocks, first)
    ensures BlockRefByIndex(c, index)
            == if first <= index < first + |c.blocks| then Found(c.blocks[index - first]) else Absent
  {
    assert c.blocks[0].Index() == first && c.blocks[|c.blocks| - 1].Index() == first + |c.blocks| - 1;
  }

  /** In any other chain the lookup panics exactly when it has no blocks or counts past its end. */
  lemma LookupOutcome(c: Chain, index: nat)
    ensures
      var r := BlockRefByIndex(c, index);
      && (r.Panics? <==> c.blocks == [] || c.blocks[0].Index() + |c.blocks| <= index <= c.blocks[|c.blocks| - 1].Index())
      && (r.Absent? <==> c.blocks != [] && !(c.blocks[0].Index() <= index <= c.blocks[|c.blocks| - 1].Index()))
      && (r.Found? ==> c.blocks != [] && c.blocks[0].Index() <= index && r.block == c.blocks[index - c.blocks[0].Index()])
  {
  }

  /** The linear search of a chain segment; the result is a local index. */
  method ContainIndex(segment: seq<Block>, index: nat) returns (r: Option<nat>)
    ensures FirstWith(segment, index, r)
    ensures forall first: nat | CountsUp(segment, first) ::
              r == if first <= index < first + |segment| then Some(index - first) else None
  {
    for i := 0 to |segment|
      invariant forall k | 0 <= k < i :: segment[k].Index() != index
    {
      if segment[i].Index() == index {
        r := Some(i);
        SearchByField(segment, index, r);
        return;
      }
    }
    r := None;
    SearchByField(segment, index, r);
  }

  /** The first place with the index, or none exactly if there is none. */
  predicate FirstWith(segment: seq<Block>, index: nat, r: Option<nat>) {
    match r
    case None => forall k | 0 <= k < |segment| :: segment[k].Index() != index
    case Some(i) =>
      i < |segment| && segment[i].Index() == index && forall k | 0 <= k < i :: segment[k].Index() != index
  }

  lemma SearchByField(segment: seq<Block>, index: nat, r: Option<nat>)
    requires FirstWith(segment, index, r)
    ensures forall first: nat | CountsUp(segment, first) ::
              r == if first <= index < first + |segment| then Some(index - first) else None
  {
    forall first: nat | CountsUp(segment, first)
      ensures r == if first <= index < first + |segment| then Some(index - first) else None
    {
      assert forall k | 0 <= k < |segment| :: segment[k].Index() == first + k;
      if first <= index < first + |segment| {
        assert segment[index - first].Index() == index;
      }
    }
  }

  predicate Consecutive(blocks: seq<Block>) {
    forall k | 0 <= k < |blocks| :: blocks[k].Index() == blocks[0].Index() + k
  }

  /** The lookup by offset finds exactly what a search would find, and that is unambiguous. */
  predicate LookupIsSearch(c: Chain, index: nat) {
    match BlockRefByIndex(c, index)
    case Found(b) => b.Index() == index && forall other | other in c.blocks && other.Index() == index :: other == b
    case Absent => forall b | b in c.blocks :: b.Index() != index
    case Panics => false
  }

  predicate DistinctIndices(blocks: seq<Block>) {
    forall j, k | 0 <= j < k < |blocks| :: blocks[j].Index() != blocks[k].Index()
  }

  /** `verify` never looks at indices. The indices of a chain are distinct and every lookup is right exactly when they
      are consecutive. */
  lemma LookupRightIffConsecutive(c: Chain)
    requires c.blocks != []
    ensures Consecutive(c.blocks) <==> DistinctIndices(c.blocks) && forall index: nat :: LookupIsSearch(c, index)
  {
    var first, n := c.blocks[0].Index(), |c.blocks|;
    if DistinctIndices(c.blocks) && forall index: nat :: LookupIsSearch(c, index) {
      var last := c.blocks[n - 1].Index();
      assert LookupIsSearch(c, first) && LookupIsSearch(c, last);
      assert last == first + n - 1;
      forall k | 0 <= k < n
        ensures c.blocks[k].Index() == first + k
      {
        assert LookupIsSearch(c, first + k);
      }
    }
  }

  /** A chain that passes `verify` and answers a lookup with a block of another index: its second block repeats
      index 0, as the blocks built by the repository's own test helper do. */
  lemma VerifyIgnoresIndices(H: HashFn, now: u64) returns (c: Chain)
    ensures Verified(H, c) && BlockRefByIndex(c, 1).Found? && BlockRefByIndex(c, 1).block.Index() == 0
  {
    var genesis := Genesis(H, DataKind, 1, now);
    var first := Seal(H, DataBlock(ZERO_HASH, now, genesis.hash, ZERO_HASH, ZERO_UUID, 1, 0));
    var second := Seal(H, DataBlock(ZERO_HASH, now, first.hash, ZERO_HASH, ZERO_UUID, 1, 1));
    c := Chain([genesis, first, second], ChainLimit(3, 0));
    assert InWindow(now, now, 0);
    assert LinkOk(H, c.blocks, 0, 1) && LinkOk(H, c.blocks, 0, 2);
  }

  // ----- selecting a segment by index

  /** `Underflows` stands for `max_index - min_index` below zero, `OutOfBounds` for a segment past the last block. */
  datatype Selection = Segment(blocks: seq<Block>) | Refused(error: ChainError) | Underflows | OutOfBounds

  method SelectByIndex(H: HashFn, c: Chain, start: nat, end: nat) returns (r: Selection)
    ensures r.Refused? <==> !Verified(H, c) || start > end
    ensures r == Refused(BadRange) <==> Verified(H, c) && start > end
    ensures !r.Refused? ==> r == Cut(c.blocks, start, end)
    ensures !r.Refused? ==> forall first: nat | CountsUp(c.blocks, first) ::
              r == if first <= end && start < first + |c.blocks|
                   then Segment(c.blocks[(if first < start then start - first else 0)
                                         ..(if end < first + |c.blocks| then end - first + 1 else |c.blocks|)])
                   else Underflows
  {
    var v := VerifyChain(H, c);
    if v.Err? {
      return Refused(v.error);
    }
    if start > end {
      return Refused(BadRange);
    }
    r := Cut(c.blocks, start, end);
    forall first: nat | CountsUp(c.blocks, first)
      ensures c.blocks[0].Index() == first && c.blocks[|c.blocks| - 1].Index() == first + |c.blocks| - 1
    {
    }
  }

  /** The part common to the range and the index range of the blocks. */
  function Cut(blocks: seq<Block>, start: nat, end: nat): (r: Selection)
    requires blocks != []
    ensures !r.Refused?
  {
    var first, last := blocks[0].Index(), blocks[|blocks| - 1].Index();
    var minIndex := if first < start then start else first;
    var maxIndex := if last < end then last else end;
    if maxIndex < minIndex then Underflows
    else
      var offset, len := minIndex - first, maxIndex - minIndex + 1;
      if offset + len > |blocks| then OutOfBounds
      else Segment(blocks[offset..offset + len])
  }

  /** On any blocks: no common index makes the length underflow, and a common range longer than the blocks goes out of
      bounds. */
  lemma CutOutcome(blocks: seq<Block>, start: nat, end: nat)
    requires blocks != []
    ensures
      var r := Cut(blocks, start, end);
      var first, last := blocks[0].Index(), blocks[|blocks| - 1].Index();
      && (r.Underflows? <==> last < first || last < start || end < first || end < start)
      && (r.OutOfBounds? <==> !r.Underflows? && last >= first + |blocks| && end >= first + |blocks|)
  {
  }

  /** On blocks with consecutive indices a range yields a segment exactly when it overlaps them, never one out of
      bounds; the segment is a contiguous part holding precisely the blocks whose index lies in the range. */
  lemma CutIsExact(blocks: seq<Block>, start: nat, end: nat)
    requires blocks != [] && Consecutive(blocks) && start <= end
    ensures
      var r := Cut(blocks, start, end);
      && (r.Segment? <==> blocks[0].Index() <= end && start <= blocks[|blocks| - 1].Index())
      && !r.OutOfBounds?
      && (r.Segment? ==> exists lo, hi | 0 <= lo < hi <= |blocks| :: r.blocks == blocks[lo..hi])
      && (r.Segment? ==> forall b | b in blocks :: b in r.blocks <==> start <= b.Index() <= end)
  {
    var r := Cut(blocks, start, end);
    if r.Segment? {
      var first, last := blocks[0].Index(), blocks[|blocks| - 1].Index();
      var lo := (if first < start then start else first) - first;
      var hi := (if last < end then last else end) - first + 1;
      assert r.blocks == blocks[lo..hi];
      forall k | 0 <= k < |blocks|
        ensures blocks[k] in r.blocks <==> start <= blocks[k].Index() <= end
      {
        if lo <= k < hi {
          assert blocks[k] == r.blocks[k - lo];
        }
      }
    }
  }
}
