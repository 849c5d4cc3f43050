/** The ledger kept by an executor (src/executor.rs, src/keeper.rs): a main chain of digest blocks, and for each
    digest id at most one side chain, whose Merkle root and length the main block of that id holds. */
module Ledgers {
  import opened Wrappers
  import opened ByteStrings
  import opened Blocks
  import opened Merkle
  import opened Chains

  datatype Ledger = Ledger(main: Chain, sides: map<u32, Chain>)

  datatype LedgerError = KeeperFull | NoLeaves | MainRefused(error: ChainError) | SideRefused

  function Hashes(blocks: seq<Block>): (hashes: seq<Hash>)
    ensures |hashes| == |blocks|
    ensures forall i | 0 <= i < |blocks| :: hashes[i] == blocks[i].hash
  {
    seq<Hash>(|blocks|, i requires 0 <= i < |blocks| => blocks[i].hash)
  }

  // ----- one transaction

  function NewLedger(H: HashFn, limit: ChainLimit, now: u64): Ledger {
    Ledger(Chain([Genesis(H, DigestKind, 1, now)], limit), map[])
  }

  /** `Main::add_block`: the block is verified here and again by the chain itself. */
  function ExtendMain(H: HashFn, main: Chain, b: Block): Result<Chain, ChainError> {
    match BlockVerify(H, main, b)
    case Err(e) => Err(e)
    case Ok(_) => AddBlock(H, main, b)
  }

  function NextDigest(H: HashFn, main: Chain, c: Chain, now: u64): Block
    requires main.blocks != [] && c.blocks != []
  {
    var last := main.blocks[|main.blocks| - 1];
    Seal(H, DigestBlock(ZERO_HASH, Wrap32(last.Index() + 1), now, last.hash,
                        Root(H, Hashes(c.blocks)), Wrap32(|c.blocks|)))
  }

  /** `add_chain`. The main chain is extended before the side chain is verified. */
  function AddChain(H: HashFn, l: Ledger, c: Chain, now: u64): (Ledger, Result<(), LedgerError>)
    requires l.main.blocks != []
  {
    if |l.main.blocks| > l.main.limit.maxLen then (l, Err(KeeperFull))
    else if c.blocks == [] then (l, Err(NoLeaves))
    else
      var digest := NextDigest(H, l.main, c, now);
      match ExtendMain(H, l.main, digest)
      case Err(e) => (l, Err(MainRefused(e)))
      case Ok(main) =>
        if Verified(H, c) then (Ledger(main, l.sides[digest.digestId := c]), Ok(()))
        else (Ledger(main, l.sides), Err(SideRefused))
  }

  datatype Call = Call(chain: Chain, now: u64)

  /** A run: any sequence of calls, those that fail included. */
  function Run(H: HashFn, l: Ledger, calls: seq<Call>): (final: Ledger)
    requires l.main.blocks != []
    ensures final.main.blocks != []
    decreases calls
  {
    if calls == [] then l else
      Run(H, AddChain(H, l, calls[0].chain, calls[0].now).0, calls[1..])
  }

  // ----- the invariant of every run

  predicate Digests(H: HashFn, b: Block, c: Chain) {
    && b.DigestBlock? && c.blocks != []
    && b.merkleRoot == Root(H, Hashes(c.blocks)) && b.length == Wrap32(|c.blocks|)
  }

  predicate MainBlockOk(H: HashFn, blocks: seq<Block>, i: nat)
    requires i < |blocks|
  {
    blocks[i].DigestBlock? && blocks[i].digestId == i + 1 && blocks[i].hash == HashBlock(H, blocks[i])
  }

  ghost predicate MainOk(H: HashFn, main: Chain) {
    && main.limit.maxLen < TWO_32
    && main.blocks != [] && (|main.blocks| == 1 || |main.blocks| <= main.limit.maxLen)
    && (forall i | 0 <= i < |main.blocks| :: MainBlockOk(H, main.blocks, i))
    && Linked(H, main.blocks, main.limit.timeGap)
  }

  ghost predicate SideOk(H: HashFn, l: Ledger, id: u32)
    requires id in l.sides
  {
    2 <= id <= |l.main.blocks| && Verified(H, l.sides[id]) && Digests(H, l.main.blocks[id - 1], l.sides[id])
  }

  ghost predicate LedgerOk(H: HashFn, l: Ledger) {
    MainOk(H, l.main) && forall id | id in l.sides :: SideOk(H, l, id)
  }

  /** Exactly when the main chain is extended, and exactly when the call succeeds. */
  lemma AddChainOutcome(H: HashFn, l: Ledger, c: Chain, now: u64)
    requires LedgerOk(H, l)
    ensures
      var (l', r) := AddChain(H, l, c, now);
      var fits := |l.main.blocks| < l.main.limit.maxLen && InWindow(now, l.main.blocks[0].timestamp, l.main.limit.timeGap);
      && (l'.main != l.main <==> fits && c.blocks != [])
      && (l'.main != l.main ==> l'.main == l.main.(blocks := l.main.blocks + [NextDigest(H, l.main, c, now)]))
      && (r.Ok? <==> fits && Verified(H, c))
      && (r == Err(KeeperFull) <==> l.main.limit.maxLen == 0)
      && (r == Err(NoLeaves) <==> l.main.limit.maxLen > 0 && c.blocks == [])
      && (r == Err(SideRefused) <==> fits && c.blocks != [] && !Verified(H, c))
      && (r == Err(MainRefused(BadBlock(WrongTime))) <==>
            l.main.limit.maxLen > 0 && c.blocks != [] && !InWindow(now, l.main.blocks[0].timestamp, l.main.limit.timeGap))
      && (r == Err(MainRefused(ChainFull)) <==>
            && l.main.limit.maxLen == |l.main.blocks| && c.blocks != []
            && InWindow(now, l.main.blocks[0].timestamp, l.main.limit.timeGap))
  {
    if c.blocks != [] {
      var digest := NextDigest(H, l.main, c, now);
      var blocks := l.main.blocks;
      assert |blocks + [digest]| != |blocks|;
      assert BlockVerify(H, l.main, digest).Ok? <==> InWindow(now, blocks[0].timestamp, l.main.limit.timeGap);
    }
  }

  /** The first call on a new ledger, by the two readings of the clock. */
  lemma FirstCallOutcome(H: HashFn, limit: ChainLimit, start: u64, c: Chain, now: u64)
    requires limit.maxLen < TWO_32
    ensures AddChain(H, NewLedger(H, limit, start), c, now).1.Ok?
            <==> limit.maxLen > 1 && start <= now <= start + limit.timeGap < TWO_64 && Verified(H, c)
  {
    NewLedgerOk(H, limit, start);
    AddChainOutcome(H, NewLedger(H, limit, start), c, now);
    InWindowMeaning(now, start, limit.timeGap);
  }

  lemma ExtendedMainOk(H: HashFn, main: Chain, b: Block)
    requires MainOk(H, main) && ExtendMain(H, main, b).Ok?
    requires b.DigestBlock? && b.digestId == |main.blocks| + 1 && b.hash == HashBlock(H, b)
    ensures MainOk(H, ExtendMain(H, main, b).value)
  {
    AddBlockKeepsWellGrown(H, main, main.blocks[0], b);
    var blocks := main.blocks + [b];
    forall i | 0 <= i < |blocks|
      ensures MainBlockOk(H, blocks, i)
    {
      assert i < |main.blocks| ==> MainBlockOk(H, main.blocks, i);
    }
  }

  lemma MainStaysOk(H: HashFn, main: Chain, c: Chain, now: u64)
    requires MainOk(H, main) && c.blocks != []
    ensures
      var r := ExtendMain(H, main, NextDigest(H, main, c, now));
      r.Ok? ==> MainOk(H, r.value)
  {
    var digest := NextDigest(H, main, c, now);
    if ExtendMain(H, main, digest).Ok? {
      NextDigestId(H, main, c, now);
      ExtendedMainOk(H, main, digest);
    }
  }

  /** Success adds exactly one side chain, under the fresh id of the new main block; failure leaves the sides as they
      were. Either way every earlier main block and side chain stays, and the invariant holds. */
  lemma AddChainKeepsLedgerOk(H: HashFn, l: Ledger, c: Chain, now: u64)
    requires LedgerOk(H, l)
    ensures
      var (l', r) := AddChain(H, l, c, now);
      var id := |l.main.blocks| + 1;
      && LedgerOk(H, l') && l'.main.limit == l.main.limit
      && l.main.blocks <= l'.main.blocks
      && (r.Ok? ==> id < TWO_32 && id !in l.sides && l'.sides == l.sides[id := c] && |l'.main.blocks| == id)
      && (r.Err? ==> l'.sides == l.sides)
  {
    AddChainEffect(H, l, c, now);
    if c.blocks != [] {
      MainStaysOk(H, l.main, c, now);
    }
    SidesStayOk(H, l, c, now);
  }

  lemma OldSideStaysOk(H: HashFn, l: Ledger, id: u32, l': Ledger)
    requires id in l.sides && SideOk(H, l, id)
    requires l.main.blocks <= l'.main.blocks && id in l'.sides && l'.sides[id] == l.sides[id]
    ensures SideOk(H, l', id)
  {
  }

  lemma NewSideIsOk(H: HashFn, l: Ledger, c: Chain, now: u64, l': Ledger)
    requires MainOk(H, l.main) && Verified(H, c) && |l.main.blocks| + 1 < TWO_32
    requires l'.main.blocks == l.main.blocks + [NextDigest(H, l.main, c, now)]
    requires var id := |l.main.blocks| + 1; id in l'.sides && l'.sides[id] == c
    ensures SideOk(H, l', |l.main.blocks| + 1)
  {
  }

  lemma LastIndex(H: HashFn, main: Chain)
    requires MainOk(H, main)
    ensures main.blocks[|main.blocks| - 1].Index() == |main.blocks|
  {
    assert MainBlockOk(H, main.blocks, |main.blocks| - 1);
  }

  lemma NextDigestId(H: HashFn, main: Chain, c: Chain, now: u64)
    requires MainOk(H, main) && c.blocks != [] && |main.blocks| < main.limit.maxLen
    ensures NextDigest(H, main, c, now).digestId == |main.blocks| + 1 < TWO_32
  {
    LastIndex(H, main);
  }

  lemma AddChainEffect(H: HashFn, l: Ledger, c: Chain, now: u64)
    requires LedgerOk(H, l)
    ensures
      var (l', r) := AddChain(H, l, c, now);
      var id := |l.main.blocks| + 1;
      && (r.Ok? ==> id < TWO_32 && l'.sides == l.sides[id := c] && |l'.main.blocks| == id && Verified(H, c)
                    && l'.main.blocks == l.main.blocks + [NextDigest(H, l.main, c, now)])
      && (r.Err? ==> l'.sides == l.sides)
      && l.main.blocks <= l'.main.blocks && l'.main.limit == l.main.limit
  {
    AddChainOutcome(H, l, c, now);
    if AddChain(H, l, c, now).1.Ok? {
      NextDigestId(H, l.main, c, now);
    }
  }

  lemma SidesStayOk(H: HashFn, l: Ledger, c: Chain, now: u64)
    requires LedgerOk(H, l)
    ensures
      var (l', r) := AddChain(H, l, c, now);
      && (r.Ok? ==> |l.main.blocks| + 1 !in l.sides)
      && forall id | id in l'.sides :: SideOk(H, l', id)
  {
    AddChainEffect(H, l, c, now);
    var (l', r) := AddChain(H, l, c, now);
    if r.Ok? {
      NewSideIsOk(H, l, c, now, l');
    }
    forall id | id in l'.sides
      ensures SideOk(H, l', id)
    {
      if id in l.sides {
        assert SideOk(H, l, id);
        OldSideStaysOk(H, l, id, l');
      }
    }
  }

  /** The ledger invariant over all runs, failed calls included; and history is append-only. */
  lemma {:induction false} RunKeepsLedgerOk(H: HashFn, l: Ledger, calls: seq<Call>)
    requires LedgerOk(H, l)
    ensures
      var final := Run(H, l, calls);
      && LedgerOk(H, final)
      && l.main.blocks <= final.main.blocks
      && forall id | id in l.sides :: id in final.sides && final.sides[id] == l.sides[id]
    decreases calls
  {
    if calls != [] {
      AddChainKeepsLedgerOk(H, l, calls[0].chain, calls[0].now);
      RunKeepsLedgerOk(H, AddChain(H, l, calls[0].chain, calls[0].now).0, calls[1..]);
    }
  }

  /** A call that leaves a main block without a side chain: one that a caller could have refused by verifying first. */
  predicate LeavesOrphan(H: HashFn, l: Ledger, call: Call)
    requires l.main.blocks != []
  {
    && |l.main.blocks| < l.main.limit.maxLen
    && InWindow(call.now, l.main.blocks[0].timestamp, l.main.limit.timeGap)
    && call.chain.blocks != [] && !Verified(H, call.chain)
  }

  predicate NoCallLeavesOrphan(H: HashFn, l: Ledger, calls: seq<Call>)
    requires l.main.blocks != []
    decreases calls
  {
    calls == [] ||
    (!LeavesOrphan(H, l, calls[0]) && NoCallLeavesOrphan(H, AddChain(H, l, calls[0].chain, calls[0].now).0, calls[1..]))
  }

  /** Every main block after the first has its side chain. */
  predicate Complete(l: Ledger) {
    forall id: u32 | 2 <= id <= |l.main.blocks| :: id in l.sides
  }

  lemma OrphanStays(H: HashFn, l: Ledger, call: Call, id: u32)
    requires LedgerOk(H, l) && 2 <= id <= |l.main.blocks| && id !in l.sides
    ensures var l' := AddChain(H, l, call.chain, call.now).0; id <= |l'.main.blocks| && id !in l'.sides
  {
    AddChainKeepsLedgerOk(H, l, call.chain, call.now);
  }

  lemma {:induction false} OrphanStaysForever(H: HashFn, l: Ledger, calls: seq<Call>, id: u32)
    requires LedgerOk(H, l) && 2 <= id <= |l.main.blocks| && id !in l.sides
    ensures !Complete(Run(H, l, calls))
    decreases calls
  {
    if calls != [] {
      OrphanStays(H, l, calls[0], id);
      AddChainKeepsLedgerOk(H, l, calls[0].chain, calls[0].now);
      OrphanStaysForever(H, AddChain(H, l, calls[0].chain, calls[0].now).0, calls[1..], id);
    }
  }

  lemma CompleteStep(H: HashFn, l: Ledger, call: Call)
    requires LedgerOk(H, l) && Complete(l)
    ensures
      var l' := AddChain(H, l, call.chain, call.now).0;
      var id := |l.main.blocks| + 1;
      && (!LeavesOrphan(H, l, call) ==> Complete(l'))
      && (LeavesOrphan(H, l, call) ==> id < TWO_32 && id == |l'.main.blocks| && id !in l'.sides)
  {
    AddChainOutcome(H, l, call.chain, call.now);
    AddChainEffect(H, l, call.chain, call.now);
    assert forall id | id in l.sides :: SideOk(H, l, id) && id <= |l.main.blocks|;
  }

  /** The main chain is extended before the side chain is verified. So a run that starts with a side chain for every main
      block ends with one for every main block exactly when no call brings a chain that `verify` rejects while the main
      chain has room and time for its digest. */
  lemma {:induction false} RunStaysCompleteIff(H: HashFn, l: Ledger, calls: seq<Call>)
    requires LedgerOk(H, l) && Complete(l)
    ensures Complete(Run(H, l, calls)) <==> NoCallLeavesOrphan(H, l, calls)
    decreases calls
  {
    if calls != [] {
      var l' := AddChain(H, l, calls[0].chain, calls[0].now).0;
      CompleteStep(H, l, calls[0]);
      AddChainKeepsLedgerOk(H, l, calls[0].chain, calls[0].now);
      if LeavesOrphan(H, l, calls[0]) {
        OrphanStaysForever(H, l', calls[1..], |l.main.blocks| + 1);
      } else {
        RunStaysCompleteIff(H, l', calls[1..]);
      }
    }
  }

  lemma NewLedgerOk(H: HashFn, limit: ChainLimit, now: u64)
    requires limit.maxLen < TWO_32
    ensures LedgerOk(H, NewLedger(H, limit, now))
  {
  }

  // ----- end-to-end tamper evidence

  /** Everything that was hashed for the ledger: its main blocks, the trees over its side chains, and their verified
      blocks. */
  ghost function LedgerInputs(H: HashFn, l: Ledger): set<Bytes> {
    MainInputs(l.main) + (set id, x | id in l.sides && x in SideInputs(H, l.sides[id]) :: x)
  }

  ghost function MainInputs(main: Chain): set<Bytes> {
    set i | 0 <= i < |main.blocks| :: Preimage(main.blocks[i])
  }

  ghost function SideInputs(H: HashFn, c: Chain): set<Bytes> {
    TreeInputs(H, Hashes(c.blocks)) + ChainInputs(c.blocks)
  }

  lemma SideInputsIncluded(H: HashFn, l: Ledger, id: u32)
    requires id in l.sides
    ensures SideInputs(H, l.sides[id]) <= LedgerInputs(H, l)
  {
  }

  /** The digest id tells the position of a main block. */
  lemma BlocksWithSameHash(H: HashFn, a: Chain, i: nat, b: Chain, j: nat)
    requires MainOk(H, a) && MainOk(H, b) && i < |a.blocks| && j < |b.blocks|
    requires CollisionFree(H, MainInputs(a) + MainInputs(b))
    requires a.blocks[i].hash == b.blocks[j].hash
    ensures i == j && a.blocks[i] == b.blocks[j]
  {
    assert MainBlockOk(H, a.blocks, i) && MainBlockOk(H, b.blocks, j);
    assert Preimage(a.blocks[i]) in MainInputs(a) && Preimage(b.blocks[j]) in MainInputs(b);
    HashFixesBlock(H, a.blocks[i], b.blocks[j]);
  }

  lemma VerifiedInputs(main: Chain)
    ensures ChainInputs(main.blocks) <= MainInputs(main)
  {
  }

  lemma MainTailBinding(H: HashFn, a: Chain, b: Chain)
    requires |a.blocks| == |b.blocks| > 0 && Linked(H, a.blocks, a.limit.timeGap) && Linked(H, b.blocks, b.limit.timeGap)
    requires CollisionFree(H, MainInputs(a) + MainInputs(b))
    requires a.blocks[|a.blocks| - 1].hash == b.blocks[|b.blocks| - 1].hash
    ensures a.blocks[1..] == b.blocks[1..] && a.blocks[0].hash == b.blocks[0].hash
  {
    VerifiedInputs(a);
    VerifiedInputs(b);
    FewerInputs(H, MainInputs(a) + MainInputs(b), ChainInputs(a.blocks) + ChainInputs(b.blocks));
    LastHashFixesRest(H, a.blocks, a.limit.timeGap, b.blocks, b.limit.timeGap);
  }

  lemma MainBinding(H: HashFn, a: Chain, b: Chain)
    requires MainOk(H, a) && MainOk(H, b)
    requires CollisionFree(H, MainInputs(a) + MainInputs(b))
    requires a.blocks[|a.blocks| - 1].hash == b.blocks[|b.blocks| - 1].hash
    ensures a.blocks == b.blocks
  {
    BlocksWithSameHash(H, a, |a.blocks| - 1, b, |b.blocks| - 1);
    MainTailBinding(H, a, b);
    BlocksWithSameHash(H, a, 0, b, 0);
    assert a.blocks == [a.blocks[0]] + a.blocks[1..] && b.blocks == [b.blocks[0]] + b.blocks[1..];
  }

  lemma FewerInputs(H: HashFn, all: set<Bytes>, some: set<Bytes>)
    requires CollisionFree(H, all) && some <= all
    ensures CollisionFree(H, some)
  {
  }

  lemma SameDigest(H: HashFn, digest: Block, a: Chain, b: Chain)
    requires Digests(H, digest, a) && Digests(H, digest, b)
    requires |a.blocks| < TWO_32 && |b.blocks| < TWO_32
    ensures |a.blocks| == |b.blocks| && Root(H, Hashes(a.blocks)) == Root(H, Hashes(b.blocks))
  {
    assert digest.length == Wrap32(|a.blocks|) == |a.blocks|;
    assert digest.length == Wrap32(|b.blocks|) == |b.blocks|;
  }

  lemma SideHashesBinding(H: HashFn, digest: Block, a: Chain, b: Chain)
    requires Digests(H, digest, a) && Digests(H, digest, b)
    requires |a.blocks| < TWO_32 && |b.blocks| < TWO_32
    requires CollisionFree(H, TreeInputs(H, Hashes(a.blocks)) + TreeInputs(H, Hashes(b.blocks)))
    ensures |a.blocks| == |b.blocks| && Hashes(a.blocks) == Hashes(b.blocks)
  {
    SameDigest(H, digest, a, b);
    RootBinding(H, Hashes(a.blocks), Hashes(b.blocks));
  }

  lemma SideBlocksBinding(H: HashFn, a: Chain, b: Chain)
    requires Verified(H, a) && Verified(H, b) && Hashes(a.blocks) == Hashes(b.blocks)
    requires CollisionFree(H, ChainInputs(a.blocks) + ChainInputs(b.blocks))
    ensures a.blocks[1..] == b.blocks[1..]
  {
    var n := |a.blocks|;
    assert |Hashes(b.blocks)| == n;
    assert a.blocks[n - 1].hash == Hashes(a.blocks)[n - 1] == b.blocks[n - 1].hash;
    LastHashFixesRest(H, a.blocks, a.limit.timeGap, b.blocks, b.limit.timeGap);
  }

  /** Two side chains under the same digest block. */
  lemma SideBinding(H: HashFn, digest: Block, a: Chain, b: Chain)
    requires Digests(H, digest, a) && Digests(H, digest, b) && Verified(H, a) && Verified(H, b)
    requires |a.blocks| < TWO_32 && |b.blocks| < TWO_32
    requires CollisionFree(H, SideInputs(H, a) + SideInputs(H, b))
    ensures Hashes(a.blocks) == Hashes(b.blocks) && a.blocks[1..] == b.blocks[1..]
  {
    var all := SideInputs(H, a) + SideInputs(H, b);
    FewerInputs(H, all, TreeInputs(H, Hashes(a.blocks)) + TreeInputs(H, Hashes(b.blocks)));
    FewerInputs(H, all, ChainInputs(a.blocks) + ChainInputs(b.blocks));
    SideHashesBinding(H, digest, a, b);
    SideBlocksBinding(H, a, b);
  }

  /** A digest block stores the length of a side chain in 32 bits. */
  predicate SidesCountable(l: Ledger) {
    forall id | id in l.sides :: |l.sides[id].blocks| < TWO_32
  }

  /** What some run from some new ledger leads to. */
  ghost predicate Reachable(H: HashFn, l: Ledger) {
    exists limit: ChainLimit, start: u64, calls: seq<Call> ::
      limit.maxLen < TWO_32 && l == Run(H, NewLedger(H, limit, start), calls)
  }

  lemma ReachableIsOk(H: HashFn, l: Ledger)
    requires Reachable(H, l)
    ensures LedgerOk(H, l)
  {
    var limit: ChainLimit, start: u64, calls: seq<Call> :|
      limit.maxLen < TWO_32 && l == Run(H, NewLedger(H, limit, start), calls);
    NewLedgerOk(H, limit, start);
    RunKeepsLedgerOk(H, NewLedger(H, limit, start), calls);
  }

  ghost predicate SameSide(a: Ledger, b: Ledger, id: u32)
    requires id in a.sides && id in b.sides && a.sides[id].blocks != [] && b.sides[id].blocks != []
  {
    && Hashes(a.sides[id].blocks) == Hashes(b.sides[id].blocks)
    && a.sides[id].blocks[1..] == b.sides[id].blocks[1..]
  }

  lemma StoredSidesAgree(H: HashFn, a: Ledger, b: Ledger, id: u32)
    requires LedgerOk(H, a) && LedgerOk(H, b) && SidesCountable(a) && SidesCountable(b)
    requires a.main.blocks == b.main.blocks && id in a.sides && id in b.sides
    requires CollisionFree(H, LedgerInputs(H, a) + LedgerInputs(H, b))
    ensures SideOk(H, a, id) && SideOk(H, b, id) && SameSide(a, b, id)
  {
    assert SideOk(H, a, id) && SideOk(H, b, id);
    SideInputsIncluded(H, a, id);
    SideInputsIncluded(H, b, id);
    FewerInputs(H, LedgerInputs(H, a) + LedgerInputs(H, b), SideInputs(H, a.sides[id]) + SideInputs(H, b.sides[id]));
    SideBinding(H, a.main.blocks[id - 1], a.sides[id], b.sides[id]);
  }

  lemma OkLedgersAgree(H: HashFn, a: Ledger, b: Ledger)
    requires LedgerOk(H, a) && LedgerOk(H, b) && SidesCountable(a) && SidesCountable(b)
    requires a.main.blocks == b.main.blocks && CollisionFree(H, LedgerInputs(H, a) + LedgerInputs(H, b))
    ensures forall id | id in a.sides && id in b.sides ::
              a.sides[id].blocks != [] && b.sides[id].blocks != [] && SameSide(a, b, id)
  {
    forall id | id in a.sides && id in b.sides
      ensures a.sides[id].blocks != [] && b.sides[id].blocks != [] && SameSide(a, b, id)
    {
      StoredSidesAgree(H, a, b, id);
    }
  }

  lemma LedgerMainsAgree(H: HashFn, a: Ledger, b: Ledger)
    requires MainOk(H, a.main) && MainOk(H, b.main) && CollisionFree(H, LedgerInputs(H, a) + LedgerInputs(H, b))
    requires a.main.blocks[|a.main.blocks| - 1].hash == b.main.blocks[|b.main.blocks| - 1].hash
    ensures a.main.blocks == b.main.blocks
  {
    FewerInputs(H, LedgerInputs(H, a) + LedgerInputs(H, b), MainInputs(a.main) + MainInputs(b.main));
    MainBinding(H, a.main, b.main);
  }

  /** End-to-end binding. Two ledgers reached by any runs from any starts and ending in the same last main hash have
      the same main chain, and under every digest id they both store the same block hashes and, from the second block
      on, the same blocks; provided the bytes hashed for the two of them do not collide. */
  lemma LastHashFixesLedger(H: HashFn, a: Ledger, b: Ledger)
    requires Reachable(H, a) && Reachable(H, b)
    requires a.main.blocks != [] && b.main.blocks != []
    requires a.main.blocks[|a.main.blocks| - 1].hash == b.main.blocks[|b.main.blocks| - 1].hash
    requires SidesCountable(a) && SidesCountable(b)
    requires CollisionFree(H, LedgerInputs(H, a) + LedgerInputs(H, b))
    ensures a.main.blocks == b.main.blocks
    ensures forall id | id in a.sides && id in b.sides ::
              a.sides[id].blocks != [] && b.sides[id].blocks != [] && SameSide(a, b, id)
  {
    ReachableIsOk(H, a);
    ReachableIsOk(H, b);
    LedgerMainsAgree(H, a, b);
    OkLedgersAgree(H, a, b);
  }
}
