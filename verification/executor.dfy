/** The objects behind the ledger: `Main` and `Sides` of src/chain.rs, the keeper that owns both (src/keeper.rs) and
    the executor whose `add_chain` updates first one and then the other (src/executor.rs). A chain handed to the
    executor is moved, so the sides hold chains as values. */
module Executors {
  import opened Wrappers
  import opened ByteStrings
  import opened Blocks
  import opened Merkle
  import opened Chains
  import opened Ledgers

  class MainChain {
    const data: BlockChain

    constructor (H: HashFn, digestId: u32, limit: ChainLimit, now: u64)
      ensures fresh(data) && data.H == H && data.View() == Chain([Genesis(H, DigestKind, digestId, now)], limit)
    {
      data := new BlockChain(H, DigestKind, digestId, limit, now);
    }

    method AddBlock(b: Block) returns (r: Result<(), ChainError>)
      modifies data
      ensures match ExtendMain(data.H, old(data.View()), b)
              case Ok(extended) => r == Ok(()) && data.View() == extended
              case Err(e) => r == Err(e) && data.View() == old(data.View())
    {
      r := BlockVerify(data.H, data.View(), b);
      if r.Err? {
        return;
      }
      r := data.Add(b);
    }
  }

  class Sides {
    var data: map<u32, Chain>

    constructor ()
      ensures data == map[]
    {
      data := map[];
    }

    method AddChain(H: HashFn, digestId: u32, c: Chain) returns (r: Result<(), ChainError>)
      modifies this
      ensures r.Ok? <==> Verified(H, c)
      ensures data == if r.Ok? then old(data)[digestId := c] else old(data)
    {
      r := VerifyChain(H, c);
      if r.Ok? {
        data := data[digestId := c];
      }
    }
  }

  class ChainKeeper {
    const main: MainChain
    const sides: Sides

    function View(): Ledger
      reads main.data, sides
    {
      Ledger(main.data.View(), sides.data)
    }

    constructor (H: HashFn, limit: ChainLimit, now: u64)
      ensures fresh(main.data) && fresh(sides) && main.data.H == H && View() == NewLedger(H, limit, now)
    {
      main := new MainChain(H, 1, limit, now);
      sides := new Sides();
    }

    predicate IsFull()
      reads main.data
    {
      |main.data.blocks| > main.data.limit.maxLen
    }

    function SideRef(digestId: u32): (r: Option<Chain>)
      reads sides
      ensures r.Some? <==> digestId in sides.data
      ensures r.Some? ==> r.value == sides.data[digestId]
    {
      if |sides.data| == 0 then None
      else if digestId in sides.data then Some(sides.data[digestId])
      else None
    }
  }

  class ChainExecutor {
    const H: HashFn
    const keeper: ChainKeeper
    const chainBuf: BlockChain

    ghost predicate Valid()
      reads keeper.main.data, keeper.sides
    {
      keeper.main.data.H == H && LedgerOk(H, keeper.View()) && chainBuf != keeper.main.data
    }

    /** The chain buffer collects data blocks for the digest block of index 1; nothing uses it yet. The clock is read once
        for each of the two genesis blocks. */
    constructor (H: HashFn, limit: ChainLimit, now: u64, later: u64)
      requires limit.maxLen < TWO_32
      ensures Valid() && this.H == H && keeper.View() == NewLedger(H, limit, now)
      ensures chainBuf.View() == Chain([Genesis(H, DataKind, 1, later)], limit)
      ensures fresh(keeper.main.data) && fresh(keeper.sides) && fresh(chainBuf)
    {
      this.H := H;
      keeper := new ChainKeeper(H, limit, now);
      chainBuf := new BlockChain(H, DataKind, 1, limit, later);
      NewLedgerOk(H, limit, now);
    }

    /** The digest block for a chain, from its Merkle root and length and the last main block. */
    method CreateDigest(c: Chain, now: u64) returns (digest: Option<Block>)
      requires keeper.main.data.blocks != []
      ensures digest == if c.blocks == [] then None else Some(NextDigest(H, keeper.main.data.View(), c, now))
      ensures digest.Some? ==>
                var last := keeper.main.data.blocks[|keeper.main.data.blocks| - 1];
                && digest.value.DigestBlock? && digest.value.timestamp == now && digest.value.prevHash == last.hash
                && digest.value.merkleRoot == Root(H, Hashes(c.blocks)) && digest.value.length == Wrap32(|c.blocks|)
                && digest.value.digestId == Wrap32(last.Index() + 1) && digest.value.hash == HashBlock(H, digest.value)
    {
      var blocks := keeper.main.data.blocks;
      var last := blocks[|blocks| - 1];
      var root, _ := MerkleRoot(H, Hashes(c.blocks));
      if root.Err? {
        return None;
      }
      var args := DigestBlock(ZERO_HASH, Wrap32(last.Index() + 1), now, last.hash, root.value, Wrap32(|c.blocks|));
      digest := Some(Seal(H, args));
    }

    /** `now` is the reading of the clock when the digest block is created. */
    method AddChain(c: Chain, now: u64) returns (r: Result<(), LedgerError>)
      requires Valid()
      modifies keeper.main.data, keeper.sides
      ensures (keeper.View(), r) == Ledgers.AddChain(H, old(keeper.View()), c, now)
      ensures Valid() && chainBuf.View() == old(chainBuf.View())
    {
      AddChainKeepsLedgerOk(H, keeper.View(), c, now);
      if keeper.IsFull() {
        return Err(KeeperFull);
      }
      var digest := CreateDigest(c, now);
      if digest.None? {
        return Err(NoLeaves);
      }
      var extended := keeper.main.AddBlock(digest.value);
      if extended.Err? {
        return Err(MainRefused(extended.error));
      }
      var added := keeper.sides.AddChain(H, digest.value.digestId, c);
      r := if added.Ok? then Ok(()) else Err(SideRefused);
    }

    /** Any number of calls, whatever their outcomes. */
    method AddChains(calls: seq<Call>)
      requires Valid()
      modifies keeper.main.data, keeper.sides
      ensures Valid() && keeper.View() == Run(H, old(keeper.View()), calls)
    {
      for i := 0 to |calls|
        invariant Valid()
        invariant Run(H, keeper.View(), calls[i..]) == Run(H, old(keeper.View()), calls)
      {
        assert calls[i..][0] == calls[i] && calls[i..][1..] == calls[i + 1..];
        var _ := AddChain(calls[i].chain, calls[i].now);
      }
    }
  }
}
