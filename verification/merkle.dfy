/** The Merkle root of a list of block hashes (src/hash.rs): levels are hashed pairwise from the bottom up,
    an odd last hash is hashed alone, and at least one round is always made. */
module Merkle {
  import opened Wrappers
  import opened ByteStrings

  datatype MerkleError = EmptyChain

  // ----- one level

  /** The bytes hashed into node `i` of the next level. */
  function NodeInput(level: seq<Hash>, i: nat): (input: Bytes)
    requires 2 * i < |level|
    ensures |input| == if 2 * i + 1 < |level| then 64 else 32
  {
    var left: Bytes := level[2 * i];
    if 2 * i + 1 < |level| then left + level[2 * i + 1] else left
  }

  function Neighbors(H: HashFn, level: seq<Hash>): (next: seq<Hash>)
    ensures |next| == (|level| + 1) / 2
  {
    seq<Hash>((|level| + 1) / 2, i requires 0 <= i < (|level| + 1) / 2 => H(NodeInput(level, i)))
  }

  method HashNeighbor(H: HashFn, hashVec: seq<Hash>) returns (next: seq<Hash>)
    ensures next == Neighbors(H, hashVec)
  {
    next := [];
    var i := 0;
    while i < |hashVec|
      invariant i == 2 * |next| && i <= |hashVec| + 1
      invariant next == Neighbors(H, hashVec)[..|next|]
    {
      var input: Bytes := hashVec[i];
      if i + 1 < |hashVec| {
        input := input + hashVec[i + 1];
      }
      assert input == NodeInput(hashVec, |next|);
      next := next + [H(input)];
      i := i + 2;
    }
  }

  // ----- the tree, top down

  function Pow2(n: nat): (p: nat)
    ensures p > 0
  {
    if n == 0 then 1 else 2 * Pow2(n - 1)
  }

  /** A node at height `h` splits its leaves after the first 2^(h-1) and hashes a lone child by itself. */
  function Tree(H: HashFn, h: nat, leaves: seq<Hash>): Hash
    requires 0 < |leaves| <= Pow2(h)
  {
    if h == 0 then leaves[0]
    else if |leaves| <= Pow2(h - 1) then H(Tree(H, h - 1, leaves))
    else H(Tree(H, h - 1, leaves[..Pow2(h - 1)]) + Tree(H, h - 1, leaves[Pow2(h - 1)..]))
  }

  /** The number of rounds for `n` leaves. */
  function Height(n: nat): (h: nat)
    requires n > 0
    ensures h >= 1
  {
    if n <= 2 then 1 else 1 + Height((n + 1) / 2)
  }

  /** `Height` is max(1, ceil(log2 n)): the least positive height whose full tree has room for `n` leaves. */
  lemma {:induction false} HeightIsLogarithm(n: nat, h: nat)
    requires n > 0
    ensures h == Height(n) <==> h >= 1 && n <= Pow2(h) && (h == 1 || n > Pow2(h - 1))
  {
    assert Pow2(1) == 2 * Pow2(0);
    if n <= 2 {
      if h >= 2 {
        Pow2Monotone(1, h - 1);
      }
    } else if h >= 2 {
      HeightIsLogarithm((n + 1) / 2, h - 1);
    }
  }

  lemma {:induction false} Pow2Monotone(a: nat, b: nat)
    requires a <= b
    ensures Pow2(a) <= Pow2(b)
    decreases b
  {
    if a < b {
      Pow2Monotone(a, b - 1);
    }
  }

  function Root(H: HashFn, leaves: seq<Hash>): Hash
    requires leaves != []
  {
    HeightIsLogarithm(|leaves|, Height(|leaves|));
    Tree(H, Height(|leaves|), leaves)
  }

  /** Hashing the leaves pairwise takes one level off the tree. */
  lemma {:induction false} TreeDropsLevel(H: HashFn, h: nat, leaves: seq<Hash>)
    requires h >= 1 && 0 < |leaves| <= Pow2(h)
    ensures |Neighbors(H, leaves)| <= Pow2(h - 1)
    ensures Tree(H, h, leaves) == Tree(H, h - 1, Neighbors(H, leaves))
    decreases h, 1
  {
    if h == 1 {
      LowestLevel(H, leaves);
    } else if |leaves| <= Pow2(h - 1) {
      TreeDropsLevel(H, h - 1, leaves);
    } else {
      HalvesDropLevel(H, h, leaves[..Pow2(h - 1)], leaves[Pow2(h - 1)..]);
      assert leaves == leaves[..Pow2(h - 1)] + leaves[Pow2(h - 1)..];
    }
  }

  lemma {:induction false} HalvesDropLevel(H: HashFn, h: nat, left: seq<Hash>, right: seq<Hash>)
    requires h >= 2 && |left| == Pow2(h - 1) && 0 < |right| <= Pow2(h - 1)
    ensures |Neighbors(H, left + right)| <= Pow2(h - 1)
    ensures Tree(H, h, left + right) == Tree(H, h - 1, Neighbors(H, left + right))
    decreases h, 0
  {
    TreeDropsLevel(H, h - 1, left);
    TreeDropsLevel(H, h - 1, right);
    NeighborsSplit(H, left, right, Pow2(h - 2));
    JoinedLevels(H, h, left, right, Neighbors(H, left), Neighbors(H, right));
  }

  lemma JoinedLevels(H: HashFn, h: nat, left: seq<Hash>, right: seq<Hash>, nextLeft: seq<Hash>, nextRight: seq<Hash>)
    requires h >= 2 && |left| == Pow2(h - 1) && 0 < |right| <= Pow2(h - 1)
    requires |nextLeft| == Pow2(h - 2) && 0 < |nextRight| <= Pow2(h - 2)
    requires Tree(H, h - 1, left) == Tree(H, h - 2, nextLeft) && Tree(H, h - 1, right) == Tree(H, h - 2, nextRight)
    ensures |nextLeft + nextRight| <= Pow2(h - 1)
    ensures Tree(H, h, left + right) == Tree(H, h - 1, nextLeft + nextRight)
  {
    JoinedTree(H, h, left, right);
    JoinedTree(H, h - 1, nextLeft, nextRight);
  }

  lemma LowestLevel(H: HashFn, leaves: seq<Hash>)
    requires 0 < |leaves| <= 2
    ensures Pow2(0) == 1 && Pow2(1) == 2 && |Neighbors(H, leaves)| == 1
    ensures Tree(H, 1, leaves) == Tree(H, 0, Neighbors(H, leaves))
  {
    assert Pow2(0) == 1 && Pow2(1) == 2;
    assert Tree(H, 0, Neighbors(H, leaves)) == H(NodeInput(leaves, 0));
    if |leaves| == 1 {
      assert Tree(H, 0, leaves) == NodeInput(leaves, 0);
    } else {
      assert Tree(H, 0, leaves[..1]) + Tree(H, 0, leaves[1..]) == NodeInput(leaves, 0);
    }
  }

  lemma JoinedTree(H: HashFn, h: nat, left: seq<Hash>, right: seq<Hash>)
    requires h >= 1 && |left| == Pow2(h - 1) && 0 < |right| <= Pow2(h - 1)
    ensures Tree(H, h, left + right) == H(Tree(H, h - 1, left) + Tree(H, h - 1, right))
  {
    var both := left + right;
    assert both[..Pow2(h - 1)] == left && both[Pow2(h - 1)..] == right;
  }

  lemma NeighborsSplit(H: HashFn, left: seq<Hash>, right: seq<Hash>, half: nat)
    requires |left| == 2 * half
    ensures Neighbors(H, left + right) == Neighbors(H, left) + Neighbors(H, right)
  {
    var leaves := left + right;
    forall i | 0 <= i < (|leaves| + 1) / 2
      ensures Neighbors(H, leaves)[i] == (Neighbors(H, left) + Neighbors(H, right))[i]
    {
      if i < half {
        assert NodeInput(leaves, i) == NodeInput(left, i);
      } else {
        assert NodeInput(leaves, i) == NodeInput(right, i - half);
      }
    }
  }

  lemma RootStep(H: HashFn, leaves: seq<Hash>)
    requires leaves != []
    ensures Root(H, leaves) == if |leaves| <= 2 then H(NodeInput(leaves, 0)) else Root(H, Neighbors(H, leaves))
  {
    HeightIsLogarithm(|leaves|, Height(|leaves|));
    TreeDropsLevel(H, Height(|leaves|), leaves);
  }

  /** The loop computes the root of the top-down tree, in exactly `Height` rounds. */
  method MerkleRoot(H: HashFn, hashes: seq<Hash>) returns (root: Result<Hash, MerkleError>, ghost rounds: nat)
    ensures root.Err? <==> hashes == []
    ensures root.Ok? ==> root.value == Root(H, hashes) && rounds == Height(|hashes|)
  {
    rounds := 0;
    var current := hashes;
    if current == [] {
      return Err(EmptyChain), 0;
    }
    while true
      invariant current != []
      invariant Root(H, current) == Root(H, hashes)
      invariant rounds + Height(|current|) == Height(|hashes|)
      decreases |current|
    {
      RootStep(H, current);
      current := HashNeighbor(H, current);
      rounds := rounds + 1;
      if |current| == 1 {
        break;
      }
    }
    root := Ok(current[0]);
  }

  // ----- the root and the number of leaves fix the leaves

  ghost function LevelInputs(level: seq<Hash>): set<Bytes> {
    set i | 0 <= i < (|level| + 1) / 2 :: NodeInput(level, i)
  }

  /** Everything hashed while computing the root. */
  ghost function TreeInputs(H: HashFn, leaves: seq<Hash>): set<Bytes>
    decreases |leaves|
  {
    LevelInputs(leaves) + if |leaves| <= 2 then {} else TreeInputs(H, Neighbors(H, leaves))
  }

  lemma NodeInputsEqual(a: seq<Hash>, b: seq<Hash>, i: nat)
    requires |a| == |b| && 2 * i < |a| && NodeInput(a, i) == NodeInput(b, i)
    ensures a[2 * i] == b[2 * i] && (2 * i + 1 < |a| ==> a[2 * i + 1] == b[2 * i + 1])
  {
    if 2 * i + 1 < |a| {
      SplitEqual(a[2 * i], a[2 * i + 1], b[2 * i], b[2 * i + 1]);
    }
  }

  /** Two levels of the same length whose nodes hash to the same values are the same level. */
  lemma LevelBinding(H: HashFn, a: seq<Hash>, b: seq<Hash>, count: nat)
    requires |a| == |b| && 2 * count <= |a| + 1
    requires CollisionFree(H, LevelInputs(a) + LevelInputs(b))
    requires forall i | 0 <= i < count :: H(NodeInput(a, i)) == H(NodeInput(b, i))
    ensures forall k | 0 <= k < |a| && k < 2 * count :: a[k] == b[k]
  {
    forall k | 0 <= k < |a| && k < 2 * count
      ensures a[k] == b[k]
    {
      var i := k / 2;
      assert NodeInput(a, i) in LevelInputs(a) && NodeInput(b, i) in LevelInputs(b);
      assert !Collide(H, NodeInput(a, i), NodeInput(b, i));
      NodeInputsEqual(a, b, i);
    }
  }

  lemma SameNode(H: HashFn, a: seq<Hash>, b: seq<Hash>, i: nat)
    requires 2 * i < |a| && 2 * i < |b| && H(NodeInput(a, i)) == H(NodeInput(b, i))
    requires CollisionFree(H, LevelInputs(a) + LevelInputs(b))
    ensures NodeInput(a, i) == NodeInput(b, i)
  {
    assert NodeInput(a, i) in LevelInputs(a) && NodeInput(b, i) in LevelInputs(b);
    assert !Collide(H, NodeInput(a, i), NodeInput(b, i));
  }

  /** Equal next levels come from equal levels; the last node tells whether it had one child or two. */
  lemma LevelsBinding(H: HashFn, a: seq<Hash>, b: seq<Hash>)
    requires a != [] && b != [] && Neighbors(H, a) == Neighbors(H, b)
    requires CollisionFree(H, LevelInputs(a) + LevelInputs(b))
    ensures a == b
  {
    var nodes := (|a| + 1) / 2;
    assert |Neighbors(H, a)| == nodes == |Neighbors(H, b)|;
    assert forall i | 0 <= i < nodes :: Neighbors(H, a)[i] == H(NodeInput(a, i)) && Neighbors(H, b)[i] == H(NodeInput(b, i));
    SameNode(H, a, b, nodes - 1);
    assert |a| == |b|;
    LevelBinding(H, a, b, nodes);
  }

  lemma NextInputs(H: HashFn, a: seq<Hash>, b: seq<Hash>)
    requires |a| > 2 && CollisionFree(H, TreeInputs(H, a) + TreeInputs(H, b))
    ensures CollisionFree(H, TreeInputs(H, Neighbors(H, a)) + TreeInputs(H, b))
  {
    assert TreeInputs(H, Neighbors(H, a)) <= TreeInputs(H, a);
  }

  /** Trees of the same height, and so in particular trees with equally many leaves. */
  lemma {:induction false} RootBinding(H: HashFn, a: seq<Hash>, b: seq<Hash>)
    requires a != [] && b != [] && Height(|a|) == Height(|b|) && Root(H, a) == Root(H, b)
    requires CollisionFree(H, TreeInputs(H, a) + TreeInputs(H, b))
    ensures a == b
    decreases |a|
  {
    RootStep(H, a);
    RootStep(H, b);
    var nextA, nextB := Neighbors(H, a), Neighbors(H, b);
    assert |a| <= 2 <==> |b| <= 2;
    if |a| > 2 {
      NextInputs(H, a, b);
      NextInputs(H, b, nextA);
      RootBinding(H, nextA, nextB);
    } else {
      assert nextA == [Root(H, a)] && nextB == [Root(H, b)];
    }
    LevelsBinding(H, a, b);
  }

  /** The level `k` rounds above the leaves. */
  function Level(H: HashFn, leaves: seq<Hash>, k: nat): seq<Hash>
    decreases k
  {
    if k == 0 then leaves else Level(H, Neighbors(H, leaves), k - 1)
  }

  lemma RootOneUp(H: HashFn, leaves: seq<Hash>)
    requires leaves != [] && Height(|leaves|) > 1
    ensures |leaves| > 2 && Height(|Neighbors(H, leaves)|) == Height(|leaves|) - 1
    ensures Root(H, Neighbors(H, leaves)) == Root(H, leaves)
  {
    RootStep(H, leaves);
  }

  /** Exactly which lists of leaves share a root: those that are levels of one and the same tree. */
  lemma {:induction false} RootsEqualIff(H: HashFn, a: seq<Hash>, b: seq<Hash>)
    requires a != [] && b != [] && Height(|a|) <= Height(|b|)
    requires CollisionFree(H, TreeInputs(H, a) + TreeInputs(H, b))
    ensures Root(H, a) == Root(H, b) <==> a == Level(H, b, Height(|b|) - Height(|a|))
    decreases |b|
  {
    if Height(|a|) == Height(|b|) {
      if Root(H, a) == Root(H, b) {
        RootBinding(H, a, b);
      }
    } else {
      RootOneUp(H, b);
      NextInputs(H, b, a);
      RootsEqualIff(H, a, Neighbors(H, b));
      assert Level(H, b, Height(|b|) - Height(|a|)) == Level(H, Neighbors(H, b), Height(|b|) - Height(|a|) - 1);
    }
  }

  /** The root alone does not fix the leaves, even without any collision: four leaves and the two nodes above
      them have the same root. This is why a digest block stores the length beside the root. */
  lemma RootNeedsLength(H: HashFn, leaves: seq<Hash>)
    requires |leaves| == 4
    ensures |Neighbors(H, leaves)| == 2 && Root(H, Neighbors(H, leaves)) == Root(H, leaves)
  {
    RootStep(H, leaves);
  }
}
