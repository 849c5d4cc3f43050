/** Byte strings, the fixed-width big-endian integers built from them, and concatenation of lists of
    byte strings. Widths are those of the Rust types: `u32` is four bytes, `u64` and `usize` eight. */
module ByteStrings {

  const TWO_32: nat := 0x1_0000_0000
  const TWO_64: nat := 0x1_0000_0000_0000_0000

  type byte = b: int | 0 <= b < 256
  type Bytes = seq<byte>
  type u32 = n: int | 0 <= n < TWO_32
  type u64 = n: int | 0 <= n < TWO_64

  /** A hash value, and equally the public key that names a node: 32 bytes. */
  type Hash = h: Bytes | |h| == 32 witness Zeros(32)
  type Uuid = u: Bytes | |u| == 16 witness Zeros(16)

  /** What a 32-bit sum, difference or cast leaves in a release build; nothing is lost if it fits. */
  function Wrap32(n: int): (r: u32)
    ensures 0 <= n < TWO_32 ==> r == n
  {
    n % 0x1_0000_0000
  }

  function Wrap64(n: int): (r: u64)
    ensures 0 <= n < TWO_64 ==> r == n
  {
    n % 0x1_0000_0000_0000_0000
  }

  /** Exactly whole turns are lost. */
  lemma WrapsAround(n: int)
    ensures (n - Wrap32(n)) % 0x1_0000_0000 == 0 && (n - Wrap64(n)) % 0x1_0000_0000_0000_0000 == 0
  {
  }

  /** SHA-256 is a parameter of everything that hashes. */
  type HashFn = Bytes -> Hash

  function Zeros(n: nat): (b: Bytes)
    ensures |b| == n
  {
    seq(n, _ => 0)
  }

  const ZERO_HASH: Hash := Zeros(32)
  const ZERO_UUID: Uuid := Zeros(16)

  predicate Collide(H: HashFn, x: Bytes, y: Bytes) {
    x != y && H(x) == H(y)
  }

  /** No two different members of `inputs` have the same image. Every binding theorem assumes this of the
      finitely many byte strings that were actually hashed, never of all byte strings. */
  ghost predicate CollisionFree(H: HashFn, inputs: set<Bytes>) {
    forall x, y {:trigger Collide(H, x, y)} | x in inputs && y in inputs :: !Collide(H, x, y)
  }

  // ----- big-endian integers

  function Pow256(width: nat): (p: nat)
    ensures p > 0
  {
    if width == 0 then 1 else 256 * Pow256(width - 1)
  }

  function BigEndian(n: nat, width: nat): (b: Bytes)
    ensures |b| == width
  {
    if width == 0 then [] else BigEndian(n / 256, width - 1) + [n % 256]
  }

  function FromBigEndian(b: Bytes): (n: nat)
  {
    if b == [] then 0 else 256 * FromBigEndian(b[..|b| - 1]) + b[|b| - 1]
  }

  lemma {:induction false} BigEndianRoundTrip(n: nat, width: nat)
    requires n < Pow256(width)
    ensures FromBigEndian(BigEndian(n, width)) == n
  {
    if width > 0 {
      BigEndianRoundTrip(n / 256, width - 1);
      var b := BigEndian(n, width);
      assert b[..width - 1] == BigEndian(n / 256, width - 1);
    }
  }

  lemma {:induction false} FromBigEndianRoundTrip(b: Bytes)
    ensures FromBigEndian(b) < Pow256(|b|)
    ensures BigEndian(FromBigEndian(b), |b|) == b
  {
    if b != [] {
      var front := b[..|b| - 1];
      FromBigEndianRoundTrip(front);
      assert FromBigEndian(b) / 256 == FromBigEndian(front);
      assert b == front + [b[|b| - 1]];
    }
  }

  const U32_SIZE: nat := 4
  const U64_SIZE: nat := 8

  function U32Bytes(n: u32): (b: Bytes)
    ensures |b| == 4
  {
    BigEndian(n, U32_SIZE)
  }

  function U64Bytes(n: u64): (b: Bytes)
    ensures |b| == 8
  {
    BigEndian(n, U64_SIZE)
  }

  function U32FromBytes(b: Bytes): (n: u32)
    requires |b| == 4
  {
    FromBigEndianRoundTrip(b);
    PowersOf256();
    FromBigEndian(b)
  }

  lemma PowersOf256()
    ensures Pow256(4) == TWO_32 && Pow256(8) == TWO_64
  {
    assert Pow256(4) == 256 * 256 * 256 * 256;
    assert Pow256(8) == 256 * 256 * 256 * 256 * Pow256(4);
  }

  /** The first byte is the most significant one. */
  lemma {:induction false} MostSignificantFirst(b: Bytes)
    requires b != []
    ensures FromBigEndian(b) == b[0] * Pow256(|b| - 1) + FromBigEndian(b[1..])
  {
    if |b| == 1 {
      assert b[..0] == [] && b[1..] == [];
    } else {
      MostSignificantFirst(b[..|b| - 1]);
      assert b[..|b| - 1][1..] == b[1..][..|b| - 2];
    }
  }

  lemma U32Decodes(n: u32)
    ensures FromBigEndian(U32Bytes(n)) == n
  {
    PowersOf256();
    BigEndianRoundTrip(n, U32_SIZE);
  }

  lemma U64Decodes(n: u64)
    ensures FromBigEndian(U64Bytes(n)) == n
  {
    PowersOf256();
    BigEndianRoundTrip(n, U64_SIZE);
  }

  lemma U32RoundTrip(n: u32)
    ensures U32FromBytes(U32Bytes(n)) == n
  {
    U32Decodes(n);
  }

  /** The other direction: four bytes are the encoding of exactly one `u32`. */
  lemma U32BytesRoundTrip(b: Bytes)
    requires |b| == 4
    ensures U32Bytes(U32FromBytes(b)) == b
  {
    FromBigEndianRoundTrip(b);
  }

  lemma U32BytesInjective(m: u32, n: u32)
    requires U32Bytes(m) == U32Bytes(n)
    ensures m == n
  {
    U32RoundTrip(m);
    U32RoundTrip(n);
  }

  lemma U64BytesInjective(m: u64, n: u64)
    requires U64Bytes(m) == U64Bytes(n)
    ensures m == n
  {
    U64Decodes(m);
    U64Decodes(n);
  }

  // ----- concatenation

  lemma CutAt<T>(a: seq<T>, b: seq<T>)
    ensures (a + b)[..|a|] == a && (a + b)[|a|..] == b
  {
  }

  lemma CutThree(a: Bytes, b: Bytes, c: Bytes, rest: Bytes)
    ensures
      var whole := a + (b + (c + rest));
      && whole[..|a|] == a && whole[|a|..|a| + |b|] == b && whole[|a| + |b|..|a| + |b| + |c|] == c
      && whole[|a| + |b| + |c|..] == rest
    ensures rest == [] ==> c + rest == c && (c == [] ==> b + (c + rest) == b)
  {
  }

  lemma CutBehind(s: Bytes, from: nat, a: Bytes, b: Bytes)
    requires from <= |s| && s[from..] == a + b
    ensures s[from..from + |a|] == a && s[from + |a|..] == b
  {
    assert s[from..from + |a|] == s[from..][..|a|] && s[from + |a|..] == s[from..][|a|..];
  }

  lemma CutLater<T>(s: seq<T>, from: nat, lo: nat, hi: nat)
    requires lo <= hi && from + hi <= |s|
    ensures s[from..][lo..hi] == s[from + lo..from + hi]
  {
  }

  /** Two concatenations with equally long heads agree part by part. */
  lemma SplitEqual<T>(a: seq<T>, b: seq<T>, c: seq<T>, d: seq<T>)
    requires |a| == |c| && a + b == c + d
    ensures a == c && b == d
  {
    CutAt(a, b);
    CutAt(c, d);
  }

  function Flatten<T>(parts: seq<seq<T>>): seq<T> {
    if parts == [] then [] else parts[0] + Flatten(parts[1..])
  }

  lemma {:induction false} FlattenAppend<T>(a: seq<seq<T>>, b: seq<seq<T>>)
    ensures Flatten(a + b) == Flatten(a) + Flatten(b)
  {
    if a == [] {
      assert a + b == b;
    } else {
      FlattenAppend(a[1..], b);
      assert (a + b)[1..] == a[1..] + b;
    }
  }

  lemma FlattenSnoc<T>(a: seq<seq<T>>, last: seq<T>)
    ensures Flatten(a + [last]) == Flatten(a) + last
  {
    FlattenAppend(a, [last]);
    assert Flatten([last]) == last + Flatten<T>([]);
  }
}
