/** A bundle file of chains with a summary of the time interval they cover (src/db.rs). The file is a byte sequence. */
module Bundles {
  import opened Wrappers
  import opened ByteStrings
  import opened Blocks
  import opened Chains
  import opened Framing
  import opened Serializers

  // ----- the summary

  datatype Description = Description(counter: u32, origin: u64, timeGap: u64)

  const EMPTY: Description := Description(0, 0, 0)

  function MaxOf(a: nat, b: nat): nat {
    if a < b then b else a
  }

  /** 64-bit sums and differences wrap around, as in a release build. A chain without blocks leaves the summary alone. */
  function UpdateDescription(d: Description, c: Chain): Description {
    if c.blocks == [] then d
    else
      var origin := c.blocks[0].timestamp;
      if d.counter == 0 then Description(1, origin, c.limit.timeGap)
      else
        var timeMax := MaxOf(Wrap64(d.origin + d.timeGap), Wrap64(origin + c.limit.timeGap));
        var origin' := if d.origin < origin then d.origin else origin;
        Description(Wrap32(d.counter + 1), origin', Wrap64(timeMax - origin'))
  }

  function Describe(chains: seq<Chain>): Description {
    if chains == [] then EMPTY
    else UpdateDescription(Describe(chains[..|chains| - 1]), chains[|chains| - 1])
  }

  /** A chain that has a window, one that ends before the clock overflows. */
  predicate HasWindow(c: Chain) {
    c.blocks != [] && c.blocks[0].timestamp + c.limit.timeGap < TWO_64
  }

  function Start(c: Chain): nat
    requires HasWindow(c)
  {
    c.blocks[0].timestamp
  }

  function End(c: Chain): nat
    requires HasWindow(c)
  {
    c.blocks[0].timestamp + c.limit.timeGap
  }

  predicate Windowed(chains: seq<Chain>) {
    forall i | 0 <= i < |chains| :: HasWindow(chains[i])
  }

  ghost predicate Covers(chains: seq<Chain>, lo: nat, hi: nat)
    requires Windowed(chains)
  {
    forall i | 0 <= i < |chains| :: lo <= Start(chains[i]) && End(chains[i]) <= hi
  }

  /** The interval contains every window, and each of its ends is the end of some window. */
  ghost predicate TightestInterval(chains: seq<Chain>, lo: nat, hi: nat)
    requires Windowed(chains)
  {
    && Covers(chains, lo, hi)
    && (exists i | 0 <= i < |chains| :: lo == Start(chains[i]))
    && (exists i | 0 <= i < |chains| :: hi == End(chains[i]))
  }

  lemma TightestOfOneMore(front: seq<Chain>, last: Chain, lo: nat, hi: nat)
    requires Windowed(front) && HasWindow(last) && TightestInterval(front, lo, hi)
    ensures
      var lo', hi' := if lo < Start(last) then lo else Start(last), MaxOf(hi, End(last));
      Windowed(front + [last]) && TightestInterval(front + [last], lo', hi')
  {
    var all := front + [last];
    var lo', hi' := if lo < Start(last) then lo else Start(last), MaxOf(hi, End(last));
    var i :| 0 <= i < |front| && lo == Start(front[i]);
    var j :| 0 <= j < |front| && hi == End(front[j]);
    assert all[|front|] == last && all[i] == front[i] && all[j] == front[j];
    assert lo' == Start(all[i]) || lo' == Start(all[|front|]);
    assert hi' == End(all[j]) || hi' == End(all[|front|]);
  }

  lemma TightestOfOne(c: Chain)
    requires HasWindow(c)
    ensures TightestInterval([c], Start(c), End(c))
  {
    assert [c][0] == c;
  }

  lemma TightestIsUnique(a: seq<Chain>, loA: nat, hiA: nat, b: seq<Chain>, loB: nat, hiB: nat)
    requires Windowed(a) && Windowed(b) && TightestInterval(a, loA, hiA) && Covers(b, loB, hiB)
    requires multiset(a) == multiset(b)
    ensures loB <= loA && hiA <= hiB
  {
    SameMembers(a, b);
  }

  lemma UpdateIsTight(d: Description, c: Chain)
    requires HasWindow(c) && 0 < d.counter < TWO_32 - 1 && d.origin + d.timeGap < TWO_64
    ensures
      var d' := UpdateDescription(d, c);
      && d'.counter == d.counter + 1
      && d'.origin == (if d.origin < Start(c) then d.origin else Start(c))
      && d'.origin + d'.timeGap == MaxOf(d.origin + d.timeGap, End(c)) < TWO_64
  {
    var timeMax := MaxOf(d.origin + d.timeGap, End(c));
    var origin := if d.origin < Start(c) then d.origin else Start(c);
    assert 0 <= timeMax - origin < TWO_64;
  }

  /** With windows that overflow the clock as well: an update is exact if no end overflows, or if both do and the later end
      wraps around to before the new origin; and in no other case. The counter starts over after 2^32 - 1. */
  lemma UpdateIsTightIff(d: Description, c: Chain)
    requires c.blocks != [] && d.counter > 0
    ensures
      var d' := UpdateDescription(d, c);
      var origin := if d.origin < c.blocks[0].timestamp then d.origin else c.blocks[0].timestamp;
      var end, end' := d.origin + d.timeGap, c.blocks[0].timestamp + c.limit.timeGap;
      && d'.origin == origin && d'.counter == (if d.counter == 0xffff_ffff then 0 else d.counter + 1)
      && (d'.origin + d'.timeGap == MaxOf(end, end') <==>
            || (end < TWO_64 && end' < TWO_64)
            || (end >= TWO_64 && end' >= TWO_64 && MaxOf(end, end') - TWO_64 < origin))
  {
    var start := c.blocks[0].timestamp;
    var origin := if d.origin < start then d.origin else start;
    var end, end' := d.origin + d.timeGap, start + c.limit.timeGap;
    var wrapped, wrapped' := UpdateWraps(d, c);
    WrappedEnd(origin, end, end', wrapped, wrapped', UpdateDescription(d, c).timeGap);
    CounterWraps(d.counter);
  }

  lemma UpdateWraps(d: Description, c: Chain) returns (wrapped: u64, wrapped': u64)
    requires c.blocks != [] && d.counter > 0
    ensures
      var d' := UpdateDescription(d, c);
      var end, end' := d.origin + d.timeGap, c.blocks[0].timestamp + c.limit.timeGap;
      && wrapped == (if end < TWO_64 then end else end - TWO_64) && wrapped' == (if end' < TWO_64 then end' else end' - TWO_64)
      && d'.timeGap == var g := MaxOf(wrapped, wrapped') - d'.origin; if g < 0 then g + TWO_64 else g
  {
    var start := c.blocks[0].timestamp;
    wrapped, wrapped' := Wrap64(d.origin + d.timeGap), Wrap64(start + c.limit.timeGap);
    WrapOnce(d.origin + d.timeGap);
    WrapOnce(start + c.limit.timeGap);
    WrapOnce(MaxOf(wrapped, wrapped') - if d.origin < start then d.origin else start);
  }

  lemma CounterWraps(counter: u32)
    ensures Wrap32(counter + 1) == if counter == 0xffff_ffff then 0 else counter + 1
  {
  }

  /** Wrapped ends are those of the clock, less one turn if they overflow. */
  lemma WrappedEnd(origin: u64, end: nat, end': nat, wrapped: u64, wrapped': u64, gap: u64)
    requires origin <= end < origin + 2 * TWO_64 && origin <= end'
    requires wrapped == (if end < TWO_64 then end else end - TWO_64) && wrapped' == (if end' < TWO_64 then end' else end' - TWO_64)
    requires gap == (var g := MaxOf(wrapped, wrapped') - origin; if g < 0 then g + TWO_64 else g)
    ensures origin + gap == MaxOf(end, end') <==>
              || (end < TWO_64 && end' < TWO_64)
              || (end >= TWO_64 && end' >= TWO_64 && MaxOf(end, end') - TWO_64 < origin)
  {
  }

  lemma WrapOnce(n: int)
    requires 0 < n + TWO_64 < 3 * TWO_64
    ensures Wrap64(n) == if n < 0 then n + TWO_64 else if n < TWO_64 then n else n - TWO_64
  {
  }

  /** After any updates with chains that have windows the counter is their number and the interval is the tightest one
      that contains all the windows. */
  lemma {:induction false} DescriptionIsTightest(chains: seq<Chain>)
    requires Windowed(chains) && 0 < |chains| < TWO_32
    ensures
      var d := Describe(chains);
      && d.counter == |chains| && d.origin + d.timeGap < TWO_64
      && TightestInterval(chains, d.origin, d.origin + d.timeGap)
  {
    var n := |chains| - 1;
    var front, last := chains[..n], chains[n];
    assert HasWindow(last);
    assert chains == front + [last];
    if n == 0 {
      assert Describe(front) == EMPTY;
      TightestOfOne(last);
      assert chains == [last];
    } else {
      DescriptionIsTightest(front);
      var before := Describe(front);
      UpdateIsTight(before, last);
      TightestOfOneMore(front, last, before.origin, before.origin + before.timeGap);
    }
  }

  /** A chain without blocks is not counted and moves nothing, wherever it comes. */
  lemma {:induction false} EmptyChainIsNotDescribed(before: seq<Chain>, c: Chain, after: seq<Chain>)
    requires c.blocks == []
    ensures Describe(before + [c] + after) == Describe(before + after)
    decreases |after|
  {
    if after == [] {
      assert (before + [c])[..|before|] == before && before + [] == before;
      assert before + [c] + after == before + [c];
    } else {
      var front, last := after[..|after| - 1], after[|after| - 1];
      EmptyChainIsNotDescribed(before, c, front);
      assert before + [c] + after == (before + [c] + front) + [last] && before + after == (before + front) + [last];
      DescribeOneMore(before + [c] + front, last);
      DescribeOneMore(before + front, last);
    }
  }

  lemma DescribeOneMore(chains: seq<Chain>, last: Chain)
    ensures Describe(chains + [last]) == UpdateDescription(Describe(chains), last)
  {
    assert (chains + [last])[..|chains|] == chains;
  }

  /** The order of the chains does not matter. */
  lemma DescriptionIgnoresOrder(a: seq<Chain>, b: seq<Chain>)
    requires Windowed(a) && Windowed(b) && 0 < |a| < TWO_32
    requires multiset(a) == multiset(b)
    ensures Describe(a) == Describe(b)
  {
    assert |multiset(a)| == |a| && |multiset(b)| == |b|;
    DescriptionIsTightest(a);
    DescriptionIsTightest(b);
    var da, db := Describe(a), Describe(b);
    TightestIsUnique(a, da.origin, da.origin + da.timeGap, b, db.origin, db.origin + db.timeGap);
    TightestIsUnique(b, db.origin, db.origin + db.timeGap, a, da.origin, da.origin + da.timeGap);
  }

  lemma SameMembers<T>(a: seq<T>, b: seq<T>)
    requires multiset(a) == multiset(b)
    ensures forall i | 0 <= i < |a| :: exists j | 0 <= j < |b| :: b[j] == a[i]
  {
    forall i | 0 <= i < |a|
      ensures exists j | 0 <= j < |b| :: b[j] == a[i]
    {
      assert a[i] in multiset(a);
      assert a[i] in multiset(b);
    }
  }

  lemma VerifiedTimestamps(H: HashFn, c: Chain, b: Block)
    requires HasWindow(c) && Verified(H, c) && b in c.blocks
    ensures Start(c) <= b.timestamp <= End(c)
  {
    var k :| 0 <= k < |c.blocks| && c.blocks[k] == b;
    LinkedTimestamps(H, c.blocks, c.limit.timeGap, k);
  }

  /** So the summary's interval contains every timestamp of every verified chain in the bundle. */
  lemma IntervalContainsTimestamps(H: HashFn, chains: seq<Chain>, i: nat, b: Block)
    requires Windowed(chains) && i < |chains| < TWO_32 && Verified(H, chains[i]) && b in chains[i].blocks
    ensures
      var d := Describe(chains);
      d.origin <= b.timestamp <= d.origin + d.timeGap
  {
    DescriptionIsTightest(chains);
    VerifiedTimestamps(H, chains[i], b);
    assert Start(chains[i]) <= b.timestamp <= End(chains[i]);
  }

  // ----- saving and loading

  datatype BundleState = BundleState(file: Bytes, description: Description)

  /** A chain is written if it can be encoded and its frame fits the serializer's buffer of `room` bytes. */
  predicate Storable(c: Codec<Chain>, room: nat, chain: Chain) {
    c.enc(chain).Some? && 4 + |c.enc(chain).value| <= room
  }

  function Save(c: Codec<Chain>, room: nat, b: BundleState, chain: Chain): BundleState {
    if Storable(c, room, chain) then
      BundleState(b.file + Frame(c.enc(chain).value), UpdateDescription(b.description, chain))
    else b
  }

  /** Saves one after the other, some of which may fail. */
  function SaveAll(c: Codec<Chain>, room: nat, b: BundleState, chains: seq<Chain>): BundleState
    decreases chains
  {
    if chains == [] then b else SaveAll(c, room, Save(c, room, b, chains[0]), chains[1..])
  }

  function Stored(c: Codec<Chain>, room: nat, chains: seq<Chain>): seq<Chain> {
    if chains == [] then []
    else (if Storable(c, room, chains[0]) then [chains[0]] else []) + Stored(c, room, chains[1..])
  }

  lemma SaveParses(c: Codec<Chain>, room: nat, b: BundleState, chain: Chain, saved: seq<Chain>)
    requires Lawful(c) && room <= TWO_32 && Parse(c, b.file) == Records(saved)
    ensures
      var b' := Save(c, room, b, chain);
      Parse(c, b'.file) == Records(if Storable(c, room, chain) then saved + [chain] else saved)
  {
    if Storable(c, room, chain) {
      var e := c.enc(chain).value;
      ParseFrame(c, e, []);
      assert Frame(e) + [] == Frame(e);
      ParseAppend(c, b.file, Frame(e));
    }
  }

  lemma Associative<T>(a: seq<T>, b: seq<T>, c: seq<T>)
    ensures a + b + c == a + (b + c)
  {
  }

  /** A bundle holds exactly the chains that were stored, in order, whatever was in it before and whichever saves
      failed. */
  lemma {:induction false} SavedChainsParse(c: Codec<Chain>, room: nat, b: BundleState, chains: seq<Chain>, saved: seq<Chain>)
    requires Lawful(c) && room <= TWO_32 && Parse(c, b.file) == Records(saved)
    ensures Parse(c, SaveAll(c, room, b, chains).file) == Records(saved + Stored(c, room, chains))
    decreases chains
  {
    if chains == [] {
      assert saved + [] == saved;
    } else {
      var stored := if Storable(c, room, chains[0]) then [chains[0]] else [];
      SaveParses(c, room, b, chains[0], saved);
      assert saved + [] == saved;
      SavedChainsParse(c, room, Save(c, room, b, chains[0]), chains[1..], saved + stored);
      Associative(saved, stored, Stored(c, room, chains[1..]));
    }
  }

  /** And its summary is that of exactly the chains it holds, if it was so before. */
  lemma {:induction false} SavedChainsDescribed(c: Codec<Chain>, room: nat, b: BundleState, chains: seq<Chain>, saved: seq<Chain>)
    requires b.description == Describe(saved)
    ensures SaveAll(c, room, b, chains).description == Describe(saved + Stored(c, room, chains))
    decreases chains
  {
    if chains == [] {
      assert saved + [] == saved;
    } else {
      var stored := if Storable(c, room, chains[0]) then [chains[0]] else [];
      assert (saved + [chains[0]])[..|saved|] == saved;
      assert saved + [] == saved;
      SavedChainsDescribed(c, room, Save(c, room, b, chains[0]), chains[1..], saved + stored);
      Associative(saved, stored, Stored(c, room, chains[1..]));
    }
  }

  lemma NewBundleParses(c: Codec<Chain>, room: nat, d: Description, chains: seq<Chain>)
    requires Lawful(c) && room <= TWO_32
    ensures Parse(c, SaveAll(c, room, BundleState([], d), chains).file) == Records(Stored(c, room, chains))
  {
    SavedChainsParse(c, room, BundleState([], d), chains, []);
    assert [] + Stored(c, room, chains) == Stored(c, room, chains);
  }

  /** Loading them back through a serializer's buffer. The bytes of the file arrive exactly when every read survives the
      buffer, and then the chains stored in an empty bundle come out in order. */
  lemma SavedChainsLoad(c: Codec<Chain>, room: nat, d: Description, chains: seq<Chain>, buffer: Bytes, chunks: seq<Bytes>)
    requires Lawful(c) && room <= TWO_32
    requires Flatten(chunks) == SaveAll(c, room, BundleState([], d), chains).file
    ensures ReadBack(buffer, chunks) == Some(Flatten(chunks)) <==> AllSurvive(buffer, chunks)
    ensures AllSurvive(buffer, chunks) ==>
              var r := ReadBack(buffer, chunks);
              r.Some? && Parse(c, r.value) == Records(Stored(c, room, chains))
  {
    NewBundleParses(c, room, d, chains);
    ReadBackIsStreamIff(buffer, chunks);
  }

  /** Bytes behind a list of records spoil it, whatever they are. */
  lemma LongerNeverParsesTheSame<T>(c: Codec<T>, front: Bytes, rest: Bytes)
    requires Parse(c, front).Records?
    ensures Parse(c, front + rest) == Parse(c, front) <==> rest == []
  {
    ParseAppend(c, front, rest);
    if rest == [] {
      assert front + rest == front;
    } else if Parse(c, rest).Records? {
      var values := Parse(c, front).values;
      assert |values + Parse(c, rest).values| > |values|;
    }
  }

  class Bundle {
    const serializer: Serializer<Chain>
    var counter: u32
    var origin: u64
    var timeGap: u64
    var file: Bytes

    function View(): BundleState
      reads this
    {
      BundleState(file, Description(counter, origin, timeGap))
    }

    constructor (codec: Codec<Chain>, file: Bytes)
      ensures fresh(serializer) && serializer.codec == codec && serializer.buffer == Zeros(131072)
      ensures View() == BundleState(file, EMPTY)
    {
      serializer := new Serializer(codec, None);
      counter, origin, timeGap := 0, 0, 0;
      this.file := file;
    }

    method UpdateDescriptionWithChain(c: Chain)
      modifies this`counter, this`origin, this`timeGap
      ensures View().description == UpdateDescription(old(View().description), c)
    {
      if c.blocks != [] {
        var start := c.blocks[0].timestamp;
        if counter == 0 {
          counter, origin, timeGap := 1, start, c.limit.timeGap;
        } else {
          var timeMax := MaxOf(Wrap64(origin + timeGap), Wrap64(start + c.limit.timeGap));
          origin := if origin < start then origin else start;
          timeGap := Wrap64(timeMax - origin);
          counter := Wrap32(counter + 1);
        }
      }
    }

    /** Appends the chain and hands it back; a chain that cannot be stored is lost and changes nothing. */
    method SaveToFile(c: Chain) returns (r: Result<Chain, SerializeError>)
      requires |serializer.buffer| >= 4
      modifies this, serializer
      ensures |serializer.buffer| == old(|serializer.buffer|)
      ensures View() == Save(serializer.codec, |serializer.buffer|, old(View()), c)
      ensures r == if Storable(serializer.codec, |serializer.buffer|, c) then Ok(c)
                   else Err(if serializer.codec.enc(c).None? then EncodingRefused else BufferTooSmall)
      ensures serializer.data == None
    {
      serializer.SetData(c);
      var saved;
      file, saved := serializer.SaveIntoAsyncWrite(file);
      if saved.Err? {
        return Err(saved.error);
      }
      var back := serializer.TakeData();
      if back.None? {
        return Err(NoData);
      }
      UpdateDescriptionWithChain(back.value);
      r := Ok(back.value);
    }

    /** Writes all the chains over the start of the file. What an older, longer file holds behind them stays. */
    method SaveChains(chains: seq<Chain>) returns (r: VecOutcome)
      modifies this`file, serializer`buffer
      ensures r == Pack(serializer.codec, old(|serializer.buffer|), 0, chains)
      ensures !r.Done? ==> file == old(file) && exists i :: FailsAt(serializer.codec, old(|serializer.buffer|), 0, chains, i, r)
      ensures r.Done? ==>
                var kept := if r.size <= |old(file)| then old(file)[r.size..] else [];
                AllEncode(serializer.codec, chains) && file == Frames(Payloads(serializer.codec, chains)) + kept
      ensures r.Done? && Lawful(serializer.codec) && Encodable(serializer.codec, chains)
              ==> (Parse(serializer.codec, file) == Records(chains) <==> |old(file)| <= r.size)
    {
      r := serializer.EncodeVecInto(chains);
      if r.Done? {
        var bytes := serializer.buffer[..r.size];
        var kept := if r.size <= |file| then file[r.size..] else [];
        if Lawful(serializer.codec) && Encodable(serializer.codec, chains) {
          LongerNeverParsesTheSame(serializer.codec, bytes, kept);
        }
        file := bytes + kept;
      }
    }

    /** `chunks` are what the reads of the file return. */
    method LoadChains(chunks: seq<Bytes>) returns (r: Parsed<Chain>)
      requires Flatten(chunks) == file
      requires AreReads(chunks)
      modifies serializer`buffer
      ensures r == match ReadBack(old(serializer.buffer), chunks)
                   case None => Parsed.Panics
                   case Some(bytes) => Parse(serializer.codec, bytes)
      ensures ReadBack(old(serializer.buffer), chunks) == Some(file) <==> AllSurvive(old(serializer.buffer), chunks)
      ensures AllSurvive(old(serializer.buffer), chunks) ==> r == Parse(serializer.codec, file)
    {
      r := serializer.DecodeFromAsyncRead(chunks);
    }
  }
}
