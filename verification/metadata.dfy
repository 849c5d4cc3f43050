/** The log of file descriptions and the index that is built from it on the first search (src/db.rs). */
module MetaLogs {
  import opened Wrappers
  import opened ByteStrings
  import opened Framing

  datatype MetaData = MetaData(name: string, uuid: Uuid)

  datatype MetaError = EndOfFile | Undecodable | TooLong

  /** One record is assembled in a buffer of twice the longest file name, 128 bytes. */
  const META_BUFFER_SIZE: nat := 256

  // ----- what a log holds

  /** The records of a log up to the first place where reading fails. */
  function Scan(c: Codec<MetaData>, log: Bytes): seq<MetaData>
    decreases |log|
  {
    if |log| < 4 then []
    else
      var size := U32FromBytes(log[..4]);
      if 4 + size > |log| then []
      else
        match c.dec(log[4..4 + size])
        case None => []
        case Some(meta) => [meta] + Scan(c, log[4 + size..])
  }

  function LastWith(records: seq<MetaData>, uuid: Uuid): Option<MetaData> {
    if records == [] then None
    else if records[|records| - 1].uuid == uuid then Some(records[|records| - 1])
    else LastWith(records[..|records| - 1], uuid)
  }

  function IndexOf(records: seq<MetaData>): map<Uuid, MetaData> {
    if records == [] then map[]
    else
      var last := records[|records| - 1];
      IndexOf(records[..|records| - 1])[last.uuid := last]
  }

  function Lookup<K, V>(m: map<K, V>, k: K): Option<V> {
    if k in m then Some(m[k]) else None
  }

  /** Looking a uuid up in the index gives the last record that has it. */
  lemma {:induction false} IndexHoldsLast(records: seq<MetaData>, uuid: Uuid)
    ensures Lookup(IndexOf(records), uuid) == LastWith(records, uuid)
  {
    if records != [] {
      IndexHoldsLast(records[..|records| - 1], uuid);
    }
  }

  lemma {:induction false} LastPlace(records: seq<MetaData>, uuid: Uuid) returns (i: nat)
    requires LastWith(records, uuid).Some?
    ensures i < |records| && records[i] == LastWith(records, uuid).value && records[i].uuid == uuid
    ensures forall k | i < k < |records| :: records[k].uuid != uuid
  {
    i := |records| - 1;
    if records[i].uuid != uuid {
      i := LastPlace(records[..i], uuid);
    }
  }

  lemma {:induction false} NoPlace(records: seq<MetaData>, uuid: Uuid)
    requires LastWith(records, uuid).None?
    ensures forall m | m in records :: m.uuid != uuid
  {
    if records != [] {
      NoPlace(records[..|records| - 1], uuid);
    }
  }

  lemma LastWithMeaning(records: seq<MetaData>, uuid: Uuid)
    ensures match LastWith(records, uuid)
            case None => forall m | m in records :: m.uuid != uuid
            case Some(found) =>
              exists i | 0 <= i < |records| ::
                records[i] == found && found.uuid == uuid && forall k | i < k < |records| :: records[k].uuid != uuid
  {
    match LastWith(records, uuid)
    case None => NoPlace(records, uuid);
    case Some(_) => var i := LastPlace(records, uuid);
  }

  lemma {:induction false} ScanOfWellFramed(c: Codec<MetaData>, log: Bytes)
    ensures Parse(c, log).Records? ==> Scan(c, log) == Parse(c, log).values
    decreases |log|
  {
    if log != [] && Parse(c, log).Records? {
      ScanOfWellFramed(c, log[4 + U32FromBytes(log[..4])..]);
    }
  }

  /** Where a log stops being readable, after a torn or an undecodable record, only the records before count. */
  lemma {:induction false} ScanStopsAtFirstError(c: Codec<MetaData>, front: Bytes, payload: Bytes, k: nat, rest: Bytes)
    requires Parse(c, front).Records? && |payload| < TWO_32 && k < 4 + |payload|
    ensures Scan(c, front + Frame(payload)[..k]) == Parse(c, front).values
    ensures c.dec(payload).None? ==> Scan(c, front + (Frame(payload) + rest)) == Parse(c, front).values
    decreases |front|
  {
    if front == [] {
      TornOrUndecodable(c, payload, k, rest);
      assert front + Frame(payload)[..k] == Frame(payload)[..k];
      assert front + (Frame(payload) + rest) == Frame(payload) + rest;
    } else {
      var size := U32FromBytes(front[..4]);
      var later := front[4 + size..];
      ScanStopsAtFirstError(c, later, payload, k, rest);
      ScanOne(c, front, Frame(payload)[..k]);
      ScanOne(c, front, Frame(payload) + rest);
    }
  }

  lemma ScanOne(c: Codec<MetaData>, front: Bytes, rest: Bytes)
    requires front != [] && Parse(c, front).Records?
    ensures
      var size := U32FromBytes(front[..4]);
      Scan(c, front + rest) == [c.dec(front[4..4 + size]).value] + Scan(c, front[4 + size..] + rest)
  {
    var size := U32FromBytes(front[..4]);
    var log := front + rest;
    assert log[..4] == front[..4] && log[4..4 + size] == front[4..4 + size] && log[4 + size..] == front[4 + size..] + rest;
  }

  lemma TornOrUndecodable(c: Codec<MetaData>, payload: Bytes, k: nat, rest: Bytes)
    requires |payload| < TWO_32 && k < 4 + |payload|
    ensures Scan(c, Frame(payload)[..k]) == []
    ensures c.dec(payload).None? ==> Scan(c, Frame(payload) + rest) == []
  {
    U32RoundTrip(|payload|);
    if k >= 4 {
      assert Frame(payload)[..k][..4] == U32Bytes(|payload|);
    }
    var log := Frame(payload) + rest;
    assert log[..4] == U32Bytes(|payload|) && log[4..4 + |payload|] == payload;
  }

  // ----- the iterator over a log file

  class MetaDataIterator {
    const codec: Codec<MetaData>
    const file: Bytes
    var streamPos: nat
    var currentPos: nat

    /** Until an error occurs the counted position is the position of the stream. */
    predicate Valid()
      reads this
    {
      currentPos == streamPos <= |file|
    }

    /** The records still to come. */
    function Remaining(): seq<MetaData>
      requires Valid()
      reads this
    {
      Scan(codec, file[currentPos..])
    }

    constructor (codec: Codec<MetaData>, file: Bytes)
      ensures Valid() && currentPos == 0 && this.codec == codec && this.file == file
      ensures Remaining() == Scan(codec, file)
    {
      this.codec, this.file := codec, file;
      streamPos, currentPos := 0, 0;
      new;
      assert file[0..] == file;
    }

    method ReadExact(n: nat) returns (r: Option<Bytes>)
      requires streamPos <= |file|
      modifies this`streamPos
      ensures streamPos <= |file|
      ensures r.Some? <==> old(streamPos) + n <= |file|
      ensures r.None? ==> streamPos == |file|
      ensures r.Some? ==> r.value == file[old(streamPos)..old(streamPos) + n] && streamPos == old(streamPos) + n
    {
      if streamPos + n > |file| {
        streamPos := |file|;
        return None;
      }
      r := Some(file[streamPos..streamPos + n]);
      streamPos := streamPos + n;
    }

    /** A record that is there in full cannot be decoded; any other ends too early. */
    function ErrorAt(pos: nat): MetaError {
      if pos + 4 <= |file| && pos + 4 + U32FromBytes(file[pos..pos + 4]) <= |file| then Undecodable else EndOfFile
    }

    /** The next record, or nothing at the end of the file. A good record moves both positions past it; an error sets the
        counted position, but not the stream, back to the start. */
    method Next() returns (r: Option<Result<MetaData, MetaError>>)
      requires Valid()
      modifies this
      ensures r.None? <==> old(currentPos) == |file|
      ensures match r
              case None => currentPos == old(currentPos) && Valid() && old(Remaining()) == []
              case Some(Ok(meta)) =>
                && Valid() && old(currentPos) + 4 <= currentPos
                && currentPos == old(currentPos) + 4 + U32FromBytes(file[old(currentPos)..old(currentPos) + 4])
                && old(Remaining()) == [meta] + Remaining()
              case Some(Err(e)) => currentPos == 0 && old(Remaining()) == [] && e == ErrorAt(old(currentPos))
    {
      if currentPos == |file| {
        return None;
      }
      ghost var rest := file[currentPos..];
      var header := ReadExact(4);
      if header.None? {
        currentPos := 0;
        return Some(Err(EndOfFile));
      }
      assert rest[..4] == header.value;
      var size := U32FromBytes(header.value);
      var bytes := ReadExact(size);
      if bytes.None? {
        currentPos := 0;
        return Some(Err(EndOfFile));
      }
      assert rest[4..4 + size] == bytes.value;
      var meta := codec.dec(bytes.value);
      if meta.None? {
        currentPos := 0;
        return Some(Err(Undecodable));
      }
      assert rest[4 + size..] == file[currentPos + 4 + size..];
      currentPos := currentPos + size + 4;
      r := Some(Ok(meta.value));
    }
  }

  // ----- the database: a log file, if there is one, and the index in memory

  datatype Db = Db(log: Option<Bytes>, index: map<Uuid, MetaData>)

  function OnFile(c: Codec<MetaData>, db: Db): seq<MetaData> {
    if db.log.Some? then Scan(c, db.log.value) else []
  }

  function Find(c: Codec<MetaData>, db: Db, uuid: Uuid): (Db, Option<MetaData>) {
    if |db.index| != 0 then (db, Lookup(db.index, uuid))
    else (db.(index := IndexOf(OnFile(c, db))), LastWith(OnFile(c, db), uuid))
  }

  predicate Storable(c: Codec<MetaData>, meta: MetaData) {
    c.enc(meta).Some? && 4 + |c.enc(meta).value| <= META_BUFFER_SIZE
  }

  function Append(c: Codec<MetaData>, db: Db, meta: MetaData): Db {
    if Storable(c, meta) then
      db.(log := Some((if db.log.Some? then db.log.value else []) + Frame(c.enc(meta).value)))
    else db
  }

  class FileDataBase {
    const codec: Codec<MetaData>
    var uuidList: map<Uuid, MetaData>
    var log: Option<Bytes>

    function View(): Db
      reads this
    {
      Db(log, uuidList)
    }

    constructor (codec: Codec<MetaData>, log: Option<Bytes>)
      ensures this.codec == codec && View() == Db(log, map[])
    {
      this.codec, this.log := codec, log;
      uuidList := map[];
    }

    method SaveMeta(meta: MetaData) returns (r: Result<(), MetaError>)
      modifies this`log
      ensures View() == Append(codec, old(View()), meta)
      ensures r == if codec.enc(meta).Some? && 4 + |codec.enc(meta).value| <= 256 then Ok(()) else Err(TooLong)
      ensures log == if r.Err? then old(log)
                     else Some((if old(log).Some? then old(log).value else []) + Frame(codec.enc(meta).value))
    {
      var encoded := codec.enc(meta);
      if encoded.None? || 4 + |encoded.value| > META_BUFFER_SIZE {
        return Err(TooLong);
      }
      var before := if log.Some? then log.value else [];
      log := Some(before + Frame(codec.enc(meta).value));
      r := Ok(());
    }

    method FindMeta(uuid: Uuid) returns (r: Option<MetaData>)
      modifies this`uuidList
      ensures (View(), r) == Find(codec, old(View()), uuid)
    {
      if |uuidList| != 0 {
        return Lookup(uuidList, uuid);
      }
      if log.None? {
        assert IndexOf([]) == map[];
        return None;
      }
      uuidList, r := Gather(codec, log.value, uuid);
    }
  }

  lemma OneMore(seen: seq<MetaData>, meta: MetaData, uuid: Uuid)
    ensures IndexOf(seen + [meta]) == IndexOf(seen)[meta.uuid := meta]
    ensures LastWith(seen + [meta], uuid) == if meta.uuid == uuid then Some(meta) else LastWith(seen, uuid)
  {
    assert (seen + [meta])[..|seen|] == seen;
  }

  /** The scanning loop of `find_meta`. */
  method Gather(codec: Codec<MetaData>, file: Bytes, uuid: Uuid) returns (index: map<Uuid, MetaData>, r: Option<MetaData>)
    ensures index == IndexOf(Scan(codec, file)) && r == LastWith(Scan(codec, file), uuid)
  {
    index, r := map[], None;
    var entries := new MetaDataIterator(codec, file);
    ghost var all, seen := entries.Remaining(), [];
    while true
      invariant entries.Valid() && entries.file == file && fresh(entries)
      invariant all == seen + entries.Remaining()
      invariant index == IndexOf(seen) && r == LastWith(seen, uuid)
      decreases |file| - entries.currentPos
    {
      ghost var rest := entries.Remaining();
      var next := entries.Next();
      if next.None? || next.value.Err? {
        assert rest == [] && all == seen;
        return;
      }
      var meta := next.value.value;
      Regroup(seen, meta, entries.Remaining());
      OneMore(seen, meta, uuid);
      seen := seen + [meta];
      index := index[meta.uuid := meta];
      if meta.uuid == uuid {
        r := Some(meta);
      }
    }
  }

  lemma Regroup<T>(a: seq<T>, x: T, b: seq<T>)
    ensures a + ([x] + b) == a + [x] + b
  {
  }

  // ----- runs

  /** The answers to a sequence of searches with no save in between. */
  function FindAll(c: Codec<MetaData>, db: Db, uuids: seq<Uuid>): seq<Option<MetaData>>
    decreases uuids
  {
    if uuids == [] then [] else
      var (db', r) := Find(c, db, uuids[0]);
      [r] + FindAll(c, db', uuids[1..])
  }

  predicate IndexAgrees(c: Codec<MetaData>, db: Db) {
    |db.index| == 0 || db.index == IndexOf(OnFile(c, db))
  }

  /** The first search, which scans the file, and every later one, which uses the index, give the last record with the
      uuid, or none. */
  lemma {:induction false} EverySearchIsRight(c: Codec<MetaData>, db: Db, uuids: seq<Uuid>)
    requires IndexAgrees(c, db)
    ensures |FindAll(c, db, uuids)| == |uuids|
    ensures forall i | 0 <= i < |uuids| :: FindAll(c, db, uuids)[i] == LastWith(OnFile(c, db), uuids[i])
    decreases uuids
  {
    if uuids != [] {
      IndexHoldsLast(OnFile(c, db), uuids[0]);
      EverySearchIsRight(c, Find(c, db, uuids[0]).0, uuids[1..]);
    }
  }

  function AppendAll(c: Codec<MetaData>, db: Db, metas: seq<MetaData>): Db
    decreases metas
  {
    if metas == [] then db else AppendAll(c, Append(c, db, metas[0]), metas[1..])
  }

  lemma SaveIsOnFile(c: Codec<MetaData>, db: Db, meta: MetaData, before: seq<MetaData>)
    requires Lawful(c) && Storable(c, meta)
    requires if db.log.Some? then Parse(c, db.log.value) == Records(before) else before == []
    ensures
      var db' := Append(c, db, meta);
      db'.log.Some? && Parse(c, db'.log.value) == Records(before + [meta]) && db'.index == db.index
  {
    var log := if db.log.Some? then db.log.value else [];
    var e := c.enc(meta).value;
    ParseFrame(c, e, []);
    assert Frame(e) + [] == Frame(e);
    ParseAppend(c, log, Frame(e));
  }

  /** A log that parses holds afterwards what it held before and everything that was saved since. */
  lemma {:induction false} SavesAreOnFile(c: Codec<MetaData>, db: Db, metas: seq<MetaData>, before: seq<MetaData>)
    requires Lawful(c) && forall m | m in metas :: Storable(c, m)
    requires if db.log.Some? then Parse(c, db.log.value) == Records(before) else before == []
    ensures
      var db' := AppendAll(c, db, metas);
      OnFile(c, db') == before + metas && db'.index == db.index
    decreases metas
  {
    if metas == [] {
      if db.log.Some? {
        ScanOfWellFramed(c, db.log.value);
      }
      assert before + [] == before;
    } else {
      assert Storable(c, metas[0]);
      SaveIsOnFile(c, db, metas[0], before);
      SavesAreOnFile(c, Append(c, db, metas[0]), metas[1..], before + [metas[0]]);
      Regroup(before, metas[0], metas[1..]);
      assert [metas[0]] + metas[1..] == metas;
    }
  }

  lemma {:induction false} LastWithAppend(a: seq<MetaData>, b: seq<MetaData>, uuid: Uuid)
    ensures LastWith(a + b, uuid) == if LastWith(b, uuid).Some? then LastWith(b, uuid) else LastWith(a, uuid)
    decreases |b|
  {
    if b == [] {
      assert a + b == a;
    } else {
      assert (a + b)[..|a + b| - 1] == a + b[..|b| - 1];
      LastWithAppend(a, b[..|b| - 1], uuid);
    }
  }

  /** Saving does not refresh an index, and any search loads it. A search after a search and some saves is right exactly
      when the saves did not include the uuid, or left its last record as it was; or if nothing was on file, and so no
      index loaded, at that first search. */
  lemma SearchAfterSavesIsRightIff(
      c: Codec<MetaData>, db: Db, loaded: seq<MetaData>, first: Uuid, metas: seq<MetaData>, uuid: Uuid)
    requires Lawful(c) && (forall m | m in metas :: Storable(c, m)) && IndexAgrees(c, db)
    requires if db.log.Some? then Parse(c, db.log.value) == Records(loaded) else loaded == []
    ensures
      var db' := AppendAll(c, Find(c, db, first).0, metas);
      Find(c, db', uuid).1 == LastWith(OnFile(c, db'), uuid)
      <==> loaded == [] || LastWith(metas, uuid).None? || LastWith(metas, uuid) == LastWith(loaded, uuid)
  {
    var db1 := Find(c, db, first).0;
    if db.log.Some? {
      ScanOfWellFramed(c, db.log.value);
    }
    assert OnFile(c, db) == loaded && db1.index == IndexOf(loaded);
    SavesAreOnFile(c, db1, metas, loaded);
    LastWithAppend(loaded, metas, uuid);
    IndexHoldsLast(loaded, uuid);
    if loaded != [] {
      assert loaded[|loaded| - 1].uuid in IndexOf(loaded);
    }
  }
}
