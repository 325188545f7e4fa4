/**
 The log on files: appending batches, rotating, looking records up, rewriting
 groups of files, and opening the directory again. Every directory it passes
 through is recorded, with the number of records acknowledged by then; each of
 them can be recovered.
 */
module FilesystemLog {
  import opened Bytes
  import opened Records
  import opened Wire
  import opened LogCodec
  import opened LogCodecLoops
  import opened RecordCache
  import opened LogFiles
  import opened FileNames
  import opened Recovery
  import opened LogSteps
  import opened FileIndex
  import opened Rewriting
  import opened Compaction

  /** Every cached record is the one at its revision. */
  ghost predicate CacheHolds(order: seq<Item>, log: seq<WireRecord>) {
    forall i :: 0 <= i < |order| ==> Agrees(order[i], log)
  }

  predicate Agrees(it: Item, log: seq<WireRecord>) {
    0 < it.revision <= |log| && it.record == log[it.revision - 1]
  }

  lemma {:induction false} TrimHolds(order: seq<Item>, budget: int, log: seq<WireRecord>)
    requires CacheHolds(order, log)
    ensures CacheHolds(Trim(order, budget), log)
    decreases |order|
  {
    hide Total, Agrees;
    if budget > 0 && Total(order) > budget && |order| > 1 {
      TrimHolds(order[..|order| - 1], budget, log);
    }
  }

  lemma CachePut(order: seq<Item>, log: seq<WireRecord>, revision: nat, budget: int)
    requires CacheHolds(order, log) && 0 < revision <= |log|
    ensures CacheHolds(AfterPut(order, revision, log[revision - 1], budget), log)
  {
    hide Total, Size, Trim;
    var it := Item(revision, log[revision - 1], Size(log[revision - 1]));
    TrimHolds([it] + order, budget, log);
    if Has(order, revision) {
      TrimHolds([it] + Without(order, Position(order, revision)), budget, log);
    }
  }

  lemma CacheGet(order: seq<Item>, log: seq<WireRecord>, revision: nat)
    requires CacheHolds(order, log)
    ensures CacheHolds(AfterGet(order, revision), log)
    ensures Has(order, revision) ==> 0 < revision <= |log| && order[Position(order, revision)].record == log[revision - 1]
  {
    hide Total, Size, Trim;
    if Has(order, revision) {
      assert Agrees(order[Position(order, revision)], log);
    }
  }

  lemma CacheGrows(order: seq<Item>, log: seq<WireRecord>, more: seq<WireRecord>)
    requires CacheHolds(order, log)
    ensures CacheHolds(order, log + more)
  {
    forall i | 0 <= i < |order|
      ensures Agrees(order[i], log + more)
    {
      assert Agrees(order[i], log);
    }
  }

  // ---------------------------------------------------------------------
  // Crashes

  /** A directory as a crash left it, and how many records had been acknowledged by then. */
  type Crash = (Directory, nat)

  ghost predicate AllRecover(crashes: iset<Crash>, log: seq<WireRecord>, dropped: set<nat>) {
    forall d, n :: (d, n) in crashes ==> Recovers(d, n, log, dropped)
  }

  lemma AllRecoverLater(crashes: iset<Crash>, log: seq<WireRecord>, dropped: set<nat>, more: seq<WireRecord>,
                        gone: set<nat>)
    requires AllRecover(crashes, log, dropped) && dropped <= gone
    ensures AllRecover(crashes, log + more, gone)
  {
    hide Recovers;
    forall d, n | (d, n) in crashes
      ensures Recovers(d, n, log + more, gone)
    {
      RecoversLater(d, n, log, dropped, more, gone);
    }
  }

  lemma AllRecoverSum(a: iset<Crash>, b: iset<Crash>, log: seq<WireRecord>, dropped: set<nat>)
    requires AllRecover(a, log, dropped) && AllRecover(b, log, dropped)
    ensures AllRecover(a + b, log, dropped)
  {
    hide Recovers;
  }

  lemma AllRecoverOne(d: Directory, n: nat, log: seq<WireRecord>, dropped: set<nat>)
    requires Recovers(d, n, log, dropped)
    ensures AllRecover(iset{(d, n)}, log, dropped)
  {
    hide Recovers;
  }

  /** The bytes a write to the end of a file may leave, wherever it is cut off. */
  ghost function AppendStates(d: Directory, a: Name, bytes: Bytestring, n: nat): iset<Crash>
    requires a in d
  {
    iset c: nat | c <= |bytes| :: (d[a := d[a] + bytes[..c]], n)
  }

  /** Where the writing of a new file may be cut off. */
  ghost function WriteStates(d: Directory, a: Name, bytes: Bytestring, n: nat): iset<Crash> {
    iset c: nat | c <= |bytes| :: (d[a := bytes[..c]], n)
  }

  lemma AppendStatesRecover(d: Directory, files: seq<LogFile>, segs: seq<Segment>, log: seq<WireRecord>,
                            dropped: set<nat>, left: Leftover, batch: seq<WireRecord>, bytes: Bytestring)
    requires Good(d, files, segs, log, dropped) && Tidy(d, segs, log, dropped, [], left) && LogFits(log + batch)
    requires forall i :: 0 <= i < |batch| ==> RecordOk(batch[i])
    requires bytes == Frames(Numbered(|log| + 1, batch))
    ensures |files| > 0 && FileName(files[|files| - 1]) in d
    ensures AllRecover(AppendStates(d, FileName(files[|files| - 1]), bytes, |log|), log + batch, dropped)
  {
    hide Layout, Tidy, FilesOf, Recovers, LogFits, FileOf, Holds, Whole, Contiguous, Frames, RecordOk, EntriesOk;
    GoodFile(d, files, segs, log, dropped, |segs| - 1);
    var a := FileName(files[|files| - 1]);
    forall e, n | (e, n) in AppendStates(d, a, bytes, |log|)
      ensures Recovers(e, n, log + batch, dropped)
    {
      var c: nat :| c <= |bytes| && (e, n) == (d[a := d[a] + bytes[..c]], |log|);
      CutRecovers(d, segs, log, dropped, left, batch, c);
    }
  }

  lemma WriteStatesRecover(d: Directory, files: seq<LogFile>, segs: seq<Segment>, log: seq<WireRecord>,
                           dropped: set<nat>, tmp: Name, bytes: Bytestring)
    requires Good(d, files, segs, log, dropped) && Tidy(d, segs, log, dropped, [], Nothing) && tmp.Other?
    ensures AllRecover(WriteStates(d, tmp, bytes, |log|), log, dropped)
    ensures tmp in d ==> AllRecover(AppendStates(d, tmp, bytes, |log|), log, dropped)
  {
    hide Good, Tidy, Recovers;
    forall e, n | (e, n) in WriteStates(d, tmp, bytes, |log|)
      ensures Recovers(e, n, log, dropped)
    {
      OtherWritten(d, e, files, segs, log, dropped);
    }
    if tmp in d {
      forall e, n | (e, n) in AppendStates(d, tmp, bytes, |log|)
        ensures Recovers(e, n, log, dropped)
      {
        OtherWritten(d, e, files, segs, log, dropped);
      }
    }
  }

  /**
   A directory with durable operations. It remembers every state a crash may
   leave it in, with the number of records acknowledged by then. A file's
   header arrives with the file.
   */
  class Disk {
    var dir: Directory
    ghost var acked: nat
    ghost var crashes: iset<Crash>

    /** The directory a crash left, or an empty one. */
    constructor (d: Directory, ghost n: nat)
      ensures dir == d && acked == n && crashes == iset{}
    {
      dir, acked, crashes := d, n, iset{};
    }

    /** Create a file that must not exist, with its header. */
    method Create(a: Name, header: Bytestring) returns (ok: bool)
      modifies this`dir, this`crashes
      ensures ok <==> a !in old(dir)
      ensures dir == if ok then old(dir)[a := header] else old(dir)
      ensures crashes == old(crashes) + iset{(dir, acked)}
    {
      ok := a !in dir;
      if ok {
        dir := dir[a := header];
      }
      crashes := crashes + iset{(dir, acked)};
    }

    method Append(a: Name, bytes: Bytestring)
      requires a in dir
      modifies this`dir, this`crashes
      ensures dir == old(dir)[a := old(dir)[a] + bytes]
      ensures crashes == old(crashes) + AppendStates(old(dir), a, bytes, acked)
    {
      crashes := crashes + AppendStates(dir, a, bytes, acked);
      dir := dir[a := dir[a] + bytes];
    }

    /** Write a file from its start. */
    method Write(a: Name, bytes: Bytestring)
      modifies this`dir, this`crashes
      ensures dir == old(dir)[a := bytes]
      ensures crashes == old(crashes) + WriteStates(old(dir), a, bytes, acked)
    {
      crashes := crashes + WriteStates(dir, a, bytes, acked);
      dir := dir[a := bytes];
    }

    method Rename(a: Name, b: Name)
      requires a in dir && a != b
      modifies this`dir, this`crashes
      ensures dir == (old(dir) - {a})[b := old(dir)[a]]
      ensures crashes == old(crashes) + iset{(dir, acked)}
    {
      dir := (dir - {a})[b := dir[a]];
      crashes := crashes + iset{(dir, acked)};
    }

    method Remove(a: Name)
      modifies this`dir, this`crashes
      ensures dir == old(dir) - {a}
      ensures crashes == old(crashes) + iset{(dir, acked)}
    {
      dir := dir - {a};
      crashes := crashes + iset{(dir, acked)};
    }

    method Truncate(a: Name, size: nat)
      requires a in dir && size <= |dir[a]|
      modifies this`dir, this`crashes
      ensures dir == old(dir)[a := old(dir)[a][..size]]
      ensures crashes == old(crashes) + iset{(dir, acked)}
    {
      dir := dir[a := dir[a][..size]];
      crashes := crashes + iset{(dir, acked)};
    }

    /** A caller has been told that `n` records are durable. */
    ghost method Acknowledge(n: nat)
      modifies this`acked, this`crashes
      ensures acked == n && crashes == old(crashes) + iset{(dir, n)}
    {
      acked := n;
      crashes := crashes + iset{(dir, n)};
    }
  }

  /** A dense file's record count is the length of its range. */
  lemma DenseCount(s: Segment, log: seq<WireRecord>, dropped: set<nat>)
    requires SegmentOk(s, |log|) && LogFits(log) && !s.sparse && Whole(s, dropped)
    ensures |FileOf(s, log, dropped).spans| == s.last - s.first + 1
  {
    hide LogFits, Kept, FileOf;
    FileOfCount(s, log, dropped);
    KeptWhole(log, s.first, s.last, dropped);
  }

  /** A batch, to be appended after `last`, fits the encoding. */
  ghost predicate BatchFits(last: nat, records: seq<WireRecord>) {
    EntriesOk(Numbered(last + 1, records))
  }

  lemma BatchFitsLog(log: seq<WireRecord>, records: seq<WireRecord>)
    requires LogFits(log) && BatchFits(|log|, records)
    ensures LogFits(log + records)
  {
    hide Encodable;
    var all := log + records;
    forall i | 0 <= i < |all|
      ensures Encodable(i + 1, all[i])
    {
      if i < |log| {
        assert Encodable(i + 1, log[i]);
      } else {
        var e := Numbered(|log| + 1, records)[i - |log|];
        assert Encodable(e.revision, e.record);
      }
    }
  }

  function From(first: nat, n: nat): (r: seq<nat>)
    ensures |r| == n && forall i :: 0 <= i < n ==> r[i] == first + i
  {
    seq(n, i => first + i)
  }

  const DEFAULT_CACHE_BYTES: int := 0x1000_0000
  const DEFAULT_ROTATE_BYTES: int := 0x400_0000

  datatype Lookup<T> = Present(value: T) | Dropped | NotFound

  // ---------------------------------------------------------------------
  // What others do while files are rewritten

  /** Something another goroutine does to the log. */
  datatype Op = Commit(last: nat, records: seq<WireRecord>) | Rotate | Get(revision: nat)

  /** What others do at each moment, in order. */
  type World = nat -> seq<Op>

  ghost predicate OpFits(op: Op) {
    op.Commit? ==> BatchFits(op.last, op.records) && AllKeyed(op.records)
  }

  ghost predicate WorldFits(world: World) {
    forall t: nat, x :: 0 <= x < |world(t)| ==> OpFits(world(t)[x])
  }

  class Log {
    const rotateBytes: int
    const canMap: bool          // whether closed files are memory-mapped
    const cache: Cache
    const disk: Disk
    var files: seq<LogFile>     // the last is the one appended to
    var lastRevision: nat

    ghost var segs: seq<Segment>
    ghost var log: seq<WireRecord>
    ghost var dropped: set<nat>
    ghost var left: Leftover    // what a group rewrite under way has still to remove
    ghost var found: set<nat>   // what had been dropped when the log was opened
    ghost var point: nat        // the highest point compacted through since

    ghost predicate Valid()
      reads this, cache, disk
    {
      && cache.Valid()
      && CacheHolds(cache.order, log)
      && Good(disk.dir, files, segs, log, dropped)
      && Tidy(disk.dir, segs, log, dropped, [], left)
      && Bounded(files, dropped, found, point)
      && lastRevision == |log| == disk.acked
      && AllRecover(disk.crashes, log, dropped)
    }

    constructor (d: Disk, rotate: int, cacheBytes: int, mapping: bool)
      ensures disk == d && Closed()
      ensures rotateBytes > 0 && (rotate > 0 ==> rotateBytes == rotate)
      ensures cacheBytes != 0 ==> cache.budget == cacheBytes
      ensures fresh(cache)
    {
      rotateBytes := if rotate <= 0 then DEFAULT_ROTATE_BYTES else rotate;
      canMap := mapping;
      cache := new Cache(if cacheBytes == 0 then DEFAULT_CACHE_BYTES else cacheBytes);
      disk, files, lastRevision := d, [], 0;
      segs, log, dropped, left, found, point := [], [], {}, Nothing, {}, 0;
    }

    /** Not opened yet. */
    ghost predicate Closed()
      reads this, cache
    {
      cache.Valid() && cache.order == [] && files == [] && lastRevision == 0
    }

    /** The directory holds the log, and nothing is appended to its last file any more. */
    ghost predicate Ready()
      reads this, disk
    {
      && Tidy(disk.dir, segs, log, dropped, [], left)
      && (segs != [] ==> segs[|segs| - 1].first <= segs[|segs| - 1].last)
      && Contiguous(segs, |log|) && LogFits(log) && files == FilesOf(segs, log, dropped)
      && lastRevision == |log|
    }

    /** Start the file for the revision after the last, which must not exist. */
    method NewActiveFile() returns (ok: bool)
      modifies this`files, this`segs, disk`dir, disk`crashes
      ensures old(Ready()) ==> ok && Good(disk.dir, files, segs, log, dropped) && Tidy(disk.dir, segs, log, dropped, [], left)
      ensures ok ==> files == old(files) + [NewFile(lastRevision)] && disk.dir == old(disk.dir)[Dense(lastRevision + 1) := MAGIC]
      ensures disk.crashes == old(disk.crashes) + iset{(disk.dir, disk.acked)}
    {
      hide Layout, Contiguous, Good, LogFits, FilesOf, Tidy, NewFile;
      if Ready() {
        GoodNext(disk.dir, segs, log, dropped, left);
      }
      NewFileFields(lastRevision);
      var f := LogFile(lastRevision + 1, lastRevision, false, NEW_SIZE, [], []);
      ok := disk.Create(FileName(f), MAGIC);
      if !ok {
        return;
      }
      files := files + [f];
      segs := segs + [Segment(|log| + 1, |log|, false)];
    }

    /** Close the active file and start the next, unless it is empty. */
    method RotateLocked() returns (rotated: bool)
      requires Valid()
      modifies this`files, this`segs, disk`dir, disk`crashes
      ensures Valid()
      ensures rotated <==> |old(files)| > 0 && |old(files)[|old(files)| - 1].spans| > 0
      ensures files == if rotated then old(files) + [NewFile(|log|)] else old(files)
      ensures Moved(old(files), log, files, log) && Extends(old(disk.dir), disk.dir, |log|)
      ensures old(disk.crashes) <= disk.crashes
    {
      hide Layout, Contiguous, LogFits, FilesOf, Tidy, AllRecover, CacheHolds, FileOf, Recovers, Holds, Whole, Bounded,
          Moved, Extends, NewFile;
      GoodFile(disk.dir, files, segs, log, dropped, |segs| - 1);
      DenseCount(segs[|segs| - 1], log, dropped);
      rotated := |files[|files| - 1].spans| > 0;
      if rotated {
        ghost var before := disk.crashes;
        GoodReady();
        NextMoves(files, log, disk.dir, dropped, found, point);
        var _ := NewActiveFile();
        InUseRecovers();
        AllRecoverOne(disk.dir, |log|, log, dropped);
        AllRecoverSum(before, iset{(disk.dir, |log|)}, log, dropped);
      } else {
        MovedNot(files, log, disk.dir);
      }
    }

    lemma GoodReady()
      requires Good(disk.dir, files, segs, log, dropped) && Tidy(disk.dir, segs, log, dropped, [], left) && lastRevision == |log|
      requires segs[|segs| - 1].first <= segs[|segs| - 1].last
      ensures Ready()
    {
      hide LogFits, FilesOf, Tidy, UpTo, Holds, Whole;
    }

    /** Whatever is under way, the directory can be recovered. */
    lemma InUseRecovers()
      requires Tidy(disk.dir, segs, log, dropped, [], left)
      ensures Recovers(disk.dir, |log|, log, dropped)
    {
      hide Tidy, Recovers;
      assert log[..|log|] == log;
      TidyRecovers(disk.dir, segs, |log|, |log|, log, dropped, [], left);
    }

    /** Put a committed batch in the cache. */
    method CacheBatch(start: nat, records: seq<WireRecord>, ghost all: seq<WireRecord>)
      requires cache.Valid() && CacheHolds(cache.order, all)
      requires 0 < start && start - 1 + |records| == |all| && all[start - 1..] == records
      modifies cache
      ensures cache.Valid() && CacheHolds(cache.order, all)
    {
      hide CacheHolds, AfterPut, Cache.Valid;
      var i := 0;
      while i < |records|
        invariant 0 <= i <= |records|
        invariant cache.Valid() && CacheHolds(cache.order, all)
      {
        assert records[i] == all[start + i - 1];
        CachePut(cache.order, all, start + i, cache.budget);
        cache.Put(start + i, records[i]);
        i := i + 1;
      }
    }

    /** Append a batch to the active file and publish it. A group rewrite may be under way. */
    method AppendBatch(records: seq<WireRecord>, buf: Bytestring, spans: seq<Span>)
      requires Valid() && LogFits(log + records) && forall i :: 0 <= i < |records| ==> RecordOk(records[i])
      requires buf == Frames(Numbered(|log| + 1, records)) && spans == SpansAt(Numbered(|log| + 1, records), 0)
      modifies this`files, this`segs, this`log, this`lastRevision, cache, disk
      ensures Valid() && log == old(log) + records
      ensures Moved(old(files), old(log), files, log) && Extends(old(disk.dir), disk.dir, |old(log)|)
      ensures old(disk.crashes) <= disk.crashes
    {
      hide Good, AllRecover, CacheHolds, FileName, WithBatch, AppendStates, Numbered, Recovers, Tidy, Bounded, Moved,
          Extends, Grown,
           LogFits, RecordOk, Frames, SpansAt, Cache.Valid;
      AppendStatesRecover(disk.dir, files, segs, log, dropped, left, records, buf);
      AllRecoverLater(disk.crashes, log, dropped, records, dropped);
      CacheGrows(cache.order, log, records);
      GoodCommit(disk.dir, files, segs, log, dropped, left, records);
      ActiveIsDense(disk.dir, files, segs, log, dropped);

      var k := |files| - 1;
      var active := files[k];
      WithBatchIs(active, spans, |buf|, |records|);
      CommitMoves(files, log, disk.dir, records, WithBatch(active, spans, |buf|, |records|), buf, dropped, found, point);
      ghost var before, cuts := disk.crashes, AppendStates(disk.dir, FileName(active), buf, |log|);
      AllRecoverSum(before, cuts, log + records, dropped);
      disk.Append(FileName(active), buf);
      files := files[k := WithBatch(active, spans, |buf|, |records|)];
      segs := Grown(segs, |log| + |records|);
      log := log + records;
      CacheBatch(lastRevision + 1, records, log);
      lastRevision := lastRevision + |records|;

      InUseRecovers();
      AllRecoverOne(disk.dir, |log|, log, dropped);
      AllRecoverSum(disk.crashes, iset{(disk.dir, |log|)}, log, dropped);
      disk.Acknowledge(|log|);
    }

    /** Append a batch to the active file, sync it and publish it: the commit point. */
    method CommitBatch(lastLogPosition: nat, records: seq<WireRecord>) returns (ok: bool)
      requires Valid() && BatchFits(lastLogPosition, records)
      modifies this`files, this`segs, this`log, this`lastRevision, cache, disk
      ensures Valid()
      ensures ok == (records != [] && lastLogPosition == old(lastRevision))
      ensures log == if ok then old(log) + records else old(log)
      ensures Moved(old(files), old(log), files, log) && Extends(old(disk.dir), disk.dir, |old(log)|)
      ensures old(disk.crashes) <= disk.crashes
    {
      hide Good, AllRecover, CacheHolds, Encodable, Numbered, Zip, Tidy, Bounded, Moved, Extends,
           BatchFits, LogFits, RecordOk, Frames, SpansAt, Cache.Valid;
      GoodCount(disk.dir, files, segs, log, dropped);
      MovedNot(files, log, disk.dir);
      if records == [] {
        return false;
      }
      BatchOk(lastLogPosition, records);
      var revisions := From(lastLogPosition + 1, |records|);
      var _, buf, spans := AppendRecordsAt([], revisions, records);
      if lastLogPosition != lastRevision {
        return false;
      }
      NumberedZip(lastRevision, revisions, records, buf, spans);
      GoodFits(disk.dir, files, segs, log, dropped, records);
      AppendBatch(records, buf, spans);
      GoodCount(disk.dir, files, segs, log, dropped);
      if files[|files| - 1].size >= rotateBytes {
        ghost var f, d := files, disk.dir;
        var _ := RotateLocked();
        MovedOn(old(files), old(log), old(disk.dir), f, log, d, files, log, disk.dir);
      }
      ok := true;
    }

    /** What other goroutines do to the log at one moment: any commits, rotations and lookups. */
    method Meanwhile(world: World, t: nat)
      requires Valid() && WorldFits(world) && AllKeyed(log)
      modifies this`files, this`segs, this`log, this`lastRevision, cache, disk
      ensures Valid() && AllKeyed(log)
      ensures Moved(old(files), old(log), files, log) && Extends(old(disk.dir), disk.dir, |old(log)|)
      ensures old(disk.crashes) <= disk.crashes
    {
      hide Good, AllRecover, CacheHolds, Tidy, Bounded, Moved, Extends, BatchFits, HasKeys, AllKeyed, Cache.Valid;
      GoodCount(disk.dir, files, segs, log, dropped);
      MovedNot(files, log, disk.dir);
      for x := 0 to |world(t)|
        invariant Valid() && AllKeyed(log)
        invariant Moved(old(files), old(log), files, log) && Extends(old(disk.dir), disk.dir, |old(log)|)
        invariant old(disk.crashes) <= disk.crashes
      {
        ghost var f, l, d := files, log, disk.dir;
        var op := world(t)[x];
        assert OpFits(op);
        match op
        case Commit(last, records) =>
          BatchKeyed(log, records);
          var _ := CommitBatch(last, records);
          MovedOn(old(files), old(log), old(disk.dir), f, l, d, files, log, disk.dir);
        case Rotate =>
          var _ := RotateLocked();
          MovedOn(old(files), old(log), old(disk.dir), f, l, d, files, log, disk.dir);
        case Get(revision) =>
          var _ := GetLogEntry(revision);
      }
    }

    /** The encoded bytes of a revision's record, and whether they alias a mapping. */
    method RecordBytes(revision: nat) returns (m: Lookup<Bytestring>, mapped: bool)
      requires Valid()
      ensures m.NotFound? <==> !(0 < revision <= |log|)
      ensures m.Present? ==> revision !in dropped && Decode(m.value) == Ok(log[revision - 1])
      ensures m.Dropped? ==> revision in dropped
    {
      hide Good, Tidy, Bounded, AllRecover, CacheHolds, FileName, FilesOf, LogFits, Decode, Cache.Valid, Contiguous,
          SparseOk, FileOf;
      GoodIndex(disk.dir, files, segs, log, dropped);
      mapped := false;
      var k := FindFile(files, revision, segs, log, dropped);
      if k < 0 {
        return NotFound, false;
      }
      FileReads(disk.dir, files, segs, log, dropped, k, revision);
      var p := Locate(files[k], revision);
      LocatedAt(disk.dir, files, segs, log, dropped, k, revision, p);
      if !p.At? {
        return Dropped, false;
      }
      var span := files[k].spans[p.pos];
      var data := disk.dir[FileName(files[k])];
      var bytes := data[span.offset..span.offset + span.length];
      assert Decode(bytes) == Ok(log[revision - 1]);
      m := Present(bytes);
      mapped := k < |files| - 1 && canMap;
    }

    /** The record at a revision. It is missing only outside the log, and dropped only if compaction dropped it. */
    method GetLogEntry(revision: nat) returns (r: Lookup<WireRecord>)
      requires Valid()
      modifies cache
      ensures Valid()
      ensures r.NotFound? <==> !(0 < revision <= |log|)
      ensures r.Present? ==> r.value == log[revision - 1]
      ensures r.Dropped? ==> revision in dropped
    {
      hide Good, Tidy, Bounded, AllRecover, CacheHolds, AfterGet, AfterPut, Decode, Has, Cache.Valid;
      CacheGet(cache.order, log, revision);
      var cached := cache.Get(revision);
      if cached.Some? {
        return Present(cached.value);
      }
      var m, mapped := RecordBytes(revision);
      if !m.Present? {
        return if m.Dropped? then Dropped else NotFound;
      }
      var record := DecodeAlias(m.value);
      if !mapped {
        CachePut(cache.order, log, revision, cache.budget);
        cache.Put(revision, record.value);
      }
      return Present(record.value);
    }

    lemma ValidParts()
      requires Valid()
      ensures cache.Valid() && CacheHolds(cache.order, log)
      ensures Good(disk.dir, files, segs, log, dropped) && Tidy(disk.dir, segs, log, dropped, [], left)
      ensures Bounded(files, dropped, found, point)
      ensures lastRevision == |log| == disk.acked && AllRecover(disk.crashes, log, dropped)
    {
    }

    lemma ValidWhole()
      requires cache.Valid() && CacheHolds(cache.order, log)
      requires Good(disk.dir, files, segs, log, dropped) && Tidy(disk.dir, segs, log, dropped, [], left)
      requires Bounded(files, dropped, found, point)
      requires lastRevision == |log| == disk.acked && AllRecover(disk.crashes, log, dropped)
      ensures Valid()
    {
    }

    /** Stream the live records of one closed file to the temporary file. */
    method WriteFile(x: nat, tmp: Name, live: Ask, t0: nat, bytes0: Bytestring, spans0: seq<Span>, revisions0: seq<nat>,
                     ghost done: seq<Entry>)
      returns (bytes: Bytestring, spans: seq<Span>, revisions: seq<nat>, t: nat, ghost dead: set<nat>)
      requires Valid() && left == Nothing && AllKeyed(log) && x < |files| - 1
      requires tmp.Other? && tmp in disk.dir && disk.dir[tmp] == bytes0 && Written(bytes0, spans0, revisions0, done)
      modifies disk`dir, disk`crashes
      ensures Valid() && tmp in disk.dir && disk.dir[tmp] == bytes
      ensures t0 <= t && Judged(log, files[x].first, files[x].last, dropped, dead, live, t0, t)
      ensures 0 < files[x].first && files[x].last <= |log|
      ensures Written(bytes, spans, revisions, done + Kept(log, files[x].first, files[x].last, dropped + dead))
      ensures old(disk.crashes) <= disk.crashes
    {
      hide *;
      ValidParts();
      ghost var entries := FileContent(disk.dir, files, segs, log, dropped, x);
      var data := disk.dir[FileName(files[x])];
      var count, messages, revs;
      count, messages, revs, t, dead := LiveRecords(files[x], data, live, t0, entries);
      JudgedAs(log, files[x].first, files[x].last, dropped, entries, dead, live, t0, t);
      LiveOfKept(log, files[x].first, files[x].last, dropped, dead);
      bytes, spans, revisions := WriteRecords(bytes0, spans0, revisions0, messages, revs, done, LiveOf(entries, dead));
      WrittenOn(bytes0, spans0, revisions0, done, bytes, spans, revisions, LiveOf(entries, dead));
      ghost var d, before := disk.dir, disk.crashes;
      var more := bytes[|bytes0|..];
      WriteStatesRecover(d, files, segs, log, dropped, tmp, more);
      AllRecoverSum(before, AppendStates(d, tmp, more, |log|), log, dropped);
      disk.Append(tmp, more);
      OtherSame(d, tmp, bytes);
      OtherWritten(d, disk.dir, files, segs, log, dropped);
      ValidWhole();
    }

    /** Start the temporary file. */
    method StartTemporary(tmp: Name)
      requires Valid() && left == Nothing && tmp.Other?
      modifies disk`dir, disk`crashes
      ensures Valid() && tmp in disk.dir && disk.dir[tmp] == MAGIC
      ensures old(disk.crashes) <= disk.crashes
    {
      hide *;
      ValidParts();
      ghost var d := disk.dir;
      WriteStatesRecover(d, files, segs, log, dropped, tmp, MAGIC);
      AllRecoverSum(disk.crashes, WriteStates(d, tmp, MAGIC, |log|), log, dropped);
      disk.Write(tmp, MAGIC);
      OtherSame(d, tmp, MAGIC);
      OtherWritten(d, disk.dir, files, segs, log, dropped);
      ValidWhole();
    }

    /** Stream the live records of a group of files to a temporary file. Others go on meanwhile. */
    method WriteGroup(i: nat, j: nat, tmp: Name, live: Ask, world: World, t0: nat)
      returns (bytes: Bytestring, spans: seq<Span>, revisions: seq<nat>, t: nat, ghost dead: set<nat>)
      requires Valid() && left == Nothing && AllKeyed(log) && WorldFits(world) && i < j < |files| && tmp.Other?
      modifies this`files, this`segs, this`log, this`lastRevision, cache, disk
      ensures Valid() && AllKeyed(log) && tmp in disk.dir && disk.dir[tmp] == bytes
      ensures Moved(old(files), old(log), files, log) && old(disk.crashes) <= disk.crashes
      ensures Streamed(old(log), old(files)[i].first, old(files)[j - 1].last, dropped, dead, live, t0, t, bytes, spans, revisions)
    {
      hide *;
      ValidParts();
      ghost var was, base := files, log;
      FilesInOrder(disk.dir, files, segs, log, dropped);
      FilesAdjoin(disk.dir, files, segs, log, dropped);
      ghost var first := was[i].first;
      StartTemporary(tmp);
      bytes, spans, revisions, t, dead := MAGIC, [], [], t0, {};
      StreamedNone(was, base, i, dropped, live, t0);
      MovedNot(files, log, disk.dir);
      ghost var reached := first - 1;
      var x := i;
      while x < j
        invariant i <= x <= j < |was|
        invariant Valid() && AllKeyed(log) && tmp in disk.dir && disk.dir[tmp] == bytes
        invariant Moved(was, base, files, log) && old(disk.crashes) <= disk.crashes
        invariant reached == if x == i then first - 1 else was[x - 1].last
        invariant Streamed(base, first, reached, dropped, dead, live, t0, t, bytes, spans, revisions)
      {
        NextInGroup(was, base, files, log, i, x, reached);
        StreamedParts(base, first, reached, dropped, dead, live, t0, t, bytes, spans, revisions);
        ghost var done := Kept(base, first, reached, dropped + dead);
        ghost var f, l, t1, dead1 := files, log, t, dead;
        ghost var bytes1, spans1, revisions1 := bytes, spans, revisions;
        bytes, spans, revisions, t, dead := WriteFile(x, tmp, live, t, bytes, spans, revisions, done);
        StreamedNext(base, log, first, reached, was[x].last, dropped, dead1, dead, live, t0, t1, t, bytes1, spans1,
            revisions1, bytes, spans, revisions);
        reached, dead := was[x].last, dead1 + dead;
        ghost var d := disk.dir;
        Meanwhile(world, t);
        t := t + 1;
        StillThere(d, disk.dir, |l|, tmp);
        MovedAgain(was, base, f, l, files, log);
        x := x + 1;
      }
    }

    /** Rename the replacement into place and put it in the index: the group is replaced, its files have still to go. */
    method Publish(i: nat, j: nat, tmp: Name, bytes: Bytestring, spans: seq<Span>, revisions: seq<nat>,
                   ghost dead: set<nat>)
      requires Valid() && left == Nothing && i < j < |files| && tmp.Other? && tmp in disk.dir && disk.dir[tmp] == bytes
      requires 0 < files[i].first && files[j - 1].last <= |log| && files[j - 1].last <= point
      requires Written(bytes, spans, revisions, Kept(log, files[i].first, files[j - 1].last, dropped + dead))
      requires DropsWithin(dropped, dropped + dead, files[i].first, files[j - 1].last)
      modifies this`files, this`segs, this`dropped, this`left, disk`dir, disk`crashes
      ensures Valid() && dropped == old(dropped) + dead
      ensures |old(segs)| == |old(files)| && left == Group(i, old(segs)[i..j], old(dropped))
      ensures GroupIs(old(files)[i..j], Sparse(old(files)[i].first, old(files)[j - 1].last), old(segs)[i..j])
      ensures files == old(files)[..i] + [LogFile(old(files)[i].first, old(files)[j - 1].last, true, |bytes|, spans,
          revisions)] + old(files)[j..]
      ensures old(disk.crashes) <= disk.crashes
    {
      hide *;
      ValidParts();
      GroupBounds(disk.dir, files, segs, log, dropped, i, j);
      var first, last := files[i].first, files[j - 1].last;
      var name := Sparse(first, last);
      var compacted := LogFile(first, last, true, |bytes|, spans, revisions);
      ghost var gone, d, before := dropped + dead, disk.dir, disk.crashes;
      RewriteBegins(d, tmp, files, segs, log, dropped, gone, i, j, bytes, compacted);
      BoundedRewrite(d, files, segs, log, dropped, gone, found, point, i, j, compacted);
      assert log + [] == log;
      AllRecoverLater(before, log, dropped, [], gone);
      disk.Rename(tmp, name);
      files := files[..i] + [compacted] + files[j..];
      left := Group(i, segs[i..j], dropped);
      segs := Merged(segs, i, j);
      dropped := gone;
      InUseRecovers();
      AllRecoverOne(disk.dir, |log|, log, gone);
      AllRecoverSum(before, iset{(disk.dir, |log|)}, log, gone);
      ValidWhole();
    }

    /** Remove one of the files a replacement supersedes; those before it are gone. */
    method RemoveNext(name: Name, ghost x: nat)
      requires Valid() && left.Group? && x < |left.segs| && name == SegName(left.segs[x]) && name != Replacement(left.segs)
      requires Removals(disk.dir, left.segs, x)
      modifies disk`dir, disk`crashes
      ensures Valid() && Removals(disk.dir, left.segs, x + 1)
      ensures old(disk.crashes) <= disk.crashes
    {
      hide *;
      ValidParts();
      ghost var before := disk.crashes;
      RemovesOne(disk.dir, files, segs, log, dropped, left.at, left.segs, left.had, x);
      disk.Remove(name);
      InUseRecovers();
      AllRecoverOne(disk.dir, |log|, log, dropped);
      AllRecoverSum(before, iset{(disk.dir, |log|)}, log, dropped);
      ValidWhole();
    }

    /** Remove the files a replacement supersedes, in order. Others go on meanwhile. */
    method RemoveReplaced(group: seq<LogFile>, name: Name, world: World, t0: nat) returns (t: nat)
      requires Valid() && left.Group? && GroupIs(group, name, left.segs) && AllKeyed(log) && WorldFits(world)
      modifies this`files, this`segs, this`log, this`lastRevision, cache, disk
      ensures Valid() && Removals(disk.dir, left.segs, |left.segs|) && AllKeyed(log)
      ensures Moved(old(files), old(log), files, log) && old(disk.crashes) <= disk.crashes
      ensures t0 <= t
    {
      hide *;
      ValidParts();
      GoodCount(disk.dir, files, segs, log, dropped);
      MovedNot(files, log, disk.dir);
      NoRemovals(disk.dir, left.segs);
      GroupCount(group, name, left.segs);
      t := t0;
      var x := 0;
      while x < |group|
        invariant 0 <= x <= |group| == |left.segs| && t0 <= t
        invariant Valid() && Removals(disk.dir, left.segs, x) && AllKeyed(log)
        invariant Moved(old(files), old(log), files, log) && old(disk.crashes) <= disk.crashes
      {
        GroupAt(group, name, left.segs, x);
        if FileName(group[x]) != name {
          RemoveNext(FileName(group[x]), x);
        } else {
          RemovalSkips(disk.dir, left.segs, x);
        }
        ValidParts();
        GroupWithin(disk.dir, segs, log, dropped, left);
        ghost var f, l, d := files, log, disk.dir;
        Meanwhile(world, t);
        t := t + 1;
        RemovalsStay(d, disk.dir, |l|, left.segs, x + 1);
        MovedAgain(old(files), old(log), f, l, files, log);
        x := x + 1;
      }
    }

    /** Replace a run of neighbouring closed files with one file holding their live records. */
    method CompactGroup(i: nat, j: nat, live: Ask, world: World, t0: nat) returns (t: nat, ghost dead: set<nat>)
      requires Valid() && left == Nothing && AllKeyed(log) && WorldFits(world) && i < j < |files| && files[j - 1].last <= point
      modifies this, cache, disk
      ensures Valid() && left == Nothing && AllKeyed(log) && found == old(found) && point == old(point)
      ensures old(log) <= log && old(disk.crashes) <= disk.crashes
      ensures t0 <= t && Judged(old(log), old(files)[i].first, old(files)[j - 1].last, old(dropped), dead, live, t0, t)
      ensures dropped == old(dropped) + dead
      ensures Swapped(old(files), files, i, j)
    {
      hide *;
      ghost var was, base := files, log;
      var first, last := files[i].first, files[j - 1].last;
      var name := Sparse(first, last);
      var tmp := Other(Filename(name) + TMP_SUFFIX);
      var bytes, spans, revisions;
      bytes, spans, revisions, t, dead := WriteGroup(i, j, tmp, live, world, t0);
      ghost var f := files;
      MovedLog(was, base, files, log);
      StreamedEnds(base, log, first, last, dropped, dead, live, t0, t, bytes, spans, revisions);
      GroupSame(was, base, files, log, i, j);
      var group := files[i..j];
      ghost var l := log;
      Publish(i, j, tmp, bytes, spans, revisions, dead);
      ghost var g := files;
      var t1 := RemoveReplaced(group, name, world, t);
      ValidParts();
      FinishRewrite(disk.dir, segs, log, dropped, left);
      left := Nothing;
      ValidWhole();
      SwappedIs(was, base, f, l, LogFile(first, last, true, |bytes|, spans, revisions), g, files, log, i, j);
      JudgedLater(base, first, last, old(dropped), dead, live, t0, t, t1);
      t := t1;
    }

    /** A file's live bytes, and how many of its records are dead. */
    method Measure(x: nat, live: Ask, t0: nat) returns (liveBytes: nat, dead: nat, t: nat, ghost gone: set<nat>)
      requires Valid() && AllKeyed(log) && x < |files| - 1
      ensures t0 <= t && dead == |gone| && Measured(files[x], log, dropped, gone, liveBytes, live, t0, t)
    {
      hide *;
      ValidParts();
      ghost var entries := FileContent(disk.dir, files, segs, log, dropped, x);
      var messages, revs;
      dead, messages, revs, t, gone := LiveRecords(files[x], disk.dir[FileName(files[x])], live, t0, entries);
      JudgedAs(log, files[x].first, files[x].last, dropped, entries, gone, live, t0, t);
      LiveOfKept(log, files[x].first, files[x].last, dropped, gone);
      liveBytes := Weigh(messages);
      MeasuredIs(disk.dir, files, segs, log, dropped, x, entries, gone, liveBytes, live, t0, t);
    }

    /** The closed files at or below `through`, which come first. */
    method Eligible(through: nat) returns (eligible: seq<LogFile>)
      requires Valid()
      ensures |eligible| < |files| && eligible == files[..|eligible|]
      ensures forall x :: 0 <= x < |files| - 1 ==> (files[x].last <= through <==> x < |eligible|)
    {
      hide Good, Tidy, Bounded, AllRecover, CacheHolds, Cache.Valid;
      FilesInOrder(disk.dir, files, segs, log, dropped);
      eligible := [];
      for x := 0 to |files| - 1
        invariant |eligible| <= x && eligible == files[..|eligible|]
        invariant forall y :: 0 <= y < x ==> (files[y].last <= through <==> y < |eligible|)
      {
        assert |eligible| < x ==> files[|eligible|].last <= files[x].last;
        if files[x].last <= through {
          eligible := eligible + [files[x]];
        }
      }
    }

    /** Measure the first `n` files. Others go on meanwhile. */
    method MeasureAll(n: nat, live: Ask, world: World, t0: nat) returns (bytes: seq<nat>, dead: seq<nat>, t: nat,
                      ghost gone: seq<set<nat>>)
      requires Valid() && AllKeyed(log) && WorldFits(world) && n < |files|
      modifies this`files, this`segs, this`log, this`lastRevision, cache, disk
      ensures Valid() && AllKeyed(log) && Moved(old(files), old(log), files, log) && old(disk.crashes) <= disk.crashes
      ensures t0 <= t && |bytes| == |dead| == |gone| == n
      ensures AllMeasured(old(files), n, old(log), dropped, gone, bytes, live, t0, t)
      ensures forall x :: 0 <= x < n ==> dead[x] == |gone[x]|
    {
      hide *;
      ghost var was, base := files, log;
      ValidParts();
      FilesInOrder(disk.dir, files, segs, log, dropped);
      bytes, dead, gone, t := [], [], [], t0;
      MovedNot(files, log, disk.dir);
      NoneMeasured(was, base, dropped, live, t0);
      var x := 0;
      while x < n
        invariant 0 <= x <= n && |bytes| == |dead| == |gone| == x && t0 <= t
        invariant Valid() && AllKeyed(log) && Moved(was, base, files, log) && old(disk.crashes) <= disk.crashes
        invariant AllMeasured(was, x, base, dropped, gone, bytes, live, t0, t)
        invariant forall y :: 0 <= y < x ==> dead[y] == |gone[y]|
      {
        ghost var f, l, t1 := files, log, t;
        ClosedSame(was, base, files, log, x);
        WithinLog(was, |base|, x);
        var b, d;
        ghost var g;
        b, d, t, g := Measure(x, live, t);
        MeasuredNext(was, x, base, log, dropped, gone, bytes, live, t0, t1, t, g, b);
        bytes, dead, gone := bytes + [b], dead + [d], gone + [g];
        Meanwhile(world, t);
        t := t + 1;
        MovedAgain(was, base, f, l, files, log);
        x := x + 1;
      }
    }

    /** Rewrite a group of files, unless it is one that is still nearly all live. */
    method FlushGroup(at: nat, size: nat, dead: nat, live: Ask, world: World, t0: nat)
      returns (t: nat, ghost gone: set<nat>)
      requires Valid() && left == Nothing && AllKeyed(log) && WorldFits(world)
      requires 0 < size && at + size < |files| && files[at + size - 1].last <= point
      modifies this, cache, disk
      ensures Valid() && left == Nothing && AllKeyed(log) && found == old(found) && point == old(point)
      ensures old(log) <= log && old(disk.crashes) <= disk.crashes
      ensures Flushed(old(files), old(dropped), files, dropped, old(log), at, size, dead, gone, live, t0, t)
    {
      hide *;
      ValidParts();
      GroupBounds(disk.dir, files, segs, log, dropped, at, at + size);
      if size == 1 && FewDead(dead, |files[at].spans|) {
        LoneFlushed(files, dropped, log, at, dead, live, t0);
        return t0, {};
      }
      t, gone := CompactGroup(at, at + size, live, world, t0);
      GroupFlushed(old(files), old(dropped), files, dropped, old(log), at, size, dead, gone, live, t0, t);
    }

    /**
     Rewrite the closed files at or below `through` to hold only their live
     records, merging neighbours while their live bytes fit. Only records found
     dead are dropped; a file keeps dead ones only if it was left alone, and then
     they are none or fewer than a tenth. `live` answers as of the moment it is
     asked; others commit, rotate and read in between.
     */
    method Compact(through: nat, live: Ask, world: World, t0: nat) returns (t: nat, ghost job: Job, ghost cuts: seq<nat>)
      requires Valid() && left == Nothing && AllKeyed(log) && WorldFits(world)
      modifies this, cache, disk
      ensures Valid() && left == Nothing && AllKeyed(log) && found == old(found)
      ensures old(log) <= log && old(disk.crashes) <= disk.crashes
      ensures point == if old(point) < through then through else old(point)
      ensures job == Job(old(files), old(log), old(dropped), through, live, t0, job.gone, job.bytes)
      ensures Rewrote(job, files, dropped, t)
      ensures Packed(job.was, files, job.bytes, cuts, rotateBytes)
    {
      hide *;
      var eligible := Eligible(through);
      ghost var was, base := files, log;
      ValidParts();
      FilesInOrder(disk.dir, files, segs, log, dropped);
      var bytes, dead;
      ghost var gone;
      bytes, dead, t, gone := MeasureAll(|eligible|, live, world, t0);
      job := Job(was, base, dropped, through, live, t0, gone, bytes);
      RaisePoint(through);
      cuts := [];
      MovedLog(was, base, files, log);
      JobBegins(job, t);
      ProgressNone(job, files, log, t, rotateBytes);
      var at: nat, size: nat, groupBytes: nat, groupDead: nat, x := 0, 0, 0, 0, 0;
      while x < |eligible|
        invariant 0 <= x <= |eligible| == |job.gone| && Valid() && left == Nothing && AllKeyed(log)
        invariant found == old(found) && point == (if old(point) < through then through else old(point))
        invariant base <= log && old(disk.crashes) <= disk.crashes
        invariant size <= x && (groupBytes > 0 ==> size > 0) && (x > 0 ==> size > 0)
        invariant Progress(job, files, dropped, t, at, size, groupDead, x)
        invariant Packing(was, files, bytes, cuts, at, x - size, x, groupBytes, rotateBytes)
      {
        if groupBytes > 0 && groupBytes + bytes[x] > rotateBytes {
          ProgressBounds(job, files, dropped, t, at, size, groupDead, x);
          ghost var f, g, l, t1 := files, dropped, log, t;
          ghost var lost;
          t, lost := FlushGroup(at, size, groupDead, live, world, t);
          FlushedEarlier(f, g, files, dropped, base, l, at, size, groupDead, lost, live, t1, t);
          ProgressFlush(job, f, g, files, dropped, t1, t, at, size, groupDead, x, lost);
          PackingFlush(was, f, files, bytes, cuts, at, x - size, x, groupBytes, rotateBytes);
          cuts := cuts + [x - size];
          at, size, groupBytes, groupDead := at + 1, 0, 0, 0;
        }
        ProgressTake(job, files, dropped, t, at, size, groupDead, x, dead[x]);
        PackingTake(was, files, bytes, cuts, at, x - size, x, groupBytes, rotateBytes);
        size, groupBytes, groupDead := size + 1, groupBytes + bytes[x], groupDead + dead[x];
        x := x + 1;
      }
      if size > 0 {
        ProgressBounds(job, files, dropped, t, at, size, groupDead, x);
        ghost var f, g, l, t1 := files, dropped, log, t;
        ghost var lost;
        t, lost := FlushGroup(at, size, groupDead, live, world, t);
        FlushedEarlier(f, g, files, dropped, base, l, at, size, groupDead, lost, live, t1, t);
        ProgressFlush(job, f, g, files, dropped, t1, t, at, size, groupDead, x, lost);
        PackingLast(was, f, files, bytes, cuts, at, x - size, groupBytes, rotateBytes);
        cuts := cuts + [x - size];
        at, size, groupDead := at + 1, 0, 0;
      } else {
        NothingPacked(was, files, bytes, cuts, at, groupBytes, rotateBytes);
      }
      ProgressDone(job, files, dropped, t, at, groupDead);
    }

    /** Compaction is under way for this point. */
    ghost method RaisePoint(through: nat)
      requires Valid()
      modifies this`point
      ensures Valid() && point == if old(point) < through then through else old(point)
    {
      hide Good, Tidy, AllRecover, CacheHolds, Cache.Valid;
      point := if point < through then through else point;
    }

    /** The records of one file from a revision on, until the callback has had enough. */
    method ReadFile(f: LogFile, from: nat, more: (nat, WireRecord) -> bool, ghost entries: seq<Entry>)
      returns (taken: seq<Entry>, stopped: bool)
      requires FileName(f) in disk.dir && Describes(f, entries, disk.dir[FileName(f)])
      ensures TakenFrom(taken, stopped, Since(entries, from), more)
    {
      hide Describes, Since, TakenFrom, Scan, Decode, RevisionsOf, FileName, RecordOk, Message;
      DescribesOk(f, entries, disk.dir[FileName(f)]);
      DescribesScan(f, entries, disk.dir[FileName(f)]);
      var data := disk.dir[FileName(f)][..f.size];
      var scanned := Offsets(data);
      taken, stopped := [], false;
      TakenNone(entries, from, more);
      for j := 0 to |scanned.value.spans|
        invariant |entries| == |scanned.value.spans| && !stopped
        invariant TakenFrom(taken, false, Since(entries[..j], from), more)
      {
        SpanIsRecord(f, entries, disk.dir[FileName(f)], j);
        TakenNext(taken, entries, from, more, j);
        if scanned.value.revisions[j] >= from {
          var span := scanned.value.spans[j];
          var record := DecodeAlias(data[span.offset..span.offset + span.length]);
          taken := taken + [Entry(scanned.value.revisions[j], record.value)];
          if !more(scanned.value.revisions[j], record.value) {
            return taken, true;
          }
        }
      }
      assert entries[..|entries|] == entries;
    }

    /** The records from a revision on, in order, until the callback has had enough. */
    method Read(from: nat, more: (nat, WireRecord) -> bool) returns (taken: seq<Entry>, stopped: bool)
      requires Valid()
      ensures TakenFrom(taken, stopped, Kept(log, if from == 0 then 1 else from, |log|, dropped), more)
    {
      hide Good, Tidy, Bounded, AllRecover, CacheHolds, Cache.Valid, TakenFrom, Since, Kept, Describes, FileName, InOrder;
      GoodCount(disk.dir, files, segs, log, dropped);
      taken, stopped := [], false;
      TakenNone([], from, more);
      KeptNone(log, 1, dropped);
      ghost var reached := 0;
      for x := 0 to |files|
        invariant |files| == |segs| && !stopped
        invariant reached == (if x == 0 then 0 else segs[x - 1].last) && reached <= |log|
        invariant TakenFrom(taken, false, Since(Kept(log, 1, reached, dropped), from), more)
      {
        ghost var entries := FileEntries(disk.dir, files, segs, log, dropped, x, reached);
        var f := files[x];
        if |f.spans| == 0 || f.last < from {
          NoneSince(entries, from, f.last);
          TakenMore(taken, [], false, log, dropped, reached, segs[x].last, from, more, entries);
        } else {
          var t;
          t, stopped := ReadFile(f, from, more, entries);
          TakenMore(taken, t, stopped, log, dropped, reached, segs[x].last, from, more, entries);
          taken := taken + t;
          if stopped {
            SinceKept(log, from, |log|, dropped);
            return;
          }
        }
        reached := segs[x].last;
      }
      LastReached(disk.dir, files, segs, log, dropped);
      SinceKept(log, from, |log|, dropped);
    }

    /** The log files of the directory, sorted, with superseded ones removed. */
    method ListFiles(names: seq<Name>) returns (kept: seq<Name>)
      modifies disk`dir, disk`crashes
      ensures kept == KeepFiles(names)
      ensures disk.dir == old(disk.dir) - Removed(names)
      ensures disk.crashes == old(disk.crashes) + RemovalStates(old(disk.dir), names, |names|, disk.acked)
    {
      hide Supersedes, KeepFiles, Removed, RemovalStates;
      kept := [];
      NothingRemoved(disk.dir, names, disk.acked);
      for x := 0 to |names|
        invariant kept == KeepFiles(names[..x])
        invariant disk.dir == old(disk.dir) - Removed(names[..x])
        invariant disk.crashes == old(disk.crashes) + RemovalStates(old(disk.dir), names, x, disk.acked)
      {
        KeepNext(names, x);
        RemovalStatesNext(old(disk.dir), names, x, disk.acked);
        if kept != [] && Supersedes(kept[|kept| - 1], names[x]) {
          disk.Remove(names[x]);
        } else {
          kept := kept + [names[x]];
        }
      }
      assert names[..|names|] == names;
    }

    /** Scan the files, check that they follow one another, and cut a torn record off the last. */
    method IndexFiles(kept: seq<Name>) returns (r: Result<seq<LogFile>>)
      requires forall i :: 0 <= i < |kept| ==> IsLogFile(kept[i]) && kept[i] in disk.dir
      modifies disk`dir, disk`crashes
      ensures r == OpenFiles(kept, |kept|, old(disk.dir))
      ensures r.Ok? && kept != [] ==> r.value != [] && disk.dir == Trimmed(old(disk.dir), kept[|kept| - 1],
          r.value[|r.value| - 1].size)
      ensures r.Ok? && kept == [] ==> disk.dir == old(disk.dir)
      ensures old(disk.crashes) <= disk.crashes <= old(disk.crashes) + iset{(disk.dir, disk.acked)}
    {
      hide OpenFiles, Scan, SparseOk, DenseOk;
      var files: seq<LogFile> := [];
      ghost var was := disk.dir;
      OpenFilesNone(|kept|, was);
      for i := 0 to |kept|
        invariant forall j :: 0 <= j < |kept| ==> kept[j] in was
        invariant OpenFiles(kept[..i], |kept|, was) == Ok(files) && |files| == i
        invariant i < |kept| ==> disk.dir == was
        invariant i == |kept| && i > 0 ==> disk.dir == Trimmed(was, kept[i - 1], files[i - 1].size)
        invariant i == |kept| == 0 ==> disk.dir == was
        invariant i < |kept| ==> disk.crashes == old(disk.crashes)
        invariant old(disk.crashes) <= disk.crashes <= old(disk.crashes) + iset{(disk.dir, disk.acked)}
      {
        var n := kept[i];
        var data := disk.dir[n];
        var next := if files == [] then 1 else files[|files| - 1].last + 1;
        OpenFilesNext(kept, i, was, files, next);
        var s := ScanFile(data);
        if s.Err? {
          return Err;
        }
        if s.value.complete < |data| {
          if i < |kept| - 1 || n.Sparse? {
            return Err;
          }
          disk.Truncate(n, s.value.complete);
        }
        var inOrder := CheckRevisions(n, s.value.revisions);
        if !inOrder || n.first != next {
          return Err;
        }
        var last := if n.Sparse? then n.last else n.first + |s.value.revisions| - 1;
        files := files + [LogFile(n.first, last, n.Sparse?, s.value.complete, s.value.spans,
            if n.Sparse? then s.value.revisions else [])];
      }
      assert kept[..|kept|] == kept;
      r := Ok(files);
    }

    /** The directory has been read; only an active file may be missing. */
    ghost predicate Loaded()
      reads this, disk
    {
      && Tidy(disk.dir, segs, log, dropped, [], left) && left == Nothing && found == dropped
      && Contiguous(segs, |log|) && LogFits(log) && files == FilesOf(segs, log, dropped)
      && lastRevision == |log| && disk.acked <= |log|
      && AllRecover(disk.crashes, log, dropped)
      && (files == [] || files[|files| - 1].sparse ==> Ready())
      && (files != [] && !files[|files| - 1].sparse ==> Good(disk.dir, files, segs, log, dropped))
    }

    /** List the directory, index its files and repair a torn tail. */
    method ReadDirectory(names: seq<Name>) returns (r: Result<seq<LogFile>>)
      requires disk.crashes == iset{} && IsListing(names, disk.dir)
      modifies disk`dir, disk`crashes
      ensures r == OpenResult(names, old(disk.dir))
      ensures r.Ok? && KeepFiles(names) != [] ==>
                && r.value != []
                && KeepFiles(names)[|KeepFiles(names)| - 1] in old(disk.dir) - Removed(names)
      ensures r.Ok? ==> disk.dir == AfterIndex(old(disk.dir) - Removed(names), KeepFiles(names), r.value)
      ensures disk.crashes <= RemovalStates(old(disk.dir), names, |names|, disk.acked) + iset{(disk.dir, disk.acked)}
    {
      hide IsListing, KeepFiles, Removed, RemovalStates, OpenFiles, Trimmed, OpenResult;
      ghost var d := disk.dir;
      KeptListed(names, d);
      var kept := ListFiles(names);
      r := IndexFiles(kept);
      OpenResultIs(names, d, r);
    }

    /** Build the index from the directory. */
    method LoadFiles(names: seq<Name>, ghost all: seq<WireRecord>, ghost gone: set<nat>) returns (ok: bool)
      requires Closed() && disk.crashes == iset{} && IsListing(names, disk.dir)
      modifies this, disk`dir, disk`crashes
      ensures ok <==> OpenResult(names, old(disk.dir)).Ok?
      ensures Recovers(old(disk.dir), disk.acked, all, gone) ==>
                ok && Loaded() && |log| <= |all| && log == all[..|log|] && dropped <= gone
    {
      hide *;
      ghost var d, n := disk.dir, disk.acked;
      ghost var good := Recovers(d, n, all, gone);
      NothingYet();
      var r := ReadDirectory(names);
      ghost var whole, lost, held := WhatIsFound(good, names, d, n, all, gone);
      if r.Err? {
        return false;
      }
      files := r.value;
      if files != [] {
        lastRevision := files[|files| - 1].last;
      }
      segs, log, dropped, left, found, point := held, whole, lost, Nothing, lost, 0;
      if good {
        OpenedIs(d, n, names, segs, log, dropped, files, disk.dir, disk.crashes);
        LoadedIf();
      }
      ok := true;
    }

    lemma NothingYet()
      requires Closed()
      ensures files == [] && lastRevision == 0
    {
    }

    lemma LoadedIf()
      requires Layout(disk.dir, segs, log, dropped, []) && NoOthers(disk.dir, segs) && UpTo(dropped, |log|)
      requires left == Nothing && found == dropped
      requires Contiguous(segs, |log|) && LogFits(log) && files == FilesOf(segs, log, dropped)
      requires lastRevision == |log| && disk.acked <= |log|
      requires AllRecover(disk.crashes, log, dropped)
      requires |files| == |segs|
      requires files != [] && files[|files| - 1].sparse ==> segs[|segs| - 1].first <= segs[|segs| - 1].last
      requires files != [] && !files[|files| - 1].sparse ==> Good(disk.dir, files, segs, log, dropped)
      ensures Loaded()
    {
      hide Layout, NoOthers, UpTo, Contiguous, LogFits, FilesOf, AllRecover, Good;
    }

    /**
     Open the directory and make sure there is an active file. A directory that
     a crash left, with `disk.acked` of the records of `all` acknowledged, opens
     to a prefix of `all` that has them; only records in `gone` are missing.
     */
    method Open(names: seq<Name>, ghost all: seq<WireRecord>, ghost gone: set<nat>) returns (ok: bool)
      requires Closed() && disk.crashes == iset{} && IsListing(names, disk.dir)
      modifies this, disk
      ensures Recovers(old(disk.dir), old(disk.acked), all, gone) ==>
                && ok && Valid() && left == Nothing && found == dropped
                && old(disk.acked) <= |log| <= |all| && log == all[..|log|] && dropped <= gone
      ensures OpenResult(names, old(disk.dir)).Err? ==> !ok
    {
      hide Recovers, Good, AllRecover, CacheHolds, Cache.Valid, IsListing, NewFile, OpenResult, Ready,
           Tidy, Bounded, Contiguous, LogFits, FilesOf;
      ghost var n := disk.acked;
      ghost var good := Recovers(disk.dir, n, all, gone);
      ok := LoadFiles(names, all, gone);
      if !ok {
        return;
      }
      if files == [] || files[|files| - 1].sparse {
        ghost var before := disk.crashes;
        ok := NewActiveFile();
        if !ok {
          return;
        }
        if good {
          OpenRecovers(disk.dir, segs, n, log, dropped);
          AllRecoverOne(disk.dir, n, log, dropped);
          AllRecoverSum(before, iset{(disk.dir, n)}, log, dropped);
        }
      }
      if good {
        OpenRecovers(disk.dir, segs, |log|, log, dropped);
        AllRecoverOne(disk.dir, |log|, log, dropped);
        AllRecoverSum(disk.crashes, iset{(disk.dir, |log|)}, log, dropped);
        NothingCached(log, files, dropped, point);
      }
      disk.Acknowledge(|log|);
    }
  }

  /** What opening the directory, listed as `names`, gives. */
  ghost function OpenResult(names: seq<Name>, d: Directory): Result<seq<LogFile>>
    requires IsListing(names, d)
  {
    KeptListed(names, d);
    OpenFiles(KeepFiles(names), |KeepFiles(names)|, d - Removed(names))
  }

  lemma OpenResultIs(names: seq<Name>, d: Directory, r: Result<seq<LogFile>>)
    requires IsListing(names, d)
    requires forall i :: 0 <= i < |KeepFiles(names)| ==> IsLogFile(KeepFiles(names)[i]) && KeepFiles(names)[i] in d - Removed(names)
    requires r == OpenFiles(KeepFiles(names), |KeepFiles(names)|, d - Removed(names))
    ensures r == OpenResult(names, d)
  {
  }

  lemma {:induction false} KeptNotRemoved(names: seq<Name>, a: Name)
    requires forall i, j :: 0 <= i < j < |names| ==> names[i] != names[j]
    ensures a in KeepFiles(names) ==> a in names && a !in Removed(names)
    ensures a in Removed(names) ==> a in names
    decreases |names|
  {
    hide Supersedes;
    if names != [] {
      KeptNotRemoved(names[..|names| - 1], a);
      assert names == names[..|names| - 1] + [names[|names| - 1]];
      assert names[|names| - 1] !in names[..|names| - 1];
    }
  }

  lemma KeptListed(names: seq<Name>, d: Directory)
    requires IsListing(names, d)
    ensures forall i :: 0 <= i < |KeepFiles(names)| ==> IsLogFile(KeepFiles(names)[i]) && KeepFiles(names)[i] in d - Removed(names)
  {
    hide KeepFiles, Removed;
    forall i | 0 <= i < |KeepFiles(names)|
      ensures IsLogFile(KeepFiles(names)[i]) && KeepFiles(names)[i] in d - Removed(names)
    {
      KeptNotRemoved(names, KeepFiles(names)[i]);
    }
  }

  /** The directory, listed as `names`, holds this log. */
  ghost predicate Opening(names: seq<Name>, d: Directory, n: nat, log: seq<WireRecord>, dropped: set<nat>,
                          segs: seq<Segment>) {
    exists i: nat, tail: Bytestring :: Found(names, d, n, log, dropped, segs, i, |log|, dropped, tail)
  }

  lemma WhatIsFound(good: bool, names: seq<Name>, d: Directory, n: nat, all: seq<WireRecord>, gone: set<nat>)
    returns (log: seq<WireRecord>, dropped: set<nat>, segs: seq<Segment>)
    requires IsListing(names, d) && (good ==> Recovers(d, n, all, gone))
    ensures good ==> Opening(names, d, n, log, dropped, segs) && |KeepFiles(names)| == |segs|
    ensures good ==> n <= |log| <= |all| && log == all[..|log|] && dropped <= gone
    ensures good ==> Contiguous(segs, |log|) && LogFits(log) && OpenResult(names, d) == Ok(FilesOf(segs, log, dropped))
  {
    hide IsListing, Layout, KeepFiles, AllButSuperseded, OneTie, OpenResult, FilesOf, Contiguous, LogFits;
    log, dropped, segs := [], {}, [];
    if good {
      assert FoundBy(names, d, n, all, gone);
      var held: seq<Segment>, i: nat, w: nat, g: set<nat>, tail: Bytestring :|
        Found(names, d, n, all, gone, held, i, w, g, tail);
      log, dropped, segs := all[..w], g, held;
      assert log[..|log|] == log;
      assert Found(names, d, n, log, dropped, segs, i, |log|, dropped, tail);
      LayoutContiguous(d, segs, log, dropped, tail);
      OpensAll(names, d, n, log, dropped, segs, i, tail);
    }
  }

  /** Removing the superseded files leaves the layout. */
  lemma LayoutLeft(names: seq<Name>, d: Directory, segs: seq<Segment>, log: seq<WireRecord>, dropped: set<nat>,
                   tail: Bytestring)
    requires IsListing(names, d) && KeepFiles(names) == SegNames(segs) && Layout(d, segs, log, dropped, tail)
    ensures Layout(d - Removed(names), segs, log, dropped, tail)
  {
    hide Layout, KeepFiles, Removed;
    forall a | a in SegNames(segs) && a in d
      ensures a in d - Removed(names)
    {
      KeptNotRemoved(names, a);
    }
    LayoutSame(d, d - Removed(names), segs, log, dropped, tail);
  }

  lemma OpensAll(names: seq<Name>, d: Directory, n: nat, log: seq<WireRecord>, dropped: set<nat>, segs: seq<Segment>,
                 i: nat, tail: Bytestring)
    requires IsListing(names, d) && Found(names, d, n, log, dropped, segs, i, |log|, dropped, tail)
    requires Contiguous(segs, |log|) && LogFits(log)
    ensures OpenResult(names, d) == Ok(FilesOf(segs, log, dropped))
  {
    hide IsListing, Layout, KeepFiles, AllButSuperseded, OneTie, OpenFiles, FilesOf, Contiguous, LogFits, Removed;
    assert log[..|log|] == log;
    LayoutLeft(names, d, segs, log, dropped, tail);
    OpenSegments(d - Removed(names), segs, log, dropped, tail, |segs|);
    assert segs[..|segs|] == segs;
    LayoutBounds(segs, |log|);
  }

  /** The directory once the files are indexed and the last is cut to its whole records. */
  ghost function AfterIndex(e: Directory, kept: seq<Name>, files: seq<LogFile>): Directory
    requires kept != [] ==> files != [] && kept[|kept| - 1] in e
  {
    if kept == [] then e else Trimmed(e, kept[|kept| - 1], files[|files| - 1].size)
  }

  lemma CutHolds(e: Directory, s: Segment, log: seq<WireRecord>, dropped: set<nat>, tail: Bytestring)
    requires SegmentOk(s, |log|) && LogFits(log) && Holds(e, s, log, dropped, tail)
    ensures SegName(s) in e && Holds(Trimmed(e, SegName(s), FileOf(s, log, dropped).size), s, log, dropped, [])
  {
    hide LogFits, Kept, Frames, SpansAt, EntriesOk;
    var c := Content(s, log, dropped);
    KeptFits(log, s.first, s.last, dropped);
    EntriesAreRecords(c);
    assert (File(c) + tail)[..|File(c)|] == File(c);
    assert File(c) + [] == File(c);
  }

  lemma ElseKept(e: Directory, a: Name, size: nat, s: Segment, log: seq<WireRecord>, dropped: set<nat>)
    requires SegmentOk(s, |log|) && LogFits(log) && Holds(e, s, log, dropped, []) && a in e && a != SegName(s)
    ensures Holds(Trimmed(e, a, size), s, log, dropped, [])
  {
    hide LogFits, Kept, File;
  }

  /** Cutting the torn tail off leaves the records. */
  lemma LayoutTrimmed(e: Directory, segs: seq<Segment>, log: seq<WireRecord>, dropped: set<nat>, tail: Bytestring)
    requires Layout(e, segs, log, dropped, tail) && segs != []
    requires Contiguous(segs, |log|) && LogFits(log)
    ensures SegName(segs[|segs| - 1]) in e
    ensures var s := segs[|segs| - 1];
            && SegmentOk(s, |log|)
            && Layout(Trimmed(e, SegName(s), FileOf(s, log, dropped).size), segs, log, dropped, [])
  {
    hide LogFits, Holds, Whole, FileOf, Trimmed, Torn;
    var k := |segs| - 1;
    LayoutHas(e, segs, log, dropped, tail, k);
    CutHolds(e, segs[k], log, dropped, tail);
    var d2 := Trimmed(e, SegName(segs[k]), FileOf(segs[k], log, dropped).size);
    forall i | 0 <= i < |segs|
      ensures Holds(d2, segs[i], log, dropped, [])
    {
      if i < k {
        LayoutHas(e, segs, log, dropped, tail, i);
        SegmentsAscend(segs, |log|, i, k);
        ElseKept(e, SegName(segs[k]), FileOf(segs[k], log, dropped).size, segs[i], log, dropped);
      }
    }
    NothingTorn();
  }

  lemma LeftNames(names: seq<Name>, d: Directory, segs: seq<Segment>, n: nat, i: nat)
    requires IsListing(names, d) && Contiguous(segs, n) && AllButSuperseded(names, segs, i)
    ensures NoOthers(d - Removed(names), segs)
  {
    hide Contiguous, AllButSuperseded, Removed, Survivors;
    ListingSorted(names, d);
    SurvivorsAre(names, segs, n, i);
    assert names[..|names|] == names;
    forall a | a in d - Removed(names) && IsLogFile(a)
      ensures a in SegNames(segs)
    {
      RemovedAre(names, SegNames(segs), |names|, a);
    }
  }

  /** Opening a directory and repairing it: what it then holds, and that a crash meanwhile did no harm. */
  lemma IndexedIs(d: Directory, n: nat, names: seq<Name>, segs: seq<Segment>, log: seq<WireRecord>, dropped: set<nat>,
                  files: seq<LogFile>)
    requires IsListing(names, d) && Opening(names, d, n, log, dropped, segs)
    requires Contiguous(segs, |log|) && LogFits(log) && files == FilesOf(segs, log, dropped)
    ensures |KeepFiles(names)| == |files| == |segs|
    ensures KeepFiles(names) != [] ==> KeepFiles(names)[|segs| - 1] in d - Removed(names)
    ensures n <= |log| && UpTo(dropped, |log|)
    ensures var d2 := AfterIndex(d - Removed(names), KeepFiles(names), files);
            Layout(d2, segs, log, dropped, []) && NoOthers(d2, segs)
  {
    hide IsListing, Layout, KeepFiles, AllButSuperseded, OneTie, FileOf, Contiguous, LogFits, Removed, UpTo;
    var i: nat, tail: Bytestring :| Found(names, d, n, log, dropped, segs, i, |log|, dropped, tail);
    assert log[..|log|] == log;
    var e := d - Removed(names);
    LayoutLeft(names, d, segs, log, dropped, tail);
    LeftNames(names, d, segs, |log|, i);
    if segs != [] {
      LayoutTrimmed(e, segs, log, dropped, tail);
      assert KeepFiles(names)[|segs| - 1] == SegName(segs[|segs| - 1]);
    } else {
      NoTail(e, log, dropped, tail);
    }
  }

  lemma NoTail(e: Directory, log: seq<WireRecord>, dropped: set<nat>, tail: Bytestring)
    requires Layout(e, [], log, dropped, tail)
    ensures tail == []
  {
  }

  lemma RemovalStatesRecover(names: seq<Name>, d: Directory, n: nat, log: seq<WireRecord>, dropped: set<nat>,
                             segs: seq<Segment>)
    requires IsListing(names, d) && Opening(names, d, n, log, dropped, segs)
    ensures AllRecover(RemovalStates(d, names, |names|, n), log, dropped)
  {
    hide IsListing, Found, Removed;
    var i: nat, tail: Bytestring :| Found(names, d, n, log, dropped, segs, i, |log|, dropped, tail);
    forall e, m | (e, m) in RemovalStates(d, names, |names|, n)
      ensures Recovers(e, m, log, dropped)
    {
      var x: nat :| x <= |names| && RemovalState(d, names, x, n, (e, m));
      forall again | IsListing(again, e)
        ensures FoundBy(again, e, m, log, dropped)
      {
        RemovalFound(names, d, n, log, dropped, segs, i, |log|, dropped, tail, x, again);
      }
    }
  }

  lemma OpenedIs(d: Directory, n: nat, names: seq<Name>, segs: seq<Segment>, log: seq<WireRecord>, dropped: set<nat>,
                 files: seq<LogFile>, d2: Directory, crashes: iset<Crash>)
    requires IsListing(names, d) && Opening(names, d, n, log, dropped, segs)
    requires Contiguous(segs, |log|) && LogFits(log) && files == FilesOf(segs, log, dropped)
    requires |KeepFiles(names)| == |segs|
    requires KeepFiles(names) != [] ==> KeepFiles(names)[|segs| - 1] in d - Removed(names)
    requires d2 == AfterIndex(d - Removed(names), KeepFiles(names), files)
    requires crashes <= RemovalStates(d, names, |names|, n) + iset{(d2, n)}
    ensures Layout(d2, segs, log, dropped, []) && NoOthers(d2, segs) && UpTo(dropped, |log|) && n <= |log|
    ensures AllRecover(crashes, log, dropped)
    ensures |files| == |segs| && (files == [] ==> |log| == 0)
    ensures files != [] ==> files[|files| - 1].last == |log|
    ensures files != [] && files[|files| - 1].sparse ==> segs[|segs| - 1].first <= segs[|segs| - 1].last
    ensures files != [] && !files[|files| - 1].sparse ==> Good(d2, files, segs, log, dropped)
  {
    hide IsListing, Layout, KeepFiles, FileOf, LogFits, Removed, UpTo, Opening, AfterIndex, NoOthers, RemovalStates, Recovers;
    IndexedIs(d, n, names, segs, log, dropped, files);
    RemovalStatesRecover(names, d, n, log, dropped, segs);
    assert log[..|log|] == log;
    CleanRecovers(d2, segs, n, |log|, log, dropped, []);
    AllRecoverOne(d2, n, log, dropped);
    AllRecoverSum(RemovalStates(d, names, |names|, n), iset{(d2, n)}, log, dropped);
    if segs != [] {
      FileOfName(segs[|segs| - 1], log, dropped);
    }
  }

  lemma OpenRecovers(d: Directory, segs: seq<Segment>, n: nat, log: seq<WireRecord>, dropped: set<nat>)
    requires Tidy(d, segs, log, dropped, [], Nothing) && n <= |log|
    ensures Recovers(d, n, log, dropped)
  {
    hide Tidy, Recovers;
    assert log[..|log|] == log;
    TidyRecovers(d, segs, n, |log|, log, dropped, [], Nothing);
  }

  lemma NothingCached(log: seq<WireRecord>, files: seq<LogFile>, dropped: set<nat>, point: nat)
    ensures CacheHolds([], log) && Bounded(files, dropped, dropped, point)
  {
  }

  /** A directory with one file cut to a size. */
  function Trimmed(d: Directory, a: Name, size: nat): Directory
    requires a in d
  {
    if size < |d[a]| then d[a := d[a][..size]] else d
  }

  lemma OpenFilesNone(total: nat, d: Directory)
    ensures OpenFiles([], total, d) == Ok([])
  {
  }

  /** Opening one more file. */
  lemma OpenFilesNext(kept: seq<Name>, i: nat, d: Directory, files: seq<LogFile>, next: nat)
    requires i < |kept| && forall j :: 0 <= j < |kept| ==> IsLogFile(kept[j]) && kept[j] in d
    requires OpenFiles(kept[..i], |kept|, d) == Ok(files)
    requires next == if files == [] then 1 else files[|files| - 1].last + 1
    ensures var f := OpenFile(kept[i], d[kept[i]], i == |kept| - 1, next);
            && OpenFiles(kept[..i + 1], |kept|, d) == (if f.Err? then Err else Ok(files + [f.value]))
            && (f.Err? ==> OpenFiles(kept, |kept|, d) == Err)
  {
    hide OpenFile;
    assert kept[..i + 1][..i] == kept[..i];
    if OpenFiles(kept[..i + 1], |kept|, d).Err? {
      StaysErr(kept, i + 1, |kept|, d);
      assert kept[..|kept|] == kept;
    }
  }

  lemma {:induction false} StaysErr(kept: seq<Name>, i: nat, j: nat, d: Directory)
    requires i <= j <= |kept| && forall k :: 0 <= k < |kept| ==> IsLogFile(kept[k]) && kept[k] in d
    requires OpenFiles(kept[..i], |kept|, d).Err?
    ensures OpenFiles(kept[..j], |kept|, d).Err?
    decreases j
  {
    hide OpenFile;
    if i < j {
      StaysErr(kept, i, j - 1, d);
      assert kept[..j][..j - 1] == kept[..j - 1];
    }
  }

  /** A sparse file's revisions ascend within its range; a dense one's follow from its first. */
  method CheckRevisions(n: Name, revisions: seq<nat>) returns (ok: bool)
    requires IsLogFile(n)
    ensures ok == if n.Sparse? then SparseOk(revisions, n.first, n.last) else DenseOk(revisions, n.first)
  {
    for j := 0 to |revisions|
      invariant if n.Sparse? then SparseOk(revisions[..j], n.first, n.last) else DenseOk(revisions[..j], n.first)
    {
      var r := revisions[j];
      if n.Sparse? {
        if r < n.first || r > n.last || (j > 0 && r <= revisions[j - 1]) {
          return false;
        }
      } else {
        if r != n.first + j {
          return false;
        }
      }
    }
    assert revisions[..|revisions|] == revisions;
    ok := true;
  }

  /** Where the removal of superseded files may be cut off. */
  ghost function RemovalStates(d: Directory, names: seq<Name>, m: nat, n: nat): iset<Crash>
    requires m <= |names|
  {
    iset c: Crash | SomeRemovalState(d, names, m, n, c)
  }

  ghost predicate SomeRemovalState(d: Directory, names: seq<Name>, m: nat, n: nat, c: Crash) {
    exists x: nat :: x <= m && RemovalState(d, names, x, n, c)
  }

  ghost predicate RemovalState(d: Directory, names: seq<Name>, x: nat, n: nat, c: Crash) {
    x <= |names| && Removed(names[..x]) != {} && c == (d - Removed(names[..x]), n)
  }

  lemma NothingRemoved(d: Directory, names: seq<Name>, n: nat)
    ensures RemovalStates(d, names, 0, n) == iset{}
    ensures KeepFiles(names[..0]) == [] && Removed(names[..0]) == {}
  {
  }

  lemma KeepNext(names: seq<Name>, x: nat)
    requires x < |names|
    ensures var kept := KeepFiles(names[..x]);
            if kept != [] && Supersedes(kept[|kept| - 1], names[x])
            then KeepFiles(names[..x + 1]) == kept && Removed(names[..x + 1]) == Removed(names[..x]) + {names[x]}
            else KeepFiles(names[..x + 1]) == kept + [names[x]] && Removed(names[..x + 1]) == Removed(names[..x])
  {
    hide Supersedes;
    assert names[..x + 1][..x] == names[..x];
  }

  lemma RemovalStatesNext(d: Directory, names: seq<Name>, x: nat, n: nat)
    requires x < |names|
    ensures var kept := KeepFiles(names[..x]);
            var r := RemovalStates(d, names, x, n);
            RemovalStates(d, names, x + 1, n) ==
            if kept != [] && Supersedes(kept[|kept| - 1], names[x]) then r + iset{(d - Removed(names[..x + 1]), n)} else r
  {
    hide Supersedes;
    assert names[..x + 1][..x] == names[..x];
    var kept := KeepFiles(names[..x]);
    var superseded := kept != [] && Supersedes(kept[|kept| - 1], names[x]);
    assert superseded ==> names[x] in Removed(names[..x + 1]);
    assert !superseded ==> Removed(names[..x + 1]) == Removed(names[..x]);
    forall c
      ensures c in RemovalStates(d, names, x + 1, n) <==>
              c in RemovalStates(d, names, x, n) || (superseded && c == (d - Removed(names[..x + 1]), n))
    {
      if superseded && c == (d - Removed(names[..x + 1]), n) {
        assert RemovalState(d, names, x + 1, n, c);
      } else if c in RemovalStates(d, names, x + 1, n) {
        var y: nat :| y <= x + 1 && RemovalState(d, names, y, n, c);
        assert RemovalState(d, names, if y <= x then y else x, n, c);
      }
    }
  }

  lemma LastReached(d: Directory, files: seq<LogFile>, segs: seq<Segment>, log: seq<WireRecord>, dropped: set<nat>)
    requires Good(d, files, segs, log, dropped)
    ensures segs != [] && segs[|segs| - 1].last == |log|
  {
  }

  /** What a file holds, and where it starts. */
  lemma FileEntries(d: Directory, files: seq<LogFile>, segs: seq<Segment>, log: seq<WireRecord>, dropped: set<nat>,
                    x: nat, reached: nat)
    returns (entries: seq<Entry>)
    requires Good(d, files, segs, log, dropped) && x < |files| == |segs|
    requires reached == if x == 0 then 0 else segs[x - 1].last
    ensures FileName(files[x]) in d && Describes(files[x], entries, d[FileName(files[x])])
    ensures segs[x].first == reached + 1 && reached <= segs[x].last <= |log|
    ensures entries == Kept(log, reached + 1, segs[x].last, dropped)
    ensures |files[x].spans| == |entries|
    ensures forall k :: 0 <= k < |entries| ==> entries[k].revision <= files[x].last
  {
    hide Good, LogFits, FileOf, Holds, Whole, Contiguous, Kept, Describes;
    GoodFile(d, files, segs, log, dropped, x);
    SegmentStarts(segs, |log|, x);
    FileDescribes(d, segs[x], log, dropped);
    FileOfName(segs[x], log, dropped);
    entries := Content(segs[x], log, dropped);
    DescribesOk(files[x], entries, d[FileName(files[x])]);
    forall k | 0 <= k < |entries|
      ensures entries[k].revision <= files[x].last
    {
      KeptBelow(log, segs[x].first, segs[x].last, dropped, entries[k]);
    }
  }

  lemma {:induction false} NoneSince(entries: seq<Entry>, from: nat, last: nat)
    requires forall k :: 0 <= k < |entries| ==> entries[k].revision <= last
    requires entries == [] || last < from
    ensures Since(entries, from) == []
    decreases |entries|
  {
    if entries != [] {
      NoneSince(entries[..|entries| - 1], from, last);
    }
  }

  /** Reading on through the next file. */
  lemma TakenMore(taken: seq<Entry>, t: seq<Entry>, stopped: bool, log: seq<WireRecord>, dropped: set<nat>,
                  reached: nat, last: nat, from: nat, more: (nat, WireRecord) -> bool, entries: seq<Entry>)
    requires reached <= last <= |log|
    requires TakenFrom(taken, false, Since(Kept(log, 1, reached, dropped), from), more)
    requires entries == Kept(log, reached + 1, last, dropped)
    requires TakenFrom(t, stopped, Since(entries, from), more) || (t == [] && !stopped && Since(entries, from) == [])
    ensures !stopped ==> TakenFrom(taken + t, false, Since(Kept(log, 1, last, dropped), from), more)
    ensures stopped ==> TakenFrom(taken + t, true, Since(Kept(log, 1, |log|, dropped), from), more)
    ensures t == [] ==> taken + t == taken
  {
    hide Kept, Since;
    KeptSplits(log, 1, reached, last, dropped);
    KeptSplits(log, 1, last, |log|, dropped);
    SinceConcat(Kept(log, 1, reached, dropped), entries, from);
    SinceConcat(Kept(log, 1, last, dropped), Kept(log, last + 1, |log|, dropped), from);
  }

  lemma {:induction false} SinceKept(log: seq<WireRecord>, from: nat, last: nat, dropped: set<nat>)
    requires last <= |log|
    ensures Since(Kept(log, 1, last, dropped), from) == Kept(log, if from == 0 then 1 else from, last, dropped)
    decreases last
  {
    if last > 0 {
      SinceKept(log, from, last - 1, dropped);
      var k := Kept(log, 1, last - 1, dropped);
      var e := Entry(last, log[last - 1]);
      assert Kept(log, 1, last, dropped) == if last in dropped then k else k + [e];
      assert (k + [e])[..|k|] == k;
      assert Since(k + [e], from) == Since(k, from) + if last >= from then [e] else [];
    }
  }

  // ---------------------------------------------------------------------
  // Reading in order

  /** The entries at or after a revision. */
  function Since(entries: seq<Entry>, from: nat): seq<Entry> {
    if entries == [] then []
    else
      var e := entries[|entries| - 1];
      Since(entries[..|entries| - 1], from) + if e.revision >= from then [e] else []
  }

  /** A reader took all of these, in order, or up to the first that its callback stopped at. */
  ghost predicate TakenFrom(taken: seq<Entry>, stopped: bool, all: seq<Entry>, more: (nat, WireRecord) -> bool) {
    && taken <= all
    && (forall i :: 0 <= i < |taken| ==> (more(taken[i].revision, taken[i].record) <==> !(stopped && i == |taken| - 1)))
    && (if stopped then taken != [] else taken == all)
  }

  lemma TakenNone(entries: seq<Entry>, from: nat, more: (nat, WireRecord) -> bool)
    ensures TakenFrom([], false, Since(entries[..0], from), more)
  {
  }

  lemma {:induction false} SinceConcat(a: seq<Entry>, b: seq<Entry>, from: nat)
    ensures Since(a + b, from) == Since(a, from) + Since(b, from)
    decreases |b|
  {
    if b == [] {
      assert a + b == a;
    } else {
      var n := |b| - 1;
      assert (a + b)[..|a + b| - 1] == a + b[..n];
      SinceConcat(a, b[..n], from);
    }
  }

  /** The next entry is skipped, taken, or the last taken; what follows it does not matter then. */
  lemma TakenNext(taken: seq<Entry>, entries: seq<Entry>, from: nat, more: (nat, WireRecord) -> bool, j: nat)
    requires j < |entries| && TakenFrom(taken, false, Since(entries[..j], from), more)
    ensures entries[j].revision < from ==> TakenFrom(taken, false, Since(entries[..j + 1], from), more)
    ensures entries[j].revision >= from && more(entries[j].revision, entries[j].record) ==>
              TakenFrom(taken + [entries[j]], false, Since(entries[..j + 1], from), more)
    ensures entries[j].revision >= from && !more(entries[j].revision, entries[j].record) ==>
              TakenFrom(taken + [entries[j]], true, Since(entries, from), more)
  {
    assert entries[..j + 1][..j] == entries[..j];
    assert entries == entries[..j + 1] + entries[j + 1..];
    SinceConcat(entries[..j + 1], entries[j + 1..], from);
  }

  lemma DescribesScan(f: LogFile, entries: seq<Entry>, data: Bytestring)
    requires Describes(f, entries, data)
    ensures f.size <= |data| && data[..f.size] == data
    ensures Scan(data) == Ok(Scanned(f.spans, RevisionsOf(entries), |data|))
  {
    hide Scan, SpansAt, EntriesOk, Frames, RecordOk;
    ScanIsExact(entries, []);
    assert File(entries) + [] == File(entries);
  }

  // ---------------------------------------------------------------------
  // Looking records up

  lemma GoodIndex(d: Directory, files: seq<LogFile>, segs: seq<Segment>, log: seq<WireRecord>, dropped: set<nat>)
    requires Good(d, files, segs, log, dropped)
    ensures Contiguous(segs, |log|) && LogFits(log) && files == FilesOf(segs, log, dropped)
  {
  }

  /** The file found covers the revision, and its sparse revisions ascend. */
  lemma FileReads(d: Directory, files: seq<LogFile>, segs: seq<Segment>, log: seq<WireRecord>, dropped: set<nat>,
                  k: nat, revision: nat)
    requires Good(d, files, segs, log, dropped) && k < |files| && files[k].first <= revision <= files[k].last
    ensures k < |segs| && 0 < segs[k].first <= revision <= segs[k].last <= |log|
    ensures forall i, j :: 0 <= i < j < |files[k].revisions| ==> files[k].revisions[i] < files[k].revisions[j]
  {
    hide Layout, NoOthers, FileOf, Holds, Whole, LogFits, Contiguous;
    GoodFile(d, files, segs, log, dropped, k);
    FileOfName(segs[k], log, dropped);
    FileAscends(segs[k], log, dropped);
  }

  ghost predicate Located(f: LogFile, revision: nat, p: Place) {
    && (!f.sparse ==> p == if f.first <= revision < f.first + |f.spans| then At(revision - f.first) else Missing)
    && (f.sparse ==> !p.Missing? && (p.Compacted? <==> revision !in f.revisions))
    && (f.sparse && p.At? ==> p.pos < |f.revisions| && f.revisions[p.pos] == revision)
  }

  lemma PlaceIsRight(s: Segment, log: seq<WireRecord>, dropped: set<nat>, revision: nat, p: Place)
    requires 0 < s.first <= revision <= s.last <= |log| && LogFits(log) && Whole(s, dropped)
    requires Located(FileOf(s, log, dropped), revision, p)
    ensures RightPlace(s, log, dropped, revision, p)
  {
    hide LogFits, FileOf, RightPlace;
    FileOfName(s, log, dropped);
    if s.sparse {
      SparsePlace(s, log, dropped, revision, p);
    } else {
      DensePlace(s, log, dropped, revision, p);
    }
  }

  /** The span found holds the record. */
  lemma LocatedAt(d: Directory, files: seq<LogFile>, segs: seq<Segment>, log: seq<WireRecord>, dropped: set<nat>,
                  k: nat, revision: nat, p: Place)
    requires Good(d, files, segs, log, dropped) && k < |files| && k < |segs|
    requires 0 < segs[k].first <= revision <= segs[k].last <= |log|
    requires Located(files[k], revision, p)
    ensures !p.Missing? && (p.Compacted? <==> revision in dropped)
    ensures FileName(files[k]) in d
    ensures p.At? ==> p.pos < |files[k].spans|
    ensures p.At? ==>
              var data, span := d[FileName(files[k])], files[k].spans[p.pos];
              span.offset + span.length <= |data| && Decode(data[span.offset..span.offset + span.length]) == Ok(log[revision - 1])
  {
    hide Good, FileOf, Holds, Whole, LogFits, Contiguous, Decode, Kept, Located, FileName;
    GoodFile(d, files, segs, log, dropped, k);
    PlaceIsRight(segs[k], log, dropped, revision, p);
    if p.At? {
      SpanReads(d, segs[k], log, dropped, p.pos);
    }
  }

  lemma BatchOk(last: nat, records: seq<WireRecord>)
    requires BatchFits(last, records)
    ensures forall i :: 0 <= i < |records| ==> RecordOk(records[i])
  {
    hide RecordOk;
    var entries := Numbered(last + 1, records);
    forall i | 0 <= i < |records|
      ensures RecordOk(records[i])
    {
      assert Encodable(entries[i].revision, entries[i].record);
      EncodableIsOk(entries[i].revision, entries[i].record);
    }
  }

  lemma NumberedZip(last: nat, revisions: seq<nat>, records: seq<WireRecord>, buf: Bytestring, spans: seq<Span>)
    requires revisions == From(last + 1, |records|) && forall i :: 0 <= i < |records| ==> RecordOk(records[i])
    requires buf == [] + Frames(Zip(revisions, records)) && spans == SpansAt(Zip(revisions, records), 0)
    ensures buf == Frames(Numbered(last + 1, records)) && spans == SpansAt(Numbered(last + 1, records), 0)
  {
    hide Frames, SpansAt, RecordOk;
    assert Zip(revisions, records) == Numbered(last + 1, records);
  }

  lemma GoodFits(d: Directory, files: seq<LogFile>, segs: seq<Segment>, log: seq<WireRecord>, dropped: set<nat>,
                 records: seq<WireRecord>)
    requires Good(d, files, segs, log, dropped) && BatchFits(|log|, records)
    ensures LogFits(log + records)
  {
    hide LogFits, Contiguous, FilesOf, Holds, Whole, BatchFits;
    BatchFitsLog(log, records);
  }

  lemma NewFileFields(n: nat)
    ensures NewFile(n) == LogFile(n + 1, n, false, NEW_SIZE, [], [])
    ensures FileName(NewFile(n)) == Dense(n + 1)
  {
  }

  // ---------------------------------------------------------------------
  // Claims about any state of the log

  /** The index entry of a file, kept as the log was written, is what scanning the file would give. */
  lemma IndexIsRescan(d: Directory, files: seq<LogFile>, segs: seq<Segment>, log: seq<WireRecord>, dropped: set<nat>,
                      x: nat)
    requires Good(d, files, segs, log, dropped) && x < |files|
    ensures FileName(files[x]) in d
    ensures var s := Scan(d[FileName(files[x])]);
            && s.Ok? && s.value.spans == files[x].spans && s.value.complete == files[x].size == |d[FileName(files[x])]|
            && (files[x].sparse ==> s.value.revisions == files[x].revisions)
            && (!files[x].sparse ==>
                  && DenseOk(s.value.revisions, files[x].first)
                  && |s.value.revisions| == files[x].last - files[x].first + 1)
  {
    hide Good, Contiguous, Scan, FileName, Kept, DenseOk;
    GoodCount(d, files, segs, log, dropped);
    FileAt(d, files, segs, log, dropped, x);
    SegmentStarts(segs, |log|, x);
    var entries := FileEntries(d, files, segs, log, dropped, x, if x == 0 then 0 else segs[x - 1].last);
    DescribesScan(files[x], entries, d[FileName(files[x])]);
    if !files[x].sparse {
      DenseRange(d, files, segs, log, dropped, x);
    }
  }

  lemma DenseRange(d: Directory, files: seq<LogFile>, segs: seq<Segment>, log: seq<WireRecord>, dropped: set<nat>, x: nat)
    requires Good(d, files, segs, log, dropped) && x < |files| == |segs| && !files[x].sparse
    ensures |files[x].spans| == files[x].last - files[x].first + 1
  {
    hide Good, LogFits, FileOf, Holds, Whole, Contiguous;
    GoodFile(d, files, segs, log, dropped, x);
    FileOfName(segs[x], log, dropped);
    DenseCount(segs[x], log, dropped);
  }

  /** A file whose header did not arrive whole cannot be opened. */
  lemma HeaderCut(n: Name, isLast: bool, next: nat, c: nat)
    requires IsLogFile(n) && next > 0 && c < |MAGIC|
    ensures OpenFile(n, MAGIC[..c], isLast, next).Err?
  {
  }

  /** The log's files start and end within it. */
  lemma NameWithin(segs: seq<Segment>, n: nat, a: Name)
    requires Contiguous(segs, n) && a in SegNames(segs) && segs[|segs| - 1].first <= segs[|segs| - 1].last
    ensures a.first <= n && (a.Sparse? ==> a.last <= n)
  {
    hide Contiguous;
    var i :| 0 <= i < |segs| && SegNames(segs)[i] == a;
    SegmentBounds(segs, n, i);
    if i < |segs| - 1 {
      SegmentNonempty(segs, n, i);
    }
  }

  lemma NamesWithin(d: Directory, segs: seq<Segment>, log: seq<WireRecord>, dropped: set<nat>, left: Leftover, a: Name)
    requires Tidy(d, segs, log, dropped, [], left) && a in d && IsLogFile(a)
    requires segs != [] ==> segs[|segs| - 1].first <= segs[|segs| - 1].last
    ensures a.first <= |log| && (a.Sparse? ==> a.last <= |log|)
  {
    hide Layout, Contiguous, UpTo, Original, Merged;
    LayoutContiguous(d, segs, log, dropped, []);
    if a in SegNames(segs) {
      NameWithin(segs, |log|, a);
    } else {
      var i, group := left.at, left.segs;
      var was := Original(segs, i, group);
      OriginalMerges(segs, i, group);
      GroupNames(was, i, i + |group|, a);
      NameWithin(was, |log|, a);
    }
  }

  /** A new file is listed last. */
  lemma NewIsLast(d: Directory, segs: seq<Segment>, log: seq<WireRecord>, dropped: set<nat>, left: Leftover,
                  e: Directory, names: seq<Name>)
    requires Tidy(d, segs, log, dropped, [], left)
    requires segs != [] ==> segs[|segs| - 1].first <= segs[|segs| - 1].last
    requires Dense(|log| + 1) in e && e == d[Dense(|log| + 1) := e[Dense(|log| + 1)]] && IsListing(names, e)
    ensures names != [] && names[|names| - 1] == Dense(|log| + 1)
  {
    hide Tidy;
    var a := Dense(|log| + 1);
    assert a in names;
    var p :| 0 <= p < |names| && names[p] == a;
    var m := |names| - 1;
    if p < m {
      assert Before(names[p], names[m]) && names[p] != names[m];
      NamesWithin(d, segs, log, dropped, left, names[m]);
    }
  }

  lemma KeptAreListed(names: seq<Name>, e: Directory, m: nat, k: Name)
    requires IsListing(names, e) && m < |names| && k in KeepFiles(names[..m])
    ensures k in e && IsLogFile(k) && k != names[m]
  {
    hide KeepFiles, Before;
    KeptNotRemoved(names[..m], k);
    var q :| 0 <= q < m && names[..m][q] == k;
    assert names[q] == k && names[q] != names[m];
  }

  /** Nothing supersedes it. */
  lemma NewIsKept(d: Directory, segs: seq<Segment>, log: seq<WireRecord>, dropped: set<nat>, left: Leftover,
                  e: Directory, names: seq<Name>)
    requires Tidy(d, segs, log, dropped, [], left)
    requires segs != [] ==> segs[|segs| - 1].first <= segs[|segs| - 1].last
    requires Dense(|log| + 1) in e && e == d[Dense(|log| + 1) := e[Dense(|log| + 1)]] && IsListing(names, e)
    ensures KeepFiles(names) != [] && KeepFiles(names)[|KeepFiles(names)| - 1] == Dense(|log| + 1)
  {
    hide Tidy, IsListing;
    NewIsLast(d, segs, log, dropped, left, e, names);
    var m := |names| - 1;
    var kept := KeepFiles(names[..m]);
    if kept != [] {
      var k := kept[|kept| - 1];
      KeptAreListed(names, e, m, k);
      NamesWithin(d, segs, log, dropped, left, k);
    }
  }

  /**
   A crash may cut the header of the next file, in the middle of a group rewrite
   or not: then opening fails, unless all of the header arrived.
   */
  lemma HeaderCrash(d: Directory, segs: seq<Segment>, log: seq<WireRecord>, dropped: set<nat>, left: Leftover, c: nat,
                    names: seq<Name>)
    requires Tidy(d, segs, log, dropped, [], left) && c <= |MAGIC|
    requires segs != [] ==> segs[|segs| - 1].first <= segs[|segs| - 1].last
    requires IsListing(names, d[Dense(|log| + 1) := MAGIC[..c]])
    ensures OpenResult(names, d[Dense(|log| + 1) := MAGIC[..c]]).Ok? <==> c == |MAGIC|
  {
    hide *;
    var e := d[Dense(|log| + 1) := MAGIC[..c]];
    if c == |MAGIC| {
      assert MAGIC[..c] == MAGIC;
      TidyNext(d, segs, log, dropped, left);
      assert log[..|log|] == log;
      TidyRecovers(e, segs + [Segment(|log| + 1, |log|, false)], |log|, |log|, log, dropped, [], left);
      var _, _, _ := WhatIsFound(true, names, e, |log|, log, dropped);
    } else {
      NewIsKept(d, segs, log, dropped, left, e, names);
      LastFails(names, e, c);
    }
  }

  lemma LastFails(names: seq<Name>, e: Directory, c: nat)
    requires IsListing(names, e) && KeepFiles(names) != [] && c < |MAGIC|
    requires var a := KeepFiles(names)[|KeepFiles(names)| - 1]; a in e && e[a] == MAGIC[..c]
    ensures OpenResult(names, e).Err?
  {
    hide KeepFiles, OpenFile, Removed, IsListing;
    KeptListed(names, e);
    var kept, d := KeepFiles(names), e - Removed(names);
    var m := |kept| - 1;
    var before := OpenFiles(kept[..m], |kept|, d);
    if before.Ok? {
      HeaderCut(kept[m], true, if before.value == [] then 1 else before.value[|before.value| - 1].last + 1, c);
    }
  }
}
