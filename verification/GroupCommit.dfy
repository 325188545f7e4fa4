/**
 Group commit: transactions are collected into batches, validated per key
 against what committed since their snapshots, stamped with contiguous
 revisions, and acknowledged. This file is the specification: the value a
 batching layer holds, what each of its operations does to it, and what every
 run of those operations keeps. `Batching.dfy` updates that value in place.
 */
module GroupCommit {
  import opened Bytes
  import opened Records

  /** What a transaction read and wrote, for conflict detection. */
  datatype TxnMeta = TxnMeta(
    snapshot: Revision,
    readSet: map<Key, Revision>,
    writeSet: set<Key>,
    hasRangeRead: bool)

  /** A transaction waiting to commit; the ticket stands for its result channel. */
  datatype PendingTxn = PendingTxn(record: LogRecord, meta: TxnMeta, ticket: nat)

  datatype BatchResult = Committed(revision: Revision) | Rejected

  type Writes = map<Key, Revision>

  function WriteRevision(writes: Writes, key: Key): Revision {
    if key in writes then writes[key] else 0
  }

  /** Whether `other` may join a batch that already holds `existing`. */
  predicate CanBatchTogether(existing: TxnMeta, other: TxnMeta) {
    && (forall k :: k in existing.writeSet ==> k !in other.writeSet)
    && (forall k :: k in other.readSet ==> k !in existing.writeSet)
  }

  predicate CanBatchWith(batch: seq<PendingTxn>, meta: TxnMeta) {
    forall i :: 0 <= i < |batch| ==> CanBatchTogether(batch[i].meta, meta)
  }

  /** Optimistic validation against the writes committed so far. */
  predicate Validate(meta: TxnMeta, last: Revision, writes: Writes) {
    if meta.hasRangeRead then meta.snapshot == last
    else
      && (forall k :: k in meta.readSet ==> WriteRevision(writes, k) <= meta.readSet[k])
      && (forall k :: k in meta.writeSet ==> WriteRevision(writes, k) <= meta.snapshot)
  }

  /** Re-stamp a staged event with the revision it commits at. */
  function StampEvent(e: Event, revision: Revision): Event {
    match e.typ
    case PUT =>
      var create := if e.kv.createRevision == e.kv.modRevision then revision else e.kv.createRevision;
      e.(kv := e.kv.(createRevision := create, modRevision := revision))
    case DELETE =>
      e.(kv := e.kv.(modRevision := revision))
  }

  function Stamp(record: LogRecord, revision: Revision): (r: LogRecord)
    ensures |r| == |record|
    ensures forall i :: 0 <= i < |r| ==> r[i].kv.key == record[i].kv.key
  {
    seq(|record|, i requires 0 <= i < |record| => StampEvent(record[i], revision))
  }

  function RecordWrites(writes: Writes, keys: set<Key>, revision: Revision): Writes {
    writes + map k | k in keys :: revision
  }

  /** The batch keeps every earlier writer clear of every later reader and writer. */
  ghost predicate Compatible(batch: seq<PendingTxn>) {
    forall i, j :: 0 <= i < j < |batch| ==> CanBatchTogether(batch[i].meta, batch[j].meta)
  }

  /** The state of the batching layer, with what it has done so far. */
  datatype Committer = Committer(
    base: Revision,              // the log's last revision when batching started
    last: Revision,              // the last revision flushed to the log
    queue: seq<seq<PendingTxn>>, // batches closed to new transactions, oldest first
    open: seq<PendingTxn>,       // the batch still collecting; empty if there is none
    arrivals: seq<PendingTxn>,   // everything ever added, in order
    progress: Progress)

  /** What became of the transactions processed so far, in arrival order. */
  datatype Progress = Progress(
    committed: seq<PendingTxn>,  // stamped, in log order
    writes: Writes,
    results: seq<BatchResult>)   // the result of ticket t is results[t]

  function Start(base: Revision): Committer {
    Committer(base, base, [], [], [], Progress([], map[], []))
  }

  function AddTxn(c: Committer, record: LogRecord, meta: TxnMeta): Committer {
    var t := PendingTxn(record, meta, |c.arrivals|);
    var c1 := c.(arrivals := c.arrivals + [t]);
    if c.open == [] then c1.(open := [t])
    else if CanBatchWith(c.open, meta) then c1.(open := c.open + [t])
    else c1.(queue := c.queue + [c.open], open := [t])
  }

  /** Validate one transaction of a batch that starts after revision `start`. */
  function Process(p: Progress, base: Revision, t: PendingTxn, start: Revision): Progress {
    if !Validate(t.meta, start, p.writes) then p.(results := p.results + [Rejected])
    else
      var revision := base + |p.committed| + 1;
      Progress(p.committed + [t.(record := Stamp(t.record, revision))],
               RecordWrites(p.writes, t.meta.writeSet, revision),
               p.results + [Committed(revision)])
  }

  function ProcessAll(p: Progress, base: Revision, batch: seq<PendingTxn>, start: Revision): Progress {
    if batch == [] then p
    else
      var n := |batch| - 1;
      Process(ProcessAll(p, base, batch[..n], start), base, batch[n], start)
  }

  function FlushBatch(c: Committer, batch: seq<PendingTxn>): Committer {
    var p := ProcessAll(c.progress, c.base, batch, c.last);
    c.(progress := p, last := c.base + |p.committed|)
  }

  /** One turn of the flusher: the oldest queued batch, or else the open one. */
  function FlushNext(c: Committer): Committer {
    if c.queue != [] then FlushBatch(c.(queue := c.queue[1..]), c.queue[0])
    else FlushBatch(c.(open := []), c.open)
  }

  function Flatten(batches: seq<seq<PendingTxn>>): seq<PendingTxn> {
    if batches == [] then [] else batches[0] + Flatten(batches[1..])
  }

  /** Everything added that has no result yet, in arrival order. */
  function Waiting(c: Committer): seq<PendingTxn> {
    Flatten(c.queue) + c.open
  }

  predicate Wrote(t: PendingTxn, key: Key) {
    key in t.meta.writeSet
  }

  /** The revision at which `key` was last committed since batching started; 0 if it was not. */
  function LastCommitted(committed: seq<PendingTxn>, base: Revision, key: Key): (r: Revision)
    ensures r == 0 || (base < r <= base + |committed| && Wrote(committed[r - base - 1], key))
    ensures forall i :: 0 <= i < |committed| && Wrote(committed[i], key) ==> base + i + 1 <= r
  {
    if committed == [] then 0
    else
      var n := |committed| - 1;
      if Wrote(committed[n], key) then base + n + 1 else LastCommitted(committed[..n], base, key)
  }

  // ---------------------------------------------------------------------
  // What a single batch does

  lemma {:induction false} ProcessKeepsWrite(p: Progress, base: Revision, batch: seq<PendingTxn>, start: Revision, key: Key)
    requires forall i :: 0 <= i < |batch| ==> !Wrote(batch[i], key)
    ensures WriteRevision(ProcessAll(p, base, batch, start).writes, key) == WriteRevision(p.writes, key)
  {
    if batch != [] {
      var n := |batch| - 1;
      ProcessKeepsWrite(p, base, batch[..n], start, key);
      assert !Wrote(batch[n], key);
    }
  }

  /**
   Within a compatible batch the order of validation does not matter: every
   verdict is the one the transaction would get alone, against the writes
   committed before the batch.
   */
  lemma VerdictIsPerTxn(p: Progress, base: Revision, batch: seq<PendingTxn>, i: nat, start: Revision)
    requires i < |batch| && Compatible(batch)
    ensures Validate(batch[i].meta, start, ProcessAll(p, base, batch[..i], start).writes)
            <==> Validate(batch[i].meta, start, p.writes)
  {
    var meta := batch[i].meta;
    forall k | k in meta.readSet || k in meta.writeSet
      ensures WriteRevision(ProcessAll(p, base, batch[..i], start).writes, k) == WriteRevision(p.writes, k)
    {
      forall j | 0 <= j < i
        ensures !Wrote(batch[..i][j], k)
      {
        assert CanBatchTogether(batch[j].meta, meta);
      }
      ProcessKeepsWrite(p, base, batch[..i], start, k);
    }
  }

  // ---------------------------------------------------------------------
  // What every run keeps

  /** Tickets number the arrivals. */
  ghost predicate Numbered(arrivals: seq<PendingTxn>) {
    forall i :: 0 <= i < |arrivals| ==> arrivals[i].ticket == i
  }

  /** Position `i` of the log is the stamped transaction of an arrival whose result says so. */
  ghost predicate PositionOk(p: Progress, base: Revision, arrivals: seq<PendingTxn>, i: int)
    requires 0 <= i < |p.committed|
  {
    var t := p.committed[i].ticket;
    && t < |p.results| <= |arrivals|
    && p.results[t] == Committed(base + i + 1)
    && p.committed[i] == arrivals[t].(record := Stamp(arrivals[t].record, base + i + 1))
  }

  /** A result that names a revision names the position of its own transaction. */
  ghost predicate ResultOk(p: Progress, base: Revision, t: int)
    requires 0 <= t < |p.results|
  {
    p.results[t].Committed? ==>
      && base < p.results[t].revision <= base + |p.committed|
      && p.committed[p.results[t].revision - base - 1].ticket == t
  }

  ghost predicate InOrder(committed: seq<PendingTxn>) {
    forall i, j :: 0 <= i < j < |committed| ==> committed[i].ticket < committed[j].ticket
  }

  ghost predicate ProgressOk(p: Progress, base: Revision, arrivals: seq<PendingTxn>) {
    && |p.results| <= |arrivals|
    && (forall i :: 0 <= i < |p.committed| ==> PositionOk(p, base, arrivals, i))
    && (forall t :: 0 <= t < |p.results| ==> ResultOk(p, base, t))
    && InOrder(p.committed)
  }

  ghost predicate WritesExact(p: Progress, base: Revision) {
    forall k: Key :: WriteRevision(p.writes, k) == LastCommitted(p.committed, base, k)
  }

  /** Every waiting transaction sits in a compatible, nonempty batch. */
  ghost predicate BatchesOk(c: Committer) {
    && Compatible(c.open)
    && (forall i :: 0 <= i < |c.queue| ==> c.queue[i] != [] && Compatible(c.queue[i]))
  }

  ghost predicate Inv(c: Committer) {
    && Numbered(c.arrivals)
    && BatchesOk(c)
    && |c.progress.results| <= |c.arrivals|
    && Waiting(c) == c.arrivals[|c.progress.results|..]
    && c.last == c.base + |c.progress.committed|
    && ProgressOk(c.progress, c.base, c.arrivals)
    && WritesExact(c.progress, c.base)
  }

  lemma StartInv(base: Revision)
    ensures Inv(Start(base))
  {
    hide Validate, CanBatchTogether, Stamp;
    var c := Start(base);
    assert Waiting(c) == [];
    assert WritesExact(c.progress, base);
  }

  lemma {:induction false} FlattenAppend(batches: seq<seq<PendingTxn>>, b: seq<PendingTxn>)
    ensures Flatten(batches + [b]) == Flatten(batches) + b
  {
    if batches == [] {
      assert [b][1..] == [];
      assert batches + [b] == [b];
    } else {
      assert (batches + [b])[1..] == batches[1..] + [b];
      FlattenAppend(batches[1..], b);
    }
  }

  lemma AddWaiting(c: Committer, record: LogRecord, meta: TxnMeta)
    ensures Waiting(AddTxn(c, record, meta)) == Waiting(c) + [PendingTxn(record, meta, |c.arrivals|)]
  {
    FlattenAppend(c.queue, c.open);
  }

  lemma AddKeepsBatches(c: Committer, record: LogRecord, meta: TxnMeta)
    requires BatchesOk(c)
    ensures BatchesOk(AddTxn(c, record, meta))
  {
  }

  lemma ArrivalsGrow(p: Progress, base: Revision, arrivals: seq<PendingTxn>, t: PendingTxn)
    requires ProgressOk(p, base, arrivals)
    ensures ProgressOk(p, base, arrivals + [t])
  {
    forall i | 0 <= i < |p.committed|
      ensures PositionOk(p, base, arrivals + [t], i)
    {
      assert PositionOk(p, base, arrivals, i);
    }
  }

  lemma AddKeepsInv(c: Committer, record: LogRecord, meta: TxnMeta)
    requires Inv(c)
    ensures Inv(AddTxn(c, record, meta))
  {
    AddWaiting(c, record, meta);
    AddKeepsBatches(c, record, meta);
    ArrivalsGrow(c.progress, c.base, c.arrivals, PendingTxn(record, meta, |c.arrivals|));
  }

  lemma ProcessKeepsProgress(p: Progress, base: Revision, arrivals: seq<PendingTxn>, start: Revision)
    requires Numbered(arrivals) && ProgressOk(p, base, arrivals) && |p.results| < |arrivals|
    ensures ProgressOk(Process(p, base, arrivals[|p.results|], start), base, arrivals)
  {
    var t := arrivals[|p.results|];
    var q := Process(p, base, t, start);
    forall i | 0 <= i < |q.committed|
      ensures PositionOk(q, base, arrivals, i)
    {
      if i < |p.committed| {
        assert PositionOk(p, base, arrivals, i);
      }
    }
    forall u | 0 <= u < |q.results|
      ensures ResultOk(q, base, u)
    {
      if u < |p.results| {
        assert ResultOk(p, base, u);
      }
    }
    forall i, j | 0 <= i < j < |q.committed|
      ensures q.committed[i].ticket < q.committed[j].ticket
    {
      assert PositionOk(p, base, arrivals, i);
    }
  }

  lemma ProcessKeepsWritesExact(p: Progress, base: Revision, t: PendingTxn, start: Revision)
    requires WritesExact(p, base)
    ensures WritesExact(Process(p, base, t, start), base)
  {
    var q := Process(p, base, t, start);
    if Validate(t.meta, start, p.writes) {
      forall k: Key
        ensures WriteRevision(q.writes, k) == LastCommitted(q.committed, base, k)
      {
        assert q.committed[..|p.committed|] == p.committed;
        assert WriteRevision(p.writes, k) == LastCommitted(p.committed, base, k);
      }
    }
  }

  lemma {:induction false} ProcessAllKeeps(p: Progress, base: Revision, arrivals: seq<PendingTxn>,
                                           batch: seq<PendingTxn>, start: Revision)
    requires Numbered(arrivals) && ProgressOk(p, base, arrivals) && WritesExact(p, base)
    requires batch <= arrivals[|p.results|..]
    ensures var q := ProcessAll(p, base, batch, start);
            && ProgressOk(q, base, arrivals)
            && WritesExact(q, base)
            && |q.results| == |p.results| + |batch|
            && p.results <= q.results
            && p.committed <= q.committed
  {
    if batch != [] {
      var n := |batch| - 1;
      ProcessAllKeeps(p, base, arrivals, batch[..n], start);
      var q := ProcessAll(p, base, batch[..n], start);
      assert batch[n] == arrivals[|p.results|..][n] == arrivals[|q.results|];
      ProcessKeepsProgress(q, base, arrivals, start);
      ProcessKeepsWritesExact(q, base, batch[n], start);
    }
  }

  /** The batch the flusher takes next. */
  function NextBatch(c: Committer): seq<PendingTxn> {
    if c.queue != [] then c.queue[0] else c.open
  }

  /** It holds the transactions that have waited longest. */
  lemma NextBatchWaits(c: Committer)
    requires Inv(c)
    ensures var done := |c.progress.results|;
            && NextBatch(c) <= c.arrivals[done..]
            && Compatible(NextBatch(c))
            && Waiting(FlushNext(c)) == c.arrivals[done + |NextBatch(c)|..]
  {
    var batch := NextBatch(c);
    var rest := if c.queue != [] then c.(queue := c.queue[1..]) else c.(open := []);
    var done := |c.progress.results|;
    assert c.arrivals[done..] == batch + Waiting(rest);
    assert Waiting(FlushNext(c)) == Waiting(rest) == c.arrivals[done..][|batch|..] == c.arrivals[done + |batch|..];
  }

  lemma FlushKeepsInv(c: Committer)
    requires Inv(c)
    ensures Inv(FlushNext(c))
  {
    NextBatchWaits(c);
    ProcessAllKeeps(c.progress, c.base, c.arrivals, NextBatch(c), c.last);
  }

  /** A transaction arrives, or the flusher takes a turn. */
  ghost predicate Step(c: Committer, c': Committer) {
    || (exists record, meta :: c' == AddTxn(c, record, meta))
    || c' == FlushNext(c)
  }

  ghost predicate IsRun(run: seq<Committer>) {
    && |run| > 0
    && run[0] == Start(run[0].base)
    && forall i :: 0 <= i < |run| - 1 ==> Step(run[i], run[i + 1])
  }

  /**
   Order and conservation, over every run: what committed is a subsequence of
   what arrived, at contiguous revisions; every transaction that is no longer
   waiting has exactly one result, naming its place in the log; and
   `writes` holds every key's last committed revision.
   */
  lemma {:induction false} EveryRunKeepsInv(run: seq<Committer>, i: nat)
    requires IsRun(run) && i < |run|
    ensures Inv(run[i])
  {
    if i == 0 {
      StartInv(run[0].base);
    } else {
      EveryRunKeepsInv(run, i - 1);
      assert Step(run[i - 1], run[i]);
      if run[i] == FlushNext(run[i - 1]) {
        FlushKeepsInv(run[i - 1]);
      } else {
        var record, meta :| run[i] == AddTxn(run[i - 1], record, meta);
        AddKeepsInv(run[i - 1], record, meta);
      }
    }
  }

  // ---------------------------------------------------------------------
  // What validation decides

  /** Whether `key` was committed after revision `since`. */
  ghost predicate CommittedSince(committed: seq<PendingTxn>, base: Revision, key: Key, since: Revision) {
    exists i :: 0 <= i < |committed| && Wrote(committed[i], key) && base + i + 1 > since
  }

  lemma CommittedSinceIsLast(committed: seq<PendingTxn>, base: Revision, key: Key, since: Revision)
    ensures CommittedSince(committed, base, key, since) <==> LastCommitted(committed, base, key) > since
  {
    var r := LastCommitted(committed, base, key);
    if r > since {
      assert Wrote(committed[r - base - 1], key);
    }
  }

  /** The read set names, for each key, its last write at the snapshot. */
  ghost predicate ReadsAreTrue(p: Progress, base: Revision, meta: TxnMeta) {
    forall k :: k in meta.readSet ==>
      && meta.readSet[k] <= meta.snapshot
      && forall i :: 0 <= i < |p.committed| && Wrote(p.committed[i], k) && base + i + 1 <= meta.snapshot
           ==> base + i + 1 <= meta.readSet[k]
  }

  /**
   The conflict check is exact: a point-read transaction whose read set is
   true is rejected if and only if a key it read or wrote was committed after
   its snapshot.
   */
  lemma ConflictIsExact(p: Progress, base: Revision, meta: TxnMeta, start: Revision)
    requires WritesExact(p, base) && ReadsAreTrue(p, base, meta) && !meta.hasRangeRead
    ensures Validate(meta, start, p.writes)
            <==> forall k :: k in meta.readSet || k in meta.writeSet ==> !CommittedSince(p.committed, base, k, meta.snapshot)
  {
    forall k | k in meta.readSet
      ensures WriteRevision(p.writes, k) <= meta.readSet[k] <==> !CommittedSince(p.committed, base, k, meta.snapshot)
    {
      CommittedSinceIsLast(p.committed, base, k, meta.snapshot);
      assert WriteRevision(p.writes, k) == LastCommitted(p.committed, base, k);
    }
    forall k | k in meta.writeSet
      ensures WriteRevision(p.writes, k) <= meta.snapshot <==> !CommittedSince(p.committed, base, k, meta.snapshot)
    {
      CommittedSinceIsLast(p.committed, base, k, meta.snapshot);
      assert WriteRevision(p.writes, k) == LastCommitted(p.committed, base, k);
    }
  }

  /** Disjoint transactions never abort each other. */
  lemma DisjointNeverAbort(p: Progress, base: Revision, meta: TxnMeta, start: Revision)
    requires WritesExact(p, base) && ReadsAreTrue(p, base, meta) && !meta.hasRangeRead
    requires forall i, k :: 0 <= i < |p.committed| && base + i + 1 > meta.snapshot && Wrote(p.committed[i], k) ==>
               k !in meta.writeSet && k !in meta.readSet
    ensures Validate(meta, start, p.writes)
  {
    ConflictIsExact(p, base, meta, start);
  }

  /** Flushing more of a batch only adds to what came of its first `i` transactions. */
  lemma {:induction false} FlushExtends(p: Progress, base: Revision, batch: seq<PendingTxn>, i: nat, start: Revision)
    requires i <= |batch|
    ensures var some, all := ProcessAll(p, base, batch[..i], start), ProcessAll(p, base, batch, start);
            && |some.results| == |p.results| + i && p.committed <= some.committed
            && some.results <= all.results && some.committed <= all.committed
    decreases |batch| - i
  {
    FlushCounts(p, base, batch[..i], start);
    if i == |batch| {
      assert batch[..i] == batch;
    } else {
      FlushExtends(p, base, batch, i + 1, start);
      assert batch[..i + 1][..i] == batch[..i];
    }
  }

  lemma {:induction false} FlushCounts(p: Progress, base: Revision, batch: seq<PendingTxn>, start: Revision)
    ensures var q := ProcessAll(p, base, batch, start);
            |q.results| == |p.results| + |batch| && p.committed <= q.committed
  {
    if batch != [] {
      FlushCounts(p, base, batch[..|batch| - 1], start);
    }
  }

  /** The flusher's turn, as far as the first `i` transactions of its batch. */
  ghost function FlushedSome(c: Committer, i: nat): Progress
    requires i <= |NextBatch(c)|
  {
    ProcessAll(c.progress, c.base, NextBatch(c)[..i], c.last)
  }

  /** Member `i` of the batch being flushed is accepted: its result names its revision. */
  ghost predicate Accepted(c: Committer, i: nat) {
    i < |NextBatch(c)| && var results := FlushNext(c).progress.results;
      NextBatch(c)[i].ticket < |results| && results[NextBatch(c)[i].ticket].Committed?
  }

  /** The revision it commits at. */
  ghost function AcceptedRevision(c: Committer, i: nat): Revision
    requires Accepted(c, i)
  {
    FlushNext(c).progress.results[NextBatch(c)[i].ticket].revision
  }

  lemma FlushNextIs(c: Committer)
    ensures FlushNext(c).progress == ProcessAll(c.progress, c.base, NextBatch(c), c.last)
  {
  }

  lemma MemberTicket(c: Committer, i: nat)
    requires Inv(c) && i < |NextBatch(c)|
    ensures NextBatch(c)[i].ticket == |c.progress.results| + i
  {
    hide BatchesOk, WritesExact, ProgressOk, FlushNext, NextBatch, Waiting;
    NextBatchWaits(c);
    var done := |c.progress.results|;
    assert NextBatch(c)[i] == c.arrivals[done..][i] == c.arrivals[done + i];
  }

  lemma MemberNext(c: Committer, i: nat)
    requires i < |NextBatch(c)|
    ensures var q, next, after := FlushedSome(c, i), FlushedSome(c, i + 1), FlushNext(c).progress;
            && next == Process(q, c.base, NextBatch(c)[i], c.last)
            && c.progress.committed <= q.committed <= after.committed && next.committed <= after.committed
            && |q.results| == |c.progress.results| + i && next.results <= after.results
  {
    hide Process, NextBatch, FlushNext;
    var batch := NextBatch(c);
    FlushExtends(c.progress, c.base, batch, i, c.last);
    FlushExtends(c.progress, c.base, batch, i + 1, c.last);
    FlushNextIs(c);
    assert batch[..i + 1][..i] == batch[..i];
  }

  /** What comes of one member: it is judged after those before it, and then those before it are all that precedes it. */
  lemma MemberIs(c: Committer, i: nat)
    requires Inv(c) && i < |NextBatch(c)|
    ensures var q, after := FlushedSome(c, i), FlushNext(c).progress;
            && c.progress.committed <= q.committed <= after.committed
            && (Accepted(c, i) <==> Validate(NextBatch(c)[i].meta, c.last, q.writes))
            && (Accepted(c, i) ==>
                  var m, r := NextBatch(c)[i], AcceptedRevision(c, i);
                  && r == c.base + |q.committed| + 1
                  && FlushedSome(c, i + 1).committed == q.committed + [m.(record := Stamp(m.record, r))])
            && (!Accepted(c, i) ==> FlushedSome(c, i + 1).committed == q.committed)
    ensures FlushedSome(c, i + 1).committed <= FlushNext(c).progress.committed
  {
    hide Validate, Inv, FlushNext, NextBatch, FlushedSome, Stamp;
    MemberTicket(c, i);
    MemberNext(c, i);
    var next, after := FlushedSome(c, i + 1), FlushNext(c).progress;
    var done := |c.progress.results|;
    assert next.results[done + i] == after.results[done + i];
  }

  /** An accepted member ahead of `i` writes `key`. */
  ghost predicate WrittenAhead(c: Committer, i: nat, key: Key) {
    exists j :: 0 <= j < i && Accepted(c, j) && Wrote(NextBatch(c)[j], key)
  }

  lemma FlushedNone(c: Committer)
    ensures FlushedSome(c, 0) == c.progress
  {
    assert NextBatch(c)[..0] == [];
  }

  lemma WrittenAheadNext(c: Committer, i: nat, key: Key)
    ensures WrittenAhead(c, i + 1, key) <==> WrittenAhead(c, i, key) || (Accepted(c, i) && Wrote(NextBatch(c)[i], key))
  {
    hide Accepted, NextBatch, Wrote;
  }

  /** Some of these, from `n` on, wrote the key. */
  ghost predicate WroteFrom(committed: seq<PendingTxn>, n: nat, key: Key) {
    exists x :: n <= x < |committed| && Wrote(committed[x], key)
  }

  lemma WroteFromNext(committed: seq<PendingTxn>, n: nat, t: PendingTxn, key: Key)
    requires n <= |committed|
    ensures WroteFrom(committed + [t], n, key) <==> WroteFrom(committed, n, key) || Wrote(t, key)
  {
    hide Wrote;
    var more := committed + [t];
    if WroteFrom(committed, n, key) {
      var x :| n <= x < |committed| && Wrote(committed[x], key);
      assert more[x] == committed[x];
    }
    if Wrote(t, key) {
      assert more[|committed|] == t;
    }
  }

  /** What commits ahead of member `i` in its batch is what the accepted members before it write. */
  lemma {:induction false} AheadIsWritten(c: Committer, i: nat, key: Key)
    requires Inv(c) && i <= |NextBatch(c)|
    ensures c.progress.committed <= FlushedSome(c, i).committed
    ensures WrittenAhead(c, i, key) <==> WroteFrom(FlushedSome(c, i).committed, |c.progress.committed|, key)
  {
    hide Inv, Accepted, AcceptedRevision, Stamp, NextBatch, FlushNext, FlushedSome;
    if i == 0 {
      FlushedNone(c);
    } else {
      hide WroteFrom, WrittenAhead;
      var m := i - 1;
      AheadIsWritten(c, m, key);
      WrittenAheadNext(c, m, key);
      MemberIs(c, m);
      if Accepted(c, m) {
        var t := NextBatch(c)[m].(record := Stamp(NextBatch(c)[m].record, AcceptedRevision(c, m)));
        WroteFromNext(FlushedSome(c, m).committed, |c.progress.committed|, t, key);
      }
    }
  }

  /**
   A transaction that read a range is checked against the start of its batch,
   not against its own place in it. In every state of every run: what an
   accepted one read of a range is still current at its own revision if and only
   if no accepted transaction ahead of it in the batch writes a key of the range.
   */
  lemma RangeReadIsExact(run: seq<Committer>, n: nat, i: nat, range: iset<Key>)
    requires IsRun(run) && n < |run|
    requires Accepted(run[n], i) && NextBatch(run[n])[i].meta.hasRangeRead
    ensures run[n].base < AcceptedRevision(run[n], i) <= run[n].base + |FlushNext(run[n]).progress.committed|
    ensures var c := run[n];
            var before := FlushNext(c).progress.committed[..AcceptedRevision(c, i) - c.base - 1];
            (forall k :: k in range ==> !CommittedSince(before, c.base, k, NextBatch(c)[i].meta.snapshot))
            <==> forall k :: k in range ==> !WrittenAhead(c, i, k)
  {
    EveryRunKeepsInv(run, n);
    CurrentIsExact(run[n], i, range);
  }

  lemma CurrentIsExact(c: Committer, i: nat, range: iset<Key>)
    requires Inv(c) && Accepted(c, i) && NextBatch(c)[i].meta.hasRangeRead
    ensures c.base < AcceptedRevision(c, i) <= c.base + |FlushNext(c).progress.committed|
    ensures NextBatch(c)[i].meta.snapshot == c.last == c.base + |c.progress.committed|
    ensures FlushNext(c).progress.committed[..AcceptedRevision(c, i) - c.base - 1] == FlushedSome(c, i).committed
    ensures var before := FlushedSome(c, i).committed;
            (forall k :: k in range ==> !CommittedSince(before, c.base, k, c.last))
            <==> forall k :: k in range ==> !WrittenAhead(c, i, k)
  {
    MemberIs(c, i);
    hide Accepted, AcceptedRevision, WrittenAhead;
    assert c.last == c.base + |c.progress.committed|;
    hide Inv;
    var before := FlushedSome(c, i).committed;
    forall k: Key
      ensures CommittedSince(before, c.base, k, c.last) <==> WrittenAhead(c, i, k)
    {
      AheadIsWritten(c, i, k);
      SinceIsFrom(before, |c.progress.committed|, c.base, k);
    }
  }

  lemma SinceIsFrom(committed: seq<PendingTxn>, n: nat, base: Revision, key: Key)
    ensures CommittedSince(committed, base, key, base + n) <==> WroteFrom(committed, n, key)
  {
  }

  /** A range reader behind a writer of its range, in one batch: both are accepted. */
  lemma RangeReaderBehindWriter(k: Key)
    ensures var writer := TxnMeta(0, map[], {k}, false);
            var reader := TxnMeta(0, map[], {k + [0]}, true);
            var c := AddTxn(AddTxn(Start(0), [], writer), [], reader);
            var p := FlushNext(c).progress;
            && |c.open| == 2
            && p.results == [Committed(1), Committed(2)]
            && CommittedSince(p.committed, 0, k, reader.snapshot)
  {
    var writer := TxnMeta(0, map[], {k}, false);
    var reader := TxnMeta(0, map[], {k + [0]}, true);
    var c1 := AddTxn(Start(0), [], writer);
    var c := AddTxn(c1, [], reader);
    assert CanBatchTogether(writer, reader);
    var t0, t1 := PendingTxn([], writer, 0), PendingTxn([], reader, 1);
    assert c.open == [t0, t1];
    var p0 := Progress([], map[], []);
    assert [t0, t1][..1] == [t0] && [t0][..0] == [];
    var p1 := ProcessAll(p0, 0, [t0], 0);
    assert p1 == Process(ProcessAll(p0, 0, [], 0), 0, t0, 0);
    assert ProcessAll(p0, 0, c.open, 0) == Process(p1, 0, t1, 0);
    assert Wrote(FlushNext(c).progress.committed[0], k);
  }
}
