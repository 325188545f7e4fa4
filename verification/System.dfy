/**
 The parts together, as one step machine: clients evaluate transactions at
 snapshots, the batching layer commits them, committed records are applied to
 the index, the index is compacted, the log is rewritten in the background, and
 watchers follow. Between any two steps anything else may happen.
 */
module System {
  import opened Bytes
  import opened Records
  import opened KeyIndex
  import opened GroupCommit
  import opened Listing
  import opened Mvcc

  /** A transaction as it was evaluated: the request, the snapshot, and what the store looked like then. */
  datatype Submission = Submission(req: Request, snapshot: Revision, view: View)

  datatype Watcher = Watcher(delivered: Revision, closed: bool)

  datatype Sys = Sys(
    initial: seq<LogRecord>,      // the log the process started with
    view: View,                   // the store now
    committer: Committer,
    evaluated: set<Submission>,   // evaluated, not yet handed to the log
    submitted: seq<Submission>,   // handed to the log, by ticket
    rewrites: set<Revision>,      // points of the log rewrites that have been started
    watchers: seq<Watcher>)

  function RecordsOf(txns: seq<PendingTxn>): (r: seq<LogRecord>)
    ensures |r| == |txns|
    ensures forall i :: 0 <= i < |r| ==> r[i] == txns[i].record
  {
    seq(|txns|, i requires 0 <= i < |txns| => txns[i].record)
  }

  /** The log: what the process started with, then what committed. */
  function LogOf(initial: seq<LogRecord>, committed: seq<PendingTxn>): seq<LogRecord> {
    initial + RecordsOf(committed)
  }

  // ---------------------------------------------------------------------
  // The steps

  datatype Action =
    | DoEvaluate(req: Request, snapshot: Revision)
    | DoSubmit(sub: Submission)
    | DoFlush
    | DoApply
    | DoCompact(revision: Revision)
    | DoDrop(dropped: Revision, through: Revision)
    | DoWatch(start: Revision)
    | DoDeliver(watcher: nat, upTo: Revision)
    | DoClose(watcher: nat)
    | DoLeases(leases: set<int>)

  ghost function Start(initial: seq<LogRecord>, index: Index, leases: set<int>): Sys {
    Sys(initial, View(index, initial, {}, |initial|, 0, leases), GroupCommit.Start(|initial|), {}, [], {}, [])
  }

  /** Compaction stops where an open watcher has not yet delivered past. */
  function CompactPoint(watchers: seq<Watcher>, revision: Revision): (r: Revision)
    ensures r <= revision
    ensures forall i :: 0 <= i < |watchers| && !watchers[i].closed ==> r <= watchers[i].delivered
  {
    if watchers == [] then revision
    else
      var n := |watchers| - 1;
      var r := CompactPoint(watchers[..n], revision);
      if !watchers[n].closed && watchers[n].delivered < r then watchers[n].delivered else r
  }

  function Min(a: nat, b: nat): nat {
    if a < b then a else b
  }

  function CompactView(v: View, through: Revision): View {
    v.(index := IndexCompact(v.index, through), compacted := through)
  }

  /** Whether the index still refers to the record at `r` for `key`, as of `through`. */
  predicate Live(ix: Index, key: Key, through: Revision, r: Revision) {
    IndexLatest(ix, key, through) == Some(r)
  }

  /** Log compaction through `through` may drop the record at `r`. */
  ghost predicate MayDrop(v: View, through: Revision, r: Revision) {
    && 0 < r <= through
    && r <= |v.log|
    && forall e :: e in v.log[r - 1] ==> !Live(v.index, e.kv.key, through, r)
  }

  ghost predicate EvaluateStep(s: Sys, s': Sys, req: Request, snapshot: Revision) {
    && |s.initial| <= snapshot <= s.view.applied
    && Evaluate(s.view, req, snapshot).Ok?
    && WritesOnce(Evaluate(s.view, req, snapshot).value.events)
    && s' == s.(evaluated := s.evaluated + {Submission(req, snapshot, s.view)})
  }

  ghost predicate SubmitStep(s: Sys, s': Sys, sub: Submission) {
    && sub in s.evaluated
    && var o := Evaluate(sub.view, sub.req, sub.snapshot);
       && o.Ok?
       && o.value.events != []   // a transaction that writes nothing is never appended
       && s' == s.(evaluated := s.evaluated - {sub},
                   submitted := s.submitted + [sub],
                   committer := AddTxn(s.committer, o.value.events, o.value.meta))
  }

  ghost predicate FlushStep(s: Sys, s': Sys) {
    var c := FlushNext(s.committer);
    s' == s.(committer := c, view := s.view.(log := LogOf(s.initial, c.progress.committed)))
  }

  ghost predicate ApplyStep(s: Sys, s': Sys) {
    && s.view.applied < |s.view.log|
    && var r := s.view.applied + 1;
       s' == s.(view := s.view.(index := IndexRecord(s.view.index, s.view.log[r - 1], r), applied := r))
  }

  ghost predicate CompactStep(s: Sys, s': Sys, revision: Revision) {
    var through := CompactPoint(s.watchers, Min(revision, s.view.applied));
    if through <= s.view.compacted then s' == s
    else s' == s.(view := CompactView(s.view, through), rewrites := s.rewrites + {through})
  }

  ghost predicate DropStep(s: Sys, s': Sys, r: Revision, through: Revision) {
    && through in s.rewrites
    && MayDrop(s.view, through, r)
    && s' == s.(view := s.view.(dropped := s.view.dropped + {r}))
  }

  ghost predicate WatchStep(s: Sys, s': Sys, start: Revision) {
    && (start == 0 || start > s.view.compacted)
    && var done := if start == 0 then |s.view.log| else start - 1;
       s' == s.(watchers := s.watchers + [Watcher(done, false)])
  }

  ghost predicate DeliverStep(s: Sys, s': Sys, w: nat, upTo: Revision) {
    && w < |s.watchers|
    && s.watchers[w].delivered <= upTo
    && s' == s.(watchers := s.watchers[w := s.watchers[w].(delivered := upTo)])
  }

  ghost predicate CloseStep(s: Sys, s': Sys, w: nat) {
    && w < |s.watchers|
    && s' == s.(watchers := s.watchers[w := s.watchers[w].(closed := true)])
  }

  ghost predicate Next(s: Sys, a: Action, s': Sys) {
    match a
    case DoEvaluate(req, snapshot) => EvaluateStep(s, s', req, snapshot)
    case DoSubmit(sub) => SubmitStep(s, s', sub)
    case DoFlush => FlushStep(s, s')
    case DoApply => ApplyStep(s, s')
    case DoCompact(revision) => CompactStep(s, s', revision)
    case DoDrop(r, through) => DropStep(s, s', r, through)
    case DoWatch(start) => WatchStep(s, s', start)
    case DoDeliver(w, upTo) => DeliverStep(s, s', w, upTo)
    case DoClose(w) => CloseStep(s, s', w)
    case DoLeases(leases) => s' == s.(view := s.view.(leases := leases))
  }

  // ---------------------------------------------------------------------
  // What every step keeps

  /** A record of the log, stamped with its revision. */
  ghost predicate RecordOk(record: LogRecord, revision: Revision) {
    && WritesOnce(record)
    && (forall i :: 0 <= i < |record| ==> record[i].kv.modRevision == revision)
    && (forall i :: 0 <= i < |record| ==> record[i].kv.createRevision <= revision)
  }

  ghost predicate LogOk(log: seq<LogRecord>) {
    forall i :: 0 <= i < |log| ==> RecordOk(log[i], i + 1)
  }

  /** Every revision the index names is still in the log. */
  ghost predicate Joined(v: View) {
    && (forall k: Key, r :: r in RevsOf(v.index, k) ==> r !in v.dropped)
    && (forall r :: r in v.dropped ==> 0 < r <= v.compacted)
  }

  ghost predicate ViewOk(v: View) {
    && v.compacted <= v.applied <= |v.log|
    && IndexOk(v.index, v.log, v.applied, v.compacted)
    && LogOk(v.log)
    && Joined(v)
  }

  /** An evaluated transaction still stands for what it was: the log has only grown since. */
  ghost predicate SubmissionOk(sub: Submission, base: Revision, log: seq<LogRecord>) {
    && ViewOk(sub.view)
    && sub.view.log <= log
    && base <= sub.snapshot <= sub.view.applied
    && Evaluate(sub.view, sub.req, sub.snapshot).Ok?
    && WritesOnce(TxnOf(sub).events)
  }

  ghost function TxnOf(sub: Submission): Txn
    requires Evaluate(sub.view, sub.req, sub.snapshot).Ok?
  {
    Evaluate(sub.view, sub.req, sub.snapshot).value
  }

  /** What waits in the batching layer is what was submitted. */
  ghost predicate ArrivalOk(t: PendingTxn, sub: Submission, base: Revision, log: seq<LogRecord>) {
    && SubmissionOk(sub, base, log)
    && t.record == TxnOf(sub).events
    && t.meta == TxnOf(sub).meta
  }

  ghost predicate ArrivalsOk(arrivals: seq<PendingTxn>, submitted: seq<Submission>, base: Revision, log: seq<LogRecord>) {
    && |submitted| == |arrivals|
    && forall t :: 0 <= t < |arrivals| ==> ArrivalOk(arrivals[t], submitted[t], base, log)
  }

  /** Everything the transaction at log position `i` looked up is what the store held just before it. */
  ghost predicate SerialAt(initial: seq<LogRecord>, committed: seq<PendingTxn>, submitted: seq<Submission>, i: int)
    requires 0 <= i < |committed|
  {
    && committed[i].ticket < |submitted|
    && var sub := submitted[committed[i].ticket];
       && Evaluate(sub.view, sub.req, sub.snapshot).Ok?
       && AllAgree(sub.view, TxnOf(sub), StateAt(LogOf(initial, committed), |initial| + i))
  }

  ghost predicate CommitsOk(initial: seq<LogRecord>, committed: seq<PendingTxn>, submitted: seq<Submission>) {
    && LogOk(LogOf(initial, committed))
    && (forall i :: 0 <= i < |committed| ==> SerialAt(initial, committed, submitted, i))
    && (forall i :: 0 <= i < |committed| ==> WritesTouched(committed[i]))
  }

  ghost predicate WritesTouched(t: PendingTxn) {
    forall k: Key :: Wrote(t, k) <==> Touches(t.record, k)
  }

  ghost predicate WatcherOk(w: Watcher, compacted: Revision) {
    !w.closed ==> compacted <= w.delivered
  }

  ghost predicate Inv(s: Sys) {
    && s.view.log == LogOf(s.initial, s.committer.progress.committed)
    && |s.initial| <= s.view.applied
    && ViewOk(s.view)
    && s.committer.base == |s.initial|
    && GroupCommit.Inv(s.committer)
    && ArrivalsOk(s.committer.arrivals, s.submitted, |s.initial|, s.view.log)
    && (forall sub :: sub in s.evaluated ==> SubmissionOk(sub, |s.initial|, s.view.log))
    && CommitsOk(s.initial, s.committer.progress.committed, s.submitted)
    && (forall r :: r in s.rewrites ==> r <= s.view.compacted)
    && (forall i :: 0 <= i < |s.watchers| ==> WatcherOk(s.watchers[i], s.view.compacted))
  }

  // ---------------------------------------------------------------------
  // Lookups

  /** A lookup never meets a record that is gone or that does not mention the key. */
  lemma LookupIsWhole(v: View, key: Key, at: Revision)
    requires ViewOk(v)
    ensures Observe(v, key, at).Absent? || Observe(v, key, at).Found?
    ensures Observe(v, key, at).Found? ==>
              var r := Observe(v, key, at).revision;
              && IndexLatest(v.index, key, at) == Some(r)
              && WrittenAt(v.log, r, key)
              && FindEvent(v.log[r - 1], key) == Some(Observe(v, key, at).event)
  {
    assert KeyOk(v.index, v.log, v.applied, v.compacted, key);
  }

  lemma LogOkWritesOnce(log: seq<LogRecord>, n: nat)
    requires LogOk(log) && n <= |log|
    ensures forall i :: 0 <= i < n ==> WritesOnce(log[i])
  {
    forall i | 0 <= i < n
      ensures WritesOnce(log[i])
    {
      assert RecordOk(log[i], i + 1);
    }
  }

  lemma FoundIsState(v: View, key: Key, at: Revision)
    requires ViewOk(v) && at <= v.applied && Observe(v, key, at).Found?
    ensures Observe(v, key, at).revision == LastWrite(v.log, at, key)
    ensures Visible(Observe(v, key, at)) == Lookup(StateAt(v.log, at), key)
  {
    LookupIsWhole(v, key, at);
    assert KeyOk(v.index, v.log, v.applied, v.compacted, key);
    FoundIsLastWrite(RevsOf(v.index, key), TombstoneOf(v.index, key), v.log, v.applied, v.compacted, key, at);
    LogOkWritesOnce(v.log, at);
    StateIsLastWrite(v.log, at, key);
  }

  /** Whether `key` is written between a snapshot and the compaction point. */
  ghost predicate WrittenBelowPoint(v: View, key: Key, at: Revision)
    requires v.compacted <= |v.log|
  {
    at < v.compacted && at < LastWrite(v.log, v.compacted, key)
  }

  lemma AbsentIsState(v: View, key: Key, at: Revision)
    requires ViewOk(v) && at <= v.applied && Observe(v, key, at).Absent?
    ensures Lookup(StateAt(v.log, at), key).None? || WrittenBelowPoint(v, key, at)
  {
    assert KeyOk(v.index, v.log, v.applied, v.compacted, key);
    AbsentIsExplained(RevsOf(v.index, key), TombstoneOf(v.index, key), v.log, v.applied, v.compacted, key, at);
    LogOkWritesOnce(v.log, at);
    StateIsLastWrite(v.log, at, key);
  }

  /** A key written between the read and the compaction point has lost the revision the read needs. */
  lemma LostBelowPoint(v: View, key: Key, at: Revision)
    requires ViewOk(v) && WrittenBelowPoint(v, key, at)
    ensures Observe(v, key, at).Absent?
  {
    var revs := RevsOf(v.index, key);
    assert KeyOk(v.index, v.log, v.applied, v.compacted, key);
    OneBelowPoint(revs, v.compacted);
  }

  /** A read below the point: the key was there, and is not found. */
  lemma LostReadExample(k: Key, a: KeyValue, b: KeyValue)
    requires a.key == k && b.key == k
    ensures var log := [[Event(PUT, a, None)], [Event(PUT, b, Some(a))]];
            var v := View(map[k := KeyRevs([1, 2], false)], log, {}, 2, 0, {});
            && Visible(Observe(v, k, 1)) == Some(a) == Lookup(StateAt(log, 1), k)
            && Observe(CompactView(v, 2), k, 1).Absent?
  {
    var log := [[Event(PUT, a, None)], [Event(PUT, b, Some(a))]];
    var v := View(map[k := KeyRevs([1, 2], false)], log, {}, 2, 0, {});
    assert [1, 2][..1] == [1];
    assert LatestAt([1, 2], 1) == LatestAt([1], 1) == Some(1);
    assert StateAt(log, 0) == map[];
    assert ApplyRecord(map[], log[0]) == map[k := a] by {
      assert log[0][1..] == [];
    }
    var w := CompactView(v, 2);
    OneBelow(w.index, v.index, k);
  }

  lemma OneBelow(w: Index, ix: Index, k: Key)
    requires ix == map[k := KeyRevs([1, 2], false)] && w == IndexCompact(ix, 2)
    ensures IndexLatest(w, k, 1).None?
  {
    var revs: seq<Revision> := [1, 2];
    assert FirstAbove(revs, 2) == 2;
    assert CompactRevs(ix[k], 2).revs == [2];
    assert [2 as Revision][..0] == [];
  }

  /**
   A read at revision `at` is right if and only if it is at or above the
   compaction point, or the key was not there, or the key was not written
   between the two.
   */
  lemma ReadIsExact(v: View, key: Key, at: Revision)
    requires ViewOk(v) && at <= v.applied
    ensures Visible(Observe(v, key, at)) == Lookup(StateAt(v.log, at), key)
            <==> Lookup(StateAt(v.log, at), key).None? || !WrittenBelowPoint(v, key, at)
  {
    LookupIsWhole(v, key, at);
    if Observe(v, key, at).Found? {
      FoundIsState(v, key, at);
      if WrittenBelowPoint(v, key, at) {
        LostBelowPoint(v, key, at);
      }
    } else {
      AbsentIsState(v, key, at);
    }
  }

  /** Live values were created at or before the revision they are read at. */
  lemma ViewCreated(v: View, snapshot: Revision)
    requires ViewOk(v)
    ensures CreatedBy(v, snapshot)
  {
    forall k: Key | Visible(Observe(v, k, snapshot)).Some?
      ensures Visible(Observe(v, k, snapshot)).value.createRevision <= snapshot
    {
      LookupIsWhole(v, k, snapshot);
      var o := Observe(v, k, snapshot);
      assert RecordOk(v.log[o.revision - 1], o.revision);
      var i :| 0 <= i < |v.log[o.revision - 1]| && v.log[o.revision - 1][i] == o.event;
    }
  }

  lemma ViewHistory(v: View, snapshot: Revision, log: seq<LogRecord>)
    requires ViewOk(v) && snapshot <= v.applied && v.log <= log
    ensures HistoryOk(v, snapshot, log)
  {
    forall k: Key, q: Revision | v.compacted <= q <= snapshot
      ensures Visible(Observe(v, k, q)) == Lookup(StateAt(log, q), k)
    {
      ReadIsExact(v, k, q);
      PrefixStable(v.log, log[|v.log|..], q, k);
      assert v.log + log[|v.log|..] == log;
    }
  }

  /**
   If a key has not been written after the snapshot, then what the lookup
   found is what the store holds now, even when the index was compacted past
   the snapshot before the lookup.
   */
  lemma QuietKeyAgrees(v: View, snapshot: Revision, log: seq<LogRecord>, key: Key)
    requires ViewOk(v) && snapshot <= v.applied && v.log <= log && LogOk(log)
    requires LastWrite(log, |log|, key) <= snapshot
    ensures Visible(Observe(v, key, snapshot)) == Lookup(StateAt(log, |log|), key)
  {
    hide Observe, Visible, IndexOk, LogOk, Joined, StateAt, LastWrite, FindEvent, EventValue;
    var more := log[|v.log|..];
    assert v.log + more == log;
    LastWriteMonotone(log, snapshot, |log|, key);
    LastWriteMonotone(log, v.compacted, |log|, key);
    PrefixStable(v.log, more, snapshot, key);
    PrefixStable(v.log, more, v.compacted, key);
    ReadIsExact(v, key, snapshot);
    LogOkWritesOnce(log, |log|);
    StateIsLastWrite(log, snapshot, key);
    StateIsLastWrite(log, |log|, key);
  }

  // ---------------------------------------------------------------------
  // Committing

  lemma LogOfSnoc(initial: seq<LogRecord>, committed: seq<PendingTxn>, t: PendingTxn)
    ensures LogOf(initial, committed + [t]) == LogOf(initial, committed) + [t.record]
  {
  }

  lemma LastWriteSnoc(log: seq<LogRecord>, record: LogRecord, key: Key)
    ensures LastWrite(log + [record], |log| + 1, key) == if Touches(record, key) then |log| + 1 else LastWrite(log, |log|, key)
  {
    PrefixStable(log, [record], |log|, key);
  }

  /** A key's last write is its last commit, or else it predates the process. */
  lemma {:induction false} LastWriteIsLastCommitted(initial: seq<LogRecord>, committed: seq<PendingTxn>, key: Key)
    requires forall i :: 0 <= i < |committed| ==> WritesTouched(committed[i])
    ensures var log := LogOf(initial, committed);
            var c := LastCommitted(committed, |initial|, key);
            LastWrite(log, |log|, key) == if c > 0 then c else LastWrite(initial, |initial|, key)
  {
    hide LastWrite, Touches, Wrote;
    if committed == [] {
      assert LogOf(initial, committed) == initial;
    } else {
      var n := |committed| - 1;
      var front, t := committed[..n], committed[n];
      assert committed == front + [t];
      assert forall i :: 0 <= i < |front| ==> WritesTouched(front[i]);
      LastWriteIsLastCommitted(initial, front, key);
      LogOfSnoc(initial, front, t);
      LastWriteSnoc(LogOf(initial, front), t.record, key);
      assert WritesTouched(t);
    }
  }

  /** What validation guarantees of a key the transaction read or wrote. */
  lemma AcceptedKeyIsQuiet(initial: seq<LogRecord>, p: Progress, sub: Submission, start: Revision, key: Key)
    requires forall i :: 0 <= i < |p.committed| ==> WritesTouched(p.committed[i])
    requires WritesExact(p, |initial|)
    requires SubmissionOk(sub, |initial|, LogOf(initial, p.committed))
    requires Validate(TxnOf(sub).meta, start, p.writes)
    requires TxnOf(sub).meta.hasRangeRead ==> WriteRevision(p.writes, key) <= start
    requires key in TxnOf(sub).meta.readSet || key in TxnOf(sub).meta.writeSet
    ensures var log := LogOf(initial, p.committed);
            LastWrite(log, |log|, key) <= sub.snapshot
  {
    var t := TxnOf(sub);
    ViewCreated(sub.view, sub.snapshot);
    EvaluateIsStaged(sub.view, sub.req, sub.snapshot);
    LastWriteIsLastCommitted(initial, p.committed, key);
    assert WriteRevision(p.writes, key) == LastCommitted(p.committed, |initial|, key);
    if !t.meta.hasRangeRead && key in t.meta.readSet {
      LookupIsWhole(sub.view, key, sub.snapshot);
    }
  }

  /** An accepted transaction read what the store holds just before its own revision. */
  lemma AcceptedAgrees(initial: seq<LogRecord>, p: Progress, sub: Submission, start: Revision)
    requires forall i :: 0 <= i < |p.committed| ==> WritesTouched(p.committed[i])
    requires WritesExact(p, |initial|)
    requires LogOk(LogOf(initial, p.committed))
    requires SubmissionOk(sub, |initial|, LogOf(initial, p.committed))
    requires Validate(TxnOf(sub).meta, start, p.writes)
    requires TxnOf(sub).meta.hasRangeRead ==>
               forall k :: k in TxnOf(sub).meta.readSet || k in TxnOf(sub).meta.writeSet ==> WriteRevision(p.writes, k) <= start
    ensures var log := LogOf(initial, p.committed);
            AllAgree(sub.view, TxnOf(sub), StateAt(log, |log|))
  {
    var log := LogOf(initial, p.committed);
    var t := TxnOf(sub);
    ViewCreated(sub.view, sub.snapshot);
    EvaluateIsStaged(sub.view, sub.req, sub.snapshot);
    forall k | k in t.meta.readSet || k in t.meta.writeSet
      ensures Agrees(sub.view, t.meta.snapshot, StateAt(log, |log|), k)
    {
      AcceptedKeyIsQuiet(initial, p, sub, start, k);
      QuietKeyAgrees(sub.view, sub.snapshot, log, k);
    }
  }

  /** The re-stamped record is a proper record of its revision. */
  lemma StampedIsRecord(sub: Submission, base: Revision, log: seq<LogRecord>)
    requires SubmissionOk(sub, base, log)
    ensures RecordOk(Stamp(TxnOf(sub).events, |log| + 1), |log| + 1)
  {
    ViewCreated(sub.view, sub.snapshot);
    EvaluateIsStaged(sub.view, sub.req, sub.snapshot);
  }

  lemma {:induction false} StampTouches(record: LogRecord, revision: Revision, key: Key)
    ensures Touches(Stamp(record, revision), key) <==> Touches(record, key)
  {
    var r := Stamp(record, revision);
    if Touches(record, key) {
      var e := FindEvent(record, key).value;
      var i :| 0 <= i < |record| && record[i] == e;
      assert r[i] in r && r[i].kv.key == key;
    }
    if Touches(r, key) {
      var e := FindEvent(r, key).value;
      var i :| 0 <= i < |r| && r[i] == e;
      assert record[i] in record && record[i].kv.key == key;
    }
  }

  lemma SerialAtGrows(initial: seq<LogRecord>, committed: seq<PendingTxn>, t: PendingTxn, submitted: seq<Submission>,
                      i: nat)
    requires i < |committed| && SerialAt(initial, committed, submitted, i)
    ensures SerialAt(initial, committed + [t], submitted, i)
  {
    LogOfSnoc(initial, committed, t);
    PrefixStable(LogOf(initial, committed), [t.record], |initial| + i, []);
    assert (committed + [t])[i] == committed[i];
  }

  lemma SubmissionGrows(sub: Submission, base: Revision, log: seq<LogRecord>, log': seq<LogRecord>)
    requires SubmissionOk(sub, base, log) && log <= log'
    ensures SubmissionOk(sub, base, log')
  {
  }

  lemma LogOkSnoc(log: seq<LogRecord>, record: LogRecord)
    requires LogOk(log) && RecordOk(record, |log| + 1)
    ensures LogOk(log + [record])
  {
  }

  lemma StampedWritesTouched(t: PendingTxn, sub: Submission, base: Revision, log: seq<LogRecord>)
    requires ArrivalOk(t, sub, base, log)
    ensures WritesTouched(t.(record := Stamp(t.record, |log| + 1)))
  {
    ViewCreated(sub.view, sub.snapshot);
    EvaluateIsStaged(sub.view, sub.req, sub.snapshot);
    var t' := t.(record := Stamp(t.record, |log| + 1));
    forall k: Key
      ensures Wrote(t', k) <==> Touches(t'.record, k)
    {
      StampTouches(t.record, |log| + 1, k);
    }
  }

  lemma CommitsGrow(initial: seq<LogRecord>, committed: seq<PendingTxn>, t: PendingTxn, submitted: seq<Submission>)
    requires CommitsOk(initial, committed, submitted)
    requires var log := LogOf(initial, committed);
             && RecordOk(t.record, |log| + 1)
             && WritesTouched(t)
             && t.ticket < |submitted|
             && var sub := submitted[t.ticket];
                && Evaluate(sub.view, sub.req, sub.snapshot).Ok?
                && AllAgree(sub.view, TxnOf(sub), StateAt(log, |log|))
    ensures CommitsOk(initial, committed + [t], submitted)
  {
    hide Evaluate, AllAgree, StateAt, WritesTouched, RecordOk, LogOk, SerialAt;
    var log := LogOf(initial, committed);
    LogOfSnoc(initial, committed, t);
    LogOkSnoc(log, t.record);
    forall i | 0 <= i < |committed|
      ensures SerialAt(initial, committed + [t], submitted, i)
    {
      SerialAtGrows(initial, committed, t, submitted, i);
    }
    SerialAtLast(initial, committed, t, submitted);
  }

  lemma SerialAtLast(initial: seq<LogRecord>, committed: seq<PendingTxn>, t: PendingTxn, submitted: seq<Submission>)
    requires t.ticket < |submitted|
    requires var sub := submitted[t.ticket];
             var log := LogOf(initial, committed);
             && Evaluate(sub.view, sub.req, sub.snapshot).Ok?
             && AllAgree(sub.view, TxnOf(sub), StateAt(log, |log|))
    ensures SerialAt(initial, committed + [t], submitted, |committed|)
  {
    hide Evaluate, AllAgree, StateAt;
    var log := LogOf(initial, committed);
    LogOfSnoc(initial, committed, t);
    PrefixStable(log, [t.record], |log|, []);
  }

  /** Processing one transaction keeps every commit serial. */
  lemma ProcessOne(initial: seq<LogRecord>, p: Progress, t: PendingTxn, sub: Submission, submitted: seq<Submission>,
                   start: Revision)
    requires CommitsOk(initial, p.committed, submitted) && WritesExact(p, |initial|)
    requires t.ticket < |submitted| && submitted[t.ticket] == sub
    requires ArrivalOk(t, sub, |initial|, LogOf(initial, p.committed))
    requires t.meta.hasRangeRead ==>
               forall k :: k in t.meta.readSet || k in t.meta.writeSet ==> WriteRevision(p.writes, k) <= start
    ensures CommitsOk(initial, Process(p, |initial|, t, start).committed, submitted)
  {
    if Validate(t.meta, start, p.writes) {
      var log := LogOf(initial, p.committed);
      AcceptedAgrees(initial, p, sub, start);
      StampedIsRecord(sub, |initial|, log);
      StampedWritesTouched(t, sub, |initial|, log);
      CommitsGrow(initial, p.committed, t.(record := Stamp(t.record, |log| + 1)), submitted);
    }
  }

  /** Nothing a range reader looked up is written by the batch ahead of it. */
  lemma RangeReaderIsClear(p: Progress, base: Revision, batch: seq<PendingTxn>, i: nat, k: Key)
    requires i < |batch| && Compatible(batch) && WritesExact(p, base)
    requires k in batch[i].meta.readSet || k in batch[i].meta.writeSet
    ensures WriteRevision(ProcessAll(p, base, batch[..i], base + |p.committed|).writes, k) <= base + |p.committed|
  {
    var start := base + |p.committed|;
    forall j | 0 <= j < i
      ensures !Wrote(batch[..i][j], k)
    {
      assert CanBatchTogether(batch[j].meta, batch[i].meta);
    }
    ProcessKeepsWrite(p, base, batch[..i], start, k);
    assert WriteRevision(p.writes, k) == LastCommitted(p.committed, base, k);
  }

  ghost predicate Prefix(a: seq<LogRecord>, b: seq<LogRecord>) {
    a <= b
  }

  lemma LogOfGrows(initial: seq<LogRecord>, a: seq<PendingTxn>, b: seq<PendingTxn>)
    requires a <= b
    ensures Prefix(LogOf(initial, a), LogOf(initial, b))
  {
  }

  /** The state of a flush between two transactions of a batch. */
  ghost predicate Flushing(initial: seq<LogRecord>, p: Progress, arrivals: seq<PendingTxn>, submitted: seq<Submission>) {
    && Numbered(arrivals)
    && ProgressOk(p, |initial|, arrivals)
    && WritesExact(p, |initial|)
    && CommitsOk(initial, p.committed, submitted)
    && ArrivalsOk(arrivals, submitted, |initial|, LogOf(initial, p.committed))
  }

  lemma FlushOne(initial: seq<LogRecord>, p: Progress, arrivals: seq<PendingTxn>, submitted: seq<Submission>,
                 start: Revision)
    requires Flushing(initial, p, arrivals, submitted) && |p.results| < |arrivals|
    requires var t := arrivals[|p.results|];
             forall k :: k in t.meta.readSet || k in t.meta.writeSet ==> t.meta.hasRangeRead ==> WriteRevision(p.writes, k) <= start
    ensures Flushing(initial, Process(p, |initial|, arrivals[|p.results|], start), arrivals, submitted)
  {
    var t := arrivals[|p.results|];
    var q := Process(p, |initial|, t, start);
    ProcessKeepsProgress(p, |initial|, arrivals, start);
    ProcessKeepsWritesExact(p, |initial|, t, start);
    assert ArrivalOk(t, submitted[t.ticket], |initial|, LogOf(initial, p.committed));
    ProcessOne(initial, p, t, submitted[t.ticket], submitted, start);
    LogOfGrows(initial, p.committed, q.committed);
    ArrivalsGrowWithLog(arrivals, submitted, |initial|, LogOf(initial, p.committed), LogOf(initial, q.committed));
  }

  lemma ProcessAllNext(p: Progress, base: Revision, batch: seq<PendingTxn>, start: Revision, i: nat)
    requires i < |batch|
    ensures ProcessAll(p, base, batch[..i + 1], start) == Process(ProcessAll(p, base, batch[..i], start), base, batch[i], start)
  {
    assert batch[..i + 1][..i] == batch[..i];
  }

  /** Flushing transaction `i` of a batch keeps every commit serial. */
  lemma FlushNth(initial: seq<LogRecord>, p: Progress, arrivals: seq<PendingTxn>, submitted: seq<Submission>,
                 batch: seq<PendingTxn>, i: nat)
    requires i < |batch| && Compatible(batch) && WritesExact(p, |initial|)
    requires var q := ProcessAll(p, |initial|, batch[..i], |initial| + |p.committed|);
             && Flushing(initial, q, arrivals, submitted)
             && |q.results| < |arrivals|
             && batch[i] == arrivals[|q.results|]
    ensures Flushing(initial, ProcessAll(p, |initial|, batch[..i + 1], |initial| + |p.committed|), arrivals, submitted)
  {
    hide Flushing;
    var start := |initial| + |p.committed|;
    var q := ProcessAll(p, |initial|, batch[..i], start);
    forall k | k in batch[i].meta.readSet || k in batch[i].meta.writeSet
      ensures WriteRevision(q.writes, k) <= start
    {
      RangeReaderIsClear(p, |initial|, batch, i, k);
    }
    FlushOne(initial, q, arrivals, submitted, start);
    ProcessAllNext(p, |initial|, batch, start, i);
  }

  /** Flushing the first `i` transactions of a batch keeps every commit serial. */
  lemma {:induction false} FlushSome(initial: seq<LogRecord>, p: Progress, arrivals: seq<PendingTxn>,
                                     submitted: seq<Submission>, batch: seq<PendingTxn>, i: nat)
    requires i <= |batch| && Compatible(batch) && WritesExact(p, |initial|)
    requires Flushing(initial, p, arrivals, submitted)
    requires |p.results| + |batch| <= |arrivals|
    requires forall j :: 0 <= j < |batch| ==> batch[j] == arrivals[|p.results| + j]
    ensures Flushing(initial, ProcessAll(p, |initial|, batch[..i], |initial| + |p.committed|), arrivals, submitted)
  {
    hide Flushing, Compatible, WritesExact;
    if i == 0 {
      assert batch[..0] == [];
    } else {
      FlushSome(initial, p, arrivals, submitted, batch, i - 1);
      FlushCounts(p, |initial|, batch[..i - 1], |initial| + |p.committed|);
      FlushNth(initial, p, arrivals, submitted, batch, i - 1);
    }
  }

  lemma FlushBatchKeeps(initial: seq<LogRecord>, p: Progress, arrivals: seq<PendingTxn>, submitted: seq<Submission>,
                        batch: seq<PendingTxn>)
    requires Compatible(batch)
    requires Flushing(initial, p, arrivals, submitted)
    requires batch <= arrivals[|p.results|..]
    ensures Flushing(initial, ProcessAll(p, |initial|, batch, |initial| + |p.committed|), arrivals, submitted)
  {
    forall j | 0 <= j < |batch|
      ensures batch[j] == arrivals[|p.results| + j]
    {
      assert batch[j] == arrivals[|p.results|..][j];
    }
    FlushSome(initial, p, arrivals, submitted, batch, |batch|);
    assert batch[..|batch|] == batch;
  }

  // ---------------------------------------------------------------------
  // Every step keeps the invariant

  lemma StartInv(initial: seq<LogRecord>, index: Index, leases: set<int>)
    requires LogOk(initial) && IndexOk(index, initial, |initial|, 0)
    ensures Inv(Start(initial, index, leases))
  {
    assert LogOf(initial, []) == initial;
    GroupCommit.StartInv(|initial|);
  }

  lemma EvaluateKeeps(s: Sys, s': Sys, req: Request, snapshot: Revision)
    requires Inv(s) && EvaluateStep(s, s', req, snapshot)
    ensures Inv(s')
  {
    assert SubmissionOk(Submission(req, snapshot, s.view), |s.initial|, s.view.log);
  }

  lemma CommitsIgnoreNewSubmissions(initial: seq<LogRecord>, committed: seq<PendingTxn>, submitted: seq<Submission>,
                                    sub: Submission)
    requires CommitsOk(initial, committed, submitted)
    ensures CommitsOk(initial, committed, submitted + [sub])
  {
    forall i | 0 <= i < |committed|
      ensures SerialAt(initial, committed, submitted + [sub], i)
    {
      assert SerialAt(initial, committed, submitted, i);
    }
  }

  lemma SubmitKeeps(s: Sys, s': Sys, sub: Submission)
    requires Inv(s) && SubmitStep(s, s', sub)
    ensures Inv(s')
  {
    var t := TxnOf(sub);
    AddKeepsInv(s.committer, t.events, t.meta);
    CommitsIgnoreNewSubmissions(s.initial, s.committer.progress.committed, s.submitted, sub);
    var arrivals, arrivals' := s.committer.arrivals, s'.committer.arrivals;
    forall i | 0 <= i < |arrivals'|
      ensures ArrivalOk(arrivals'[i], s'.submitted[i], |s.initial|, s.view.log)
    {
      if i < |arrivals| {
        assert ArrivalOk(arrivals[i], s.submitted[i], |s.initial|, s.view.log);
      }
    }
  }

  lemma ViewGrows(v: View, log: seq<LogRecord>)
    requires ViewOk(v) && v.log <= log && LogOk(log)
    ensures ViewOk(v.(log := log))
  {
    assert v.log + log[|v.log|..] == log;
    LogGrowthKeepsIndex(v.index, v.log, log[|v.log|..], v.applied, v.compacted);
  }

  lemma ArrivalsGrowWithLog(arrivals: seq<PendingTxn>, submitted: seq<Submission>, base: Revision, log: seq<LogRecord>,
                            log': seq<LogRecord>)
    requires ArrivalsOk(arrivals, submitted, base, log) && log <= log'
    ensures ArrivalsOk(arrivals, submitted, base, log')
  {
    forall i | 0 <= i < |arrivals|
      ensures ArrivalOk(arrivals[i], submitted[i], base, log')
    {
      assert ArrivalOk(arrivals[i], submitted[i], base, log);
    }
  }

  lemma InvIsFlushing(s: Sys)
    requires Inv(s)
    ensures Flushing(s.initial, s.committer.progress, s.committer.arrivals, s.submitted)
  {
  }

  lemma FlushCommits(s: Sys)
    requires Inv(s)
    ensures var p := FlushNext(s.committer).progress;
            && Flushing(s.initial, p, s.committer.arrivals, s.submitted)
            && s.committer.progress.committed <= p.committed
  {
    hide Flushing, Numbered, ProgressOk, WritesExact, Compatible, CommitsOk, ArrivalsOk, ViewOk, SubmissionOk, WatcherOk, BatchesOk;
    InvIsFlushing(s);
    var c := s.committer;
    NextBatchWaits(c);
    ProcessAllKeeps(c.progress, c.base, c.arrivals, NextBatch(c), c.last);
    FlushBatchKeeps(s.initial, c.progress, c.arrivals, s.submitted, NextBatch(c));
  }

  lemma FlushKeeps(s: Sys, s': Sys)
    requires Inv(s) && FlushStep(s, s')
    ensures Inv(s')
  {
    GroupCommit.FlushKeepsInv(s.committer);
    FlushCommits(s);
    LogOfGrows(s.initial, s.committer.progress.committed, s'.committer.progress.committed);
    ViewGrows(s.view, s'.view.log);
    forall sub | sub in s'.evaluated
      ensures SubmissionOk(sub, |s.initial|, s'.view.log)
    {
      SubmissionGrows(sub, |s.initial|, s.view.log, s'.view.log);
    }
  }

  /** Applying a record names only the new revision, which no rewrite has reached. */
  lemma ApplyKeepsView(v: View)
    requires ViewOk(v) && v.applied < |v.log|
    ensures ViewOk(v.(index := IndexRecord(v.index, v.log[v.applied], v.applied + 1), applied := v.applied + 1))
  {
    var v' := v.(index := IndexRecord(v.index, v.log[v.applied], v.applied + 1), applied := v.applied + 1);
    assert RecordOk(v.log[v.applied], v.applied + 1);
    ApplyKeepsIndex(v.index, v.log, v.applied, v.compacted);
    forall k: Key, r | r in RevsOf(v'.index, k)
      ensures r !in v'.dropped
    {
      IndexRecordEntry(v.index, v.log[v.applied], v.applied + 1, k);
      assert r in RevsOf(v.index, k) || r == v.applied + 1;
    }
  }

  lemma ApplyKeeps(s: Sys, s': Sys)
    requires Inv(s) && ApplyStep(s, s')
    ensures Inv(s')
  {
    ApplyKeepsView(s.view);
  }

  lemma CompactKeepsView(v: View, through: Revision)
    requires ViewOk(v) && v.compacted <= through <= v.applied
    ensures ViewOk(CompactView(v, through))
  {
    CompactKeepsIndex(v.index, v.log, v.applied, v.compacted, through);
    forall k: Key, r | r in RevsOf(IndexCompact(v.index, through), k)
      ensures r !in v.dropped
    {
      assert KeyOk(v.index, v.log, v.applied, v.compacted, k);
      KeptExactly(v.index[k], through, r);
      assert r in RevsOf(v.index, k);
    }
  }

  lemma CompactKeeps(s: Sys, s': Sys, revision: Revision)
    requires Inv(s) && CompactStep(s, s', revision)
    ensures Inv(s')
  {
    var through := CompactPoint(s.watchers, Min(revision, s.view.applied));
    if through > s.view.compacted {
      CompactKeepsView(s.view, through);
    }
  }

  /**
   The index never refers to a record a rewrite may drop, even a rewrite for an
   older point than the index has since been compacted through.
   */
  lemma DroppedIsUnreferenced(v: View, through: Revision, r: Revision, key: Key)
    requires ViewOk(v) && through <= v.compacted && MayDrop(v, through, r)
    ensures r !in RevsOf(v.index, key)
  {
    var revs := RevsOf(v.index, key);
    assert KeyOk(v.index, v.log, v.applied, v.compacted, key);
    OneBelowPoint(revs, v.compacted);
    if r in revs {
      LatestIs(revs, through, r);
    }
  }

  lemma DropKeeps(s: Sys, s': Sys, r: Revision, through: Revision)
    requires Inv(s) && DropStep(s, s', r, through)
    ensures Inv(s')
  {
    forall k: Key, q | q in RevsOf(s'.view.index, k)
      ensures q !in s'.view.dropped
    {
      DroppedIsUnreferenced(s.view, through, r, k);
    }
    assert IndexOk(s'.view.index, s'.view.log, s'.view.applied, s'.view.compacted);
  }

  lemma WatchersKeep(s: Sys, a: Action, s': Sys)
    requires Inv(s) && Next(s, a, s')
    requires a.DoWatch? || a.DoDeliver? || a.DoClose? || a.DoLeases?
    ensures Inv(s')
  {
    assert IndexOk(s'.view.index, s'.view.log, s'.view.applied, s'.view.compacted);
    assert Joined(s'.view);
    assert CommitsOk(s'.initial, s'.committer.progress.committed, s'.submitted);
  }

  lemma NextKeepsInv(s: Sys, a: Action, s': Sys)
    requires Inv(s) && Next(s, a, s')
    ensures Inv(s')
  {
    match a
    case DoEvaluate(req, snapshot) => EvaluateKeeps(s, s', req, snapshot);
    case DoSubmit(sub) => SubmitKeeps(s, s', sub);
    case DoFlush => FlushKeeps(s, s');
    case DoApply => ApplyKeeps(s, s');
    case DoCompact(revision) => CompactKeeps(s, s', revision);
    case DoDrop(r, through) => DropKeeps(s, s', r, through);
    case _ => WatchersKeep(s, a, s');
  }

  ghost predicate IsRun(run: seq<Sys>, actions: seq<Action>) {
    && |run| == |actions| + 1
    && LogOk(run[0].initial)
    && IndexOk(run[0].view.index, run[0].initial, |run[0].initial|, 0)
    && run[0] == Start(run[0].initial, run[0].view.index, run[0].view.leases)
    && forall i :: 0 <= i < |actions| ==> Next(run[i], actions[i], run[i + 1])
  }

  lemma {:induction false} EveryRunKeepsInv(run: seq<Sys>, actions: seq<Action>, i: nat)
    requires IsRun(run, actions) && i < |run|
    ensures Inv(run[i])
  {
    if i == 0 {
      StartInv(run[0].initial, run[0].view.index, run[0].view.leases);
    } else {
      hide Inv;
      EveryRunKeepsInv(run, actions, i - 1);
      assert Next(run[i - 1], actions[i - 1], run[i]);
      NextKeepsInv(run[i - 1], actions[i - 1], run[i]);
    }
  }

  /** The log, what is applied of it and the compaction point only ever move on. */
  lemma StepGrows(s: Sys, a: Action, s': Sys)
    requires Inv(s) && Next(s, a, s')
    ensures s'.initial == s.initial && s.view.log <= s'.view.log
    ensures s.view.applied <= s'.view.applied && s.view.compacted <= s'.view.compacted
  {
    hide ViewOk, CommitsOk, ArrivalsOk, GroupCommit.Inv, SubmissionOk, LogOf, Evaluate;
    if a.DoFlush? {
      FlushCommits(s);
      LogOfGrows(s.initial, s.committer.progress.committed, s'.committer.progress.committed);
    }
  }

  lemma RunStep(run: seq<Sys>, actions: seq<Action>, i: nat)
    requires IsRun(run, actions) && i + 1 < |run|
    ensures i < |actions| && Next(run[i], actions[i], run[i + 1])
  {
    hide Next;
  }

  lemma {:induction false} RunGrows(run: seq<Sys>, actions: seq<Action>, i: nat, j: nat)
    requires IsRun(run, actions) && i <= j < |run|
    ensures run[j].initial == run[i].initial && run[i].view.log <= run[j].view.log
    ensures run[i].view.applied <= run[j].view.applied && run[i].view.compacted <= run[j].view.compacted
    decreases j - i
  {
    hide Inv, Next, IsRun;
    if i < j {
      RunGrows(run, actions, i, j - 1);
      EveryRunKeepsInv(run, actions, j - 1);
      RunStep(run, actions, j - 1);
      StepGrows(run[j - 1], actions[j - 1], run[j]);
    }
  }

  // ---------------------------------------------------------------------
  // What follows, in every state of every run

  lemma OriginIs(s: Sys, i: nat)
    requires Inv(s) && i < |s.committer.progress.committed|
    ensures s.committer.progress.committed[i].ticket < |s.submitted|
    ensures |s.initial| + i < |s.view.log|
    ensures var sub := s.submitted[s.committer.progress.committed[i].ticket];
            && SubmissionOk(sub, |s.initial|, s.view.log)
            && s.view.log[|s.initial| + i] == Stamp(TxnOf(sub).events, |s.initial| + i + 1)
            && AllAgree(sub.view, TxnOf(sub), StateAt(s.view.log, |s.initial| + i))
  {
    hide Evaluate, AllAgree, StateAt, Stamp, ViewOk, LogOk, WritesOnce, WritesExact, BatchesOk;
    var p := s.committer.progress;
    var t := p.committed[i].ticket;
    assert PositionOk(p, |s.initial|, s.committer.arrivals, i);
    assert ArrivalOk(s.committer.arrivals[t], s.submitted[t], |s.initial|, s.view.log);
    assert SerialAt(s.initial, p.committed, s.submitted, i);
    assert s.view.log[|s.initial| + i] == p.committed[i].record;
  }

  /** The transaction whose record is at position `i` of what has committed. */
  ghost function Origin(s: Sys, i: nat): (sub: Submission)
    requires Inv(s) && i < |s.committer.progress.committed|
    ensures SubmissionOk(sub, |s.initial|, s.view.log)
    ensures |s.initial| + i < |s.view.log|
    ensures s.view.log[|s.initial| + i] == Stamp(TxnOf(sub).events, |s.initial| + i + 1)
    ensures AllAgree(sub.view, TxnOf(sub), StateAt(s.view.log, |s.initial| + i))
  {
    OriginIs(s, i);
    s.submitted[s.committer.progress.committed[i].ticket]
  }

  /**
   Serial order: every record of the log is what its request produces when it
   is run alone, on the store as it stands just before the record's own
   revision, if and only if none of the request's deletes was stale. This holds
   whatever was evaluated, batched, applied, compacted and dropped in between.
   */
  lemma LogIsSerial(s: Sys, i: nat)
    requires Inv(s) && i < |s.committer.progress.committed|
    ensures var sub := Origin(s, i);
            var revision := |s.initial| + i + 1;
            var st := StateAt(s.view.log, revision - 1);
            && (TxnOf(sub).succeeded <==> SerialCompares(sub.req.compares, st))
            && (s.view.log[revision - 1] == SerialAll(Branch(sub.req, st), st, revision)
                <==> NoStaleDelete(sub.view, sub.snapshot, st, Branch(sub.req, st)))
  {
    hide Inv, Origin, ViewOk, Evaluate, AllAgree, CreatedBy, StateAt, Stamp, SerialAll, SerialCompares, NoStaleDelete, Branch;
    var sub := Origin(s, i);
    ViewCreated(sub.view, sub.snapshot);
    EvaluateAgrees(sub.view, sub.req, sub.snapshot, StateAt(s.view.log, |s.initial| + i), |s.initial| + i + 1);
  }

  /** And its client was told what running it alone would have told it, except for range reads. */
  lemma ResponsesAreSerial(s: Sys, i: nat)
    requires Inv(s) && i < |s.committer.progress.committed|
    requires var st := StateAt(s.view.log, |s.initial| + i);
             NoStaleDelete(Origin(s, i).view, Origin(s, i).snapshot, st, Branch(Origin(s, i).req, st))
    ensures var sub := Origin(s, i);
            var st := StateAt(s.view.log, |s.initial| + i);
            var responses := TxnOf(sub).responses;
            && |responses| == |Branch(sub.req, st)|
            && forall j :: 0 <= j < |responses| ==> SerialResponse(Branch(sub.req, st)[j], st, s.view.log, responses[j])
  {
    var sub := Origin(s, i);
    hide Inv;
    ViewCreated(sub.view, sub.snapshot);
    ViewHistory(sub.view, sub.snapshot, s.view.log);
    EvaluateResponds(sub.view, sub.req, sub.snapshot, StateAt(s.view.log, |s.initial| + i), s.view.log);
  }

  /** Every event of every committed record names its true predecessor and continues from it. */
  lemma EventsContinue(s: Sys, i: nat)
    requires Inv(s) && i < |s.committer.progress.committed|
    ensures EventsOk(s.view.log[|s.initial| + i], StateAt(s.view.log, |s.initial| + i), |s.initial| + i + 1)
  {
    hide Inv, Origin, ViewOk, Evaluate, AllAgree, CreatedBy, StateAt, Stamp, EventsOk;
    var sub := Origin(s, i);
    ViewCreated(sub.view, sub.snapshot);
    EvaluateEvents(sub.view, sub.req, sub.snapshot, StateAt(s.view.log, |s.initial| + i), |s.initial| + i + 1);
  }

  /**
   The index and the log stay joined: in no state does evaluating a request end
   the process because a record is missing. It does if and only if the code says
   so: the operations taken reach a delete of a key whose latest write is
   already a delete.
   */
  lemma ExitIsExact(s: Sys, req: Request, snapshot: Revision)
    requires Inv(s)
    ensures Evaluate(s.view, req, snapshot).Exit? <==>
            var c := EvalCompares(s.view, NewTxn(snapshot), req.compares);
            c.Ok? && ReachesDeleted(s.view, c.value, if c.value.succeeded then req.success else req.failure)
  {
    hide Inv, ViewOk, ReachesDeleted, Evaluate, EvalCompares;
    assert ViewOk(s.view) by { InvView(s); }
    forall k: Key, at: Revision
      ensures Observe(s.view, k, at).Absent? || Observe(s.view, k, at).Found?
    {
      LookupIsWhole(s.view, k, at);
    }
    EvaluateExit(s.view, req, snapshot);
  }

  lemma InvView(s: Sys)
    requires Inv(s)
    ensures ViewOk(s.view)
  {
  }

  /** What an open watcher has still to deliver has not been dropped from the log. */
  lemma WatcherIsNeverCutOff(s: Sys, w: nat, r: Revision)
    requires Inv(s) && w < |s.watchers| && !s.watchers[w].closed
    requires s.watchers[w].delivered < r <= |s.view.log|
    ensures r > s.view.compacted
    ensures ReadLog(s.view, r) == Some(s.view.log[r - 1])
  {
    hide ViewOk, CommitsOk, ArrivalsOk, GroupCommit.Inv, SubmissionOk, LogOf;
    assert WatcherOk(s.watchers[w], s.view.compacted);
    InvView(s);
    ViewJoined(s.view);
  }

  lemma ViewJoined(v: View)
    requires ViewOk(v)
    ensures Joined(v)
  {
  }

  /** The next record to apply to the index has not been dropped from the log. */
  lemma NextToApplyIsReadable(s: Sys, r: Revision)
    requires Inv(s) && s.view.applied < r <= |s.view.log|
    ensures ReadLog(s.view, r) == Some(s.view.log[r - 1])
  {
    hide CommitsOk, ArrivalsOk, GroupCommit.Inv, SubmissionOk, LogOf, IndexOk, LogOk;
  }

  /** What log compaction once found dead stays dead: applying and compacting never revive it. */
  lemma DeadStaysDead(s: Sys, a: Action, s': Sys, key: Key, through: Revision, r: Revision)
    requires Inv(s) && Next(s, a, s') && through <= s.view.compacted
    requires !Live(s.view.index, key, through, r) && r <= through
    ensures !Live(s'.view.index, key, through, r)
  {
    if a.DoApply? {
      InvView(s);
      ApplyKeepsLatest(s.view, key, through);
    } else if a.DoCompact? {
      InvView(s);
      if s'.view != s.view {
        CompactKeepsDead(s.view, s'.view.compacted, key, through, r);
      }
    }
  }

  /** Nothing later revives it, whatever happens in between. */
  lemma {:induction false} DeadForGood(run: seq<Sys>, actions: seq<Action>, i: nat, j: nat, key: Key, through: Revision,
                                       r: Revision)
    requires IsRun(run, actions) && i <= j < |run| && r <= through <= run[i].view.compacted
    requires !Live(run[i].view.index, key, through, r)
    ensures !Live(run[j].view.index, key, through, r)
    decreases j - i
  {
    hide Inv, Next, IsRun, Live;
    if i < j {
      DeadForGood(run, actions, i, j - 1, key, through, r);
      RunGrows(run, actions, i, j - 1);
      EveryRunKeepsInv(run, actions, j - 1);
      RunStep(run, actions, j - 1);
      DeadStaysDead(run[j - 1], actions[j - 1], run[j], key, through, r);
    }
  }

  /** And as long as the index is not compacted further, what was live stays live. */
  lemma {:induction false} LiveStaysLive(run: seq<Sys>, actions: seq<Action>, i: nat, j: nat, key: Key,
                                         through: Revision, r: Revision)
    requires IsRun(run, actions) && i <= j < |run| && r <= through <= run[i].view.compacted == run[j].view.compacted
    requires Live(run[i].view.index, key, through, r)
    ensures Live(run[j].view.index, key, through, r)
    decreases j - i
  {
    hide Inv, Next, IsRun, Live;
    if i < j {
      RunGrows(run, actions, i, j - 1);
      RunGrows(run, actions, j - 1, j);
      LiveStaysLive(run, actions, i, j - 1, key, through, r);
      EveryRunKeepsInv(run, actions, j - 1);
      RunStep(run, actions, j - 1);
      LiveStays(run[j - 1], actions[j - 1], run[j], key, through, r);
    }
  }

  lemma LiveStays(s: Sys, a: Action, s': Sys, key: Key, through: Revision, r: Revision)
    requires Inv(s) && Next(s, a, s') && through <= s.view.compacted == s'.view.compacted && r <= through
    requires Live(s.view.index, key, through, r)
    ensures Live(s'.view.index, key, through, r)
  {
    if a.DoApply? {
      InvView(s);
      ApplyKeepsLatest(s.view, key, through);
    }
  }

  /** Applying the next record does not change what was latest at or below an applied revision. */
  lemma ApplyKeepsLatest(v: View, key: Key, through: Revision)
    requires ViewOk(v) && v.applied < |v.log| && through <= v.applied
    ensures IndexLatest(IndexRecord(v.index, v.log[v.applied], v.applied + 1), key, through) == IndexLatest(v.index, key, through)
  {
    hide IndexOk, Joined;
    assert RecordOk(v.log[v.applied], v.applied + 1);
    IndexRecordEntry(v.index, v.log[v.applied], v.applied + 1, key);
    var revs := RevsOf(v.index, key);
    var more := revs + [v.applied + 1];
    assert more[..|more| - 1] == revs;
    assert LatestAt(more, through) == LatestAt(revs, through);
  }

  lemma CompactKeepsDead(v: View, point: Revision, key: Key, through: Revision, r: Revision)
    requires ViewOk(v) && r <= through <= v.compacted <= point
    requires !Live(v.index, key, through, r)
    ensures !Live(IndexCompact(v.index, point), key, through, r)
  {
    assert KeyOk(v.index, v.log, v.applied, v.compacted, key);
    var revs, kept := RevsOf(v.index, key), RevsOf(IndexCompact(v.index, point), key);
    if r in kept {
      KeptExactly(v.index[key], point, r);
      OneBelowPoint(revs, v.compacted);
      if LatestAt(kept, through) == Some(r) {
        LatestIs(revs, through, r);
      }
    }
  }
}
