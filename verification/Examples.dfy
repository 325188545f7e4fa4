/**
 Runs of the system that reach the cases in which it does not do what one might
 expect of it.
 */
module Examples {
  import opened Bytes
  import opened Records
  import opened KeyIndex
  import opened GroupCommit
  import opened Listing
  import opened Mvcc
  import opened System
  import opened Paging
  import Restart

  // ---------------------------------------------------------------------
  // One transaction at a time

  /** A flush of a single waiting transaction that is valid. */
  lemma FlushSingle(c: Committer, t: PendingTxn)
    requires c.queue == [] && c.open == [t] && Validate(t.meta, c.last, c.progress.writes)
    ensures FlushNext(c) == c.(open := [], last := c.base + |c.progress.committed| + 1, progress := Process(c.progress,
        c.base, t, c.last))
  {
    hide Validate, Stamp;
    assert [t][..0] == [];
    assert ProcessAll(c.progress, c.base, [], c.last) == c.progress;
    assert ProcessAll(c.progress, c.base, [t], c.last) == Process(c.progress, c.base, t, c.last);
  }

  function PutRequest(k: Key): Request {
    Request([], [OpPut(k, [], 0, false)], [])
  }

  function DeleteThenPut(k: Key, j: Key): Request {
    Request([], [OpDelete(k, false), OpPut(j, [], 0, false)], [])
  }

  /** A put alone, of a key that is or is not there. */
  lemma PutEvaluates(v: View, k: Key, snapshot: Revision)
    requires Observe(v, k, snapshot).Absent? || Observe(v, k, snapshot).Found?
    ensures Evaluate(v, PutRequest(k), snapshot) ==
            Ok(Txn(true, [StagedPut(k, [], 0, Visible(Observe(v, k, snapshot)), snapshot)], TxnMeta(snapshot, map[], {k},
                false), [PutResponse(None)]))
  {
    var t0, op := NewTxn(snapshot), OpPut(k, [], 0, false);
    assert EvalCompares(v, t0, []) == Ok(t0);
    var t1 := EvalOp(v, t0, op).value;
    assert [op][1..] == [];
    assert EvalOps(v, t1, []) == Ok(t1);
    assert t1.events == [StagedPut(k, [], 0, Visible(Observe(v, k, snapshot)), snapshot)];
    assert t1.meta.writeSet == {k} && t1.responses == [PutResponse(None)];
  }

  /** A delete that finds nothing leaves no trace of the key it looked for. */
  lemma DeleteThenPutEvaluates(v: View, k: Key, j: Key, snapshot: Revision)
    requires Observe(v, k, snapshot).Absent? && Observe(v, j, snapshot).Absent?
    ensures Evaluate(v, DeleteThenPut(k, j), snapshot) ==
            Ok(Txn(true, [StagedPut(j, [], 0, None, snapshot)], TxnMeta(snapshot, map[], {j}, false), [DeleteResponse(0),
                PutResponse(None)]))
  {
    var t0, del, put := NewTxn(snapshot), OpDelete(k, false), OpPut(j, [], 0, false);
    assert EvalCompares(v, t0, []) == Ok(t0);
    var t1 := EvalOp(v, t0, del).value;
    assert t1.events == [] && t1.meta == t0.meta && t1.responses == [DeleteResponse(0)];
    var t2 := EvalOp(v, t1, put).value;
    assert [del, put][1..] == [put] && [put][1..] == [];
    assert EvalOps(v, t2, []) == Ok(t2);
    assert EvalOps(v, t1, [put]) == Ok(t2);
    assert t2.events == [StagedPut(j, [], 0, None, snapshot)] && t2.meta.writeSet == {j};
    assert t2.responses == [DeleteResponse(0), PutResponse(None)];
  }

  /** A state with nothing under way. */
  ghost predicate Idle(s: Sys) {
    s.committer.queue == [] && s.committer.open == []
  }

  ghost function Evaluated(s: Sys, req: Request, snapshot: Revision): Sys {
    s.(evaluated := s.evaluated + {Submission(req, snapshot, s.view)})
  }

  ghost function Submitted(s: Sys, sub: Submission): Sys
    requires Evaluate(sub.view, sub.req, sub.snapshot).Ok?
  {
    var t := TxnOf(sub);
    s.(evaluated := s.evaluated - {sub}, submitted := s.submitted + [sub], committer := AddTxn(s.committer, t.events, t.meta))
  }

  ghost function Flushed(s: Sys): Sys {
    var c := FlushNext(s.committer);
    s.(committer := c, view := s.view.(log := LogOf(s.initial, c.progress.committed)))
  }

  ghost function Applied(s: Sys): Sys
    requires s.view.applied < |s.view.log|
  {
    var r := s.view.applied + 1;
    s.(view := s.view.(index := IndexRecord(s.view.index, s.view.log[r - 1], r), applied := r))
  }

  /** Submitting and flushing one valid transaction with nothing else under way adds its record to the log. */
  lemma CommitsOne(s: Sys, sub: Submission, record: LogRecord)
    requires Idle(s) && s.view.log == LogOf(s.initial, s.committer.progress.committed)
    requires Evaluate(sub.view, sub.req, sub.snapshot).Ok?
    requires Validate(TxnOf(sub).meta, s.committer.last, s.committer.progress.writes)
    requires s.committer.base == |s.initial| && record == Stamp(TxnOf(sub).events, |s.view.log| + 1)
    ensures var after := Flushed(Submitted(s, sub));
            && Idle(after) && after.view.log == s.view.log + [record]
            && after.committer.base == s.committer.base
                && after.committer.last == s.committer.base + |after.committer.progress.committed|
            && |after.committer.progress.committed| == |s.committer.progress.committed| + 1
            && after.committer.progress.committed[|s.committer.progress.committed|].ticket == |s.committer.arrivals|
            && after.committer.progress.writes == RecordWrites(s.committer.progress.writes, TxnOf(sub).meta.writeSet,
                |s.view.log| + 1)
            && after.view.log == LogOf(s.initial, after.committer.progress.committed)
  {
    hide Evaluate, Validate, Stamp, RecordWrites;
    var c := Submitted(s, sub).committer;
    var t := PendingTxn(TxnOf(sub).events, TxnOf(sub).meta, |s.committer.arrivals|);
    assert c.open == [t] && c.queue == [] && c.progress == s.committer.progress && c.last == s.committer.last;
    FlushSingle(c, t);
    LogOfSnoc(s.initial, s.committer.progress.committed, t.(record := record));
    assert |s.view.log| == s.committer.base + |s.committer.progress.committed|;
  }

  // ---------------------------------------------------------------------
  // A delete that protects nothing

  ghost function StaleRun(k: Key, j: Key): seq<Sys>
    requires Evaluate(View(map[], [], {}, 0, 0, {}), PutRequest(k), 0).Ok?
    requires Evaluate(View(map[], [], {}, 0, 0, {}), DeleteThenPut(k, j), 0).Ok?
  {
    var s0 := System.Start([], map[], {});
    var a, b := Submission(PutRequest(k), 0, s0.view), Submission(DeleteThenPut(k, j), 0, s0.view);
    var s1 := Evaluated(s0, PutRequest(k), 0);
    var s2 := Evaluated(s1, DeleteThenPut(k, j), 0);
    var s3 := Submitted(s2, a);
    var s4 := Flushed(s3);
    var s5 := Submitted(s4, b);
    [s0, s1, s2, s3, s4, s5, Flushed(s5)]
  }

  ghost function StaleActions(k: Key, j: Key): seq<Action> {
    var v := View(map[], [], {}, 0, 0, {});
    [DoEvaluate(PutRequest(k), 0), DoEvaluate(DeleteThenPut(k, j), 0), DoSubmit(Submission(PutRequest(k), 0, v)), DoFlush,
     DoSubmit(Submission(DeleteThenPut(k, j), 0, v)), DoFlush]
  }

  lemma NothingThere(k: Key)
    ensures Observe(View(map[], [], {}, 0, 0, {}), k, 0).Absent?
  {
  }

  lemma StaleEvaluates(k: Key, j: Key)
    requires k != j
    ensures var v := View(map[], [], {}, 0, 0, {});
            && Evaluate(v, PutRequest(k), 0) == Ok(Txn(true, [StagedPut(k, [], 0, None, 0)], TxnMeta(0, map[], {k}, false),
                [PutResponse(None)]))
            && Evaluate(v, DeleteThenPut(k, j), 0) ==
               Ok(Txn(true, [StagedPut(j, [], 0, None, 0)], TxnMeta(0, map[], {j}, false), [DeleteResponse(0), PutResponse(None)]))
  {
    var v := View(map[], [], {}, 0, 0, {});
    NothingThere(k);
    NothingThere(j);
    PutEvaluates(v, k, 0);
    DeleteThenPutEvaluates(v, k, j, 0);
  }

  ghost function NothingYet(): View {
    View(map[], [], {}, 0, 0, {})
  }

  /** After the first commit. */
  lemma StaleFirst(k: Key, j: Key)
    requires k != j && Evaluate(NothingYet(), PutRequest(k), 0).Ok? && Evaluate(NothingYet(), DeleteThenPut(k, j), 0).Ok?
    ensures var s := StaleRun(k, j)[4];
            && Idle(s) && s.view.log == [[Event(PUT, KeyValue(k, [], 1, 1, 1, 0), None)]]
            && s.initial == [] && s.committer.base == 0 && s.committer.last == 1 && |s.committer.progress.committed| == 1
            && s.view.log == LogOf(s.initial, s.committer.progress.committed)
            && s.committer.progress.writes == RecordWrites(map[], {k}, 1)
            && s.submitted == [Submission(PutRequest(k), 0, NothingYet())] && |s.committer.arrivals| == 1
  {
    StaleEvaluates(k, j);
    hide Evaluate, AddTxn, FlushNext, RecordWrites;
    var s2 := StaleRun(k, j)[2];
    var a := Submission(PutRequest(k), 0, NothingYet());
    var ra: LogRecord := [Event(PUT, KeyValue(k, [], 1, 1, 1, 0), None)];
    assert Stamp([StagedPut(k, [], 0, None, 0)], 1) == ra;
    assert LogOf([], []) == [];
    CommitsOne(s2, a, ra);
    SubmittedArrives(s2, a);
    assert StaleRun(k, j)[4] == Flushed(Submitted(s2, a));
  }

  /** What it commits: the put of `k`, and after it the put of `j` alone. */
  lemma StaleCommits(k: Key, j: Key)
    requires k != j && Evaluate(NothingYet(), PutRequest(k), 0).Ok? && Evaluate(NothingYet(), DeleteThenPut(k, j), 0).Ok?
    ensures var s := StaleRun(k, j)[6];
            && |s.committer.progress.committed| == 2 && s.committer.progress.committed[1].ticket == 1
            && s.submitted == [Submission(PutRequest(k), 0, NothingYet()), Submission(DeleteThenPut(k, j), 0, NothingYet())]
            && s.view.log == [[Event(PUT, KeyValue(k, [], 1, 1, 1, 0), None)], [Event(PUT, KeyValue(j, [], 2, 2, 1, 0), None)]]
  {
    StaleEvaluates(k, j);
    StaleFirst(k, j);
    hide Evaluate, AddTxn, FlushNext, LogOf;
    var s4 := StaleRun(k, j)[4];
    var b := Submission(DeleteThenPut(k, j), 0, NothingYet());
    var rb: LogRecord := [Event(PUT, KeyValue(j, [], 2, 2, 1, 0), None)];
    assert Stamp([StagedPut(j, [], 0, None, 0)], 2) == rb;
    CommitsOne(s4, b, rb);
    SubmittedArrives(s4, b);
    assert StaleRun(k, j)[6] == Flushed(Submitted(s4, b));
  }

  lemma SubmittedArrives(s: Sys, sub: Submission)
    requires Evaluate(sub.view, sub.req, sub.snapshot).Ok?
    ensures var after := Flushed(Submitted(s, sub));
            |after.committer.arrivals| == |s.committer.arrivals| + 1 && after.submitted == s.submitted + [sub]
  {
    hide Evaluate;
  }

  lemma StaleIsRun(k: Key, j: Key)
    requires k != j
    requires Evaluate(View(map[], [], {}, 0, 0, {}), PutRequest(k), 0).Ok?
    requires Evaluate(View(map[], [], {}, 0, 0, {}), DeleteThenPut(k, j), 0).Ok?
    ensures System.IsRun(StaleRun(k, j), StaleActions(k, j))
  {
    StaleEvaluates(k, j);
    hide Evaluate, AddTxn, FlushNext;
    var run, actions := StaleRun(k, j), StaleActions(k, j);
    EmptyIndexOk([]);
    var a, b := Submission(PutRequest(k), 0, run[0].view), Submission(DeleteThenPut(k, j), 0, run[0].view);
    assert a != b;
    assert EvaluateStep(run[0], run[1], PutRequest(k), 0);
    assert EvaluateStep(run[1], run[2], DeleteThenPut(k, j), 0);
    assert SubmitStep(run[2], run[3], a);
    assert FlushStep(run[3], run[4]);
    assert SubmitStep(run[4], run[5], b);
    assert FlushStep(run[5], run[6]);
    forall i | 0 <= i < |actions|
      ensures System.Next(run[i], actions[i], run[i + 1])
    {
      assert i == 0 || i == 1 || i == 2 || i == 3 || i == 4 || i == 5;
    }
  }

  /**
   A delete that finds nothing protects nothing. Two clients start on an empty
   store; one puts `k`, the other deletes `k` and puts `j`. The second commits
   behind the first, and `k` is still there: run alone where it committed it
   would have deleted it.
   */
  lemma StaleDeleteRun(k: Key, j: Key) returns (run: seq<Sys>)
    requires k != j
    ensures System.IsRun(run, StaleActions(k, j)) && |run| == 7
    ensures var s := run[6];
            && |s.committer.progress.committed| == 2 && s.committer.progress.committed[1].ticket < |s.submitted|
            && s.submitted[s.committer.progress.committed[1].ticket].req == DeleteThenPut(k, j)
            && |s.view.log| == 2 && k in StateAt(s.view.log, 2)
            && var st := StateAt(s.view.log, 1);
               s.view.log[1] != SerialAll(Branch(DeleteThenPut(k, j), st), st, 2)
  {
    StaleEvaluates(k, j);
    StaleIsRun(k, j);
    StaleCommits(k, j);
    hide StaleRun, Evaluate, System.IsRun;
    run := StaleRun(k, j);
    var log := run[6].view.log;
    assert log[0][1..] == [] && log[1][1..] == [];
    assert StateAt(log, 0) == map[];
    assert ApplyRecord(map[], log[0]) == ApplyRecord(ApplyEvent(map[], log[0][0]), []);
    var st := StateAt(log, 1);
    assert k in st;
    assert ApplyRecord(st, log[1]) == ApplyRecord(ApplyEvent(st, log[1][0]), []);
    var del, put := OpDelete(k, false), OpPut(j, [], 0, false);
    assert [del, put][1..] == [put] && [put][1..] == [];
    assert SerialAll([del, put], st, 2) == SerialEvents(del, st, 2) + SerialAll([put], st, 2);
    assert |SerialAll([put], st, 2)| == 1;
  }

  // ---------------------------------------------------------------------
  // A delete of a deleted key

  function PutThenDeleted(k: Key): seq<LogRecord> {
    var a := KeyValue(k, [], 1, 1, 1, 0);
    [[Event(PUT, a, None)], [Event(DELETE, KeyValue(k, [], 0, 2, 0, 0), Some(a))]]
  }

  lemma PutThenDeletedIndex(k: Key)
    ensures LogOk(PutThenDeleted(k)) && Restart.Replay(PutThenDeleted(k), 2) == map[k := KeyRevs([1, 2], true)]
  {
    var log := PutThenDeleted(k);
    assert RecordOk(log[0], 1) && RecordOk(log[1], 2);
    var none: seq<Revision> := [];
    assert none + [1] == [1] && [1 as Revision] + [2] == [1, 2];
    Restart.OneEventIndexed(map[], log[0][0], 1);
    assert Restart.Replay(log, 0) == map[];
    assert Restart.Replay(log, 1) == map[k := KeyRevs([1], false)];
    Restart.OneEventIndexed(Restart.Replay(log, 1), log[1][0], 2);
  }

  /** In a proper state: deleting a key that was put and deleted ends the process. */
  lemma DeletedTwice(k: Key)
    ensures var log := PutThenDeleted(k);
            var s := System.Start(log, Restart.Replay(log, 2), {});
            System.Inv(s) && Evaluate(s.view, Request([], [OpDelete(k, false)], []), 2).Exit?
  {
    var log := PutThenDeleted(k);
    PutThenDeletedIndex(k);
    Restart.ReplayIsIndex(log, 2);
    System.StartInv(log, Restart.Replay(log, 2), {});
    hide System.Inv, IndexOk, LogOk, Restart.Replay;
    var v, t0, op := System.Start(log, Restart.Replay(log, 2), {}).view, NewTxn(2), OpDelete(k, false);
    assert LatestAt([1, 2], 2) == Some(2);
    assert FindEvent(log[1], k) == Some(log[1][0]);
    assert Observe(v, k, 2) == Found(2, log[1][0]);
    assert EvalOp(v, t0, op).Exit?;
    assert EvalCompares(v, t0, []) == Ok(t0);
  }

  // ---------------------------------------------------------------------
  // A first page overtaken by compaction

  function OnePut(k: Key): seq<LogRecord> {
    [[Event(PUT, KeyValue(k, [], 1, 1, 1, 0), None)]]
  }

  function SecondPut(k: Key): LogRecord {
    [Event(PUT, KeyValue(k, [], 1, 2, 2, 0), Some(KeyValue(k, [], 1, 1, 1, 0)))]
  }

  lemma OnePutIndex(k: Key)
    ensures LogOk(OnePut(k)) && Restart.Replay(OnePut(k), 1) == map[k := KeyRevs([1], false)]
  {
    var log := OnePut(k);
    assert RecordOk(log[0], 1);
    var none: seq<Revision> := [];
    assert none + [1] == [1];
    Restart.OneEventIndexed(map[], log[0][0], 1);
    assert Restart.Replay(log, 0) == map[];
  }

  ghost function OvertakenRun(k: Key): seq<Sys>
    requires var v := View(map[k := KeyRevs([1], false)], OnePut(k), {}, 1, 0, {}); Evaluate(v, PutRequest(k), 1).Ok?
  {
    var s0 := System.Start(OnePut(k), map[k := KeyRevs([1], false)], {});
    var s1 := Evaluated(s0, PutRequest(k), 1);
    var s2 := Submitted(s1, Submission(PutRequest(k), 1, s0.view));
    var s3 := Flushed(s2);
    var s4 := if s3.view.applied < |s3.view.log| then Applied(s3) else s3;
    [s0, s1, s2, s3, s4, s4.(view := CompactView(s4.view, 2), rewrites := {2})]
  }

  ghost function OvertakenActions(k: Key): seq<Action> {
    var v := View(map[k := KeyRevs([1], false)], OnePut(k), {}, 1, 0, {});
    [DoEvaluate(PutRequest(k), 1), DoSubmit(Submission(PutRequest(k), 1, v)), DoFlush, DoApply, DoCompact(2)]
  }

  lemma OvertakenEvaluates(k: Key)
    ensures var v := View(map[k := KeyRevs([1], false)], OnePut(k), {}, 1, 0, {});
            Evaluate(v, PutRequest(k), 1) ==
            Ok(Txn(true, [StagedPut(k, [], 0, Some(KeyValue(k, [], 1, 1, 1, 0)), 1)], TxnMeta(1, map[], {k}, false),
                [PutResponse(None)]))
  {
    var v := View(map[k := KeyRevs([1], false)], OnePut(k), {}, 1, 0, {});
    assert LatestAt([1], 1) == Some(1);
    assert FindEvent(OnePut(k)[0], k) == Some(OnePut(k)[0][0]);
    assert Observe(v, k, 1) == Found(1, OnePut(k)[0][0]);
    PutEvaluates(v, k, 1);
  }

  lemma TwoPutsCompacted(k: Key)
    ensures IndexCompact(map[k := KeyRevs([1, 2], false)], 2) == map[k := KeyRevs([2], false)]
    ensures IndexRecord(map[k := KeyRevs([1], false)], SecondPut(k), 2) == map[k := KeyRevs([1, 2], false)]
  {
    var revs: seq<Revision> := [1, 2];
    assert FirstAbove(revs, 2) == 2 && revs[1..] == [2];
    Restart.OneEventIndexed(map[k := KeyRevs([1], false)], SecondPut(k)[0], 2);
    assert [1 as Revision] + [2] == [1, 2];
  }

  lemma OvertakenFlush(k: Key)
    requires var v := View(map[k := KeyRevs([1], false)], OnePut(k), {}, 1, 0, {}); Evaluate(v, PutRequest(k), 1).Ok?
    ensures OvertakenRun(k)[3].view == View(map[k := KeyRevs([1], false)], OnePut(k) + [SecondPut(k)], {}, 1, 0, {})
    ensures OvertakenRun(k)[3].watchers == [] && OvertakenRun(k)[3].rewrites == {}
  {
    OvertakenEvaluates(k);
    hide Evaluate, AddTxn, FlushNext, IndexRecord, IndexCompact;
    var s0 := System.Start(OnePut(k), map[k := KeyRevs([1], false)], {});
    var s1 := Evaluated(s0, PutRequest(k), 1);
    var sub := Submission(PutRequest(k), 1, s0.view);
    assert LogOf(OnePut(k), []) == OnePut(k);
    assert Stamp([StagedPut(k, [], 0, Some(KeyValue(k, [], 1, 1, 1, 0)), 1)], 2) == SecondPut(k);
    CommitsOne(s1, sub, SecondPut(k));
    assert OvertakenRun(k)[3] == Flushed(Submitted(s1, sub));
  }

  lemma OvertakenStates(k: Key)
    requires var v := View(map[k := KeyRevs([1], false)], OnePut(k), {}, 1, 0, {}); Evaluate(v, PutRequest(k), 1).Ok?
    ensures var run, log := OvertakenRun(k), OnePut(k) + [SecondPut(k)];
            && run[3].view == View(map[k := KeyRevs([1], false)], log, {}, 1, 0, {})
            && run[4].view == View(map[k := KeyRevs([1, 2], false)], log, {}, 2, 0, {})
            && run[5].view == View(map[k := KeyRevs([2], false)], log, {}, 2, 2, {})
            && run[4].watchers == [] && run[4].rewrites == {}
  {
    hide Evaluate, Submitted, Flushed, Evaluated, IndexRecord, IndexCompact;
    OvertakenFlush(k);
    TwoPutsCompacted(k);
    var run := OvertakenRun(k);
    assert run[4] == Applied(run[3]);
    assert run[5].view == CompactView(run[4].view, 2);
  }

  lemma OvertakenStarts(k: Key)
    ensures LogOk(OnePut(k)) && IndexOk(map[k := KeyRevs([1], false)], OnePut(k), 1, 0)
  {
    hide LogOk, IndexOk, Restart.Replay;
    OnePutIndex(k);
    Restart.ReplayIsIndex(OnePut(k), 1);
  }

  lemma OvertakenCommits(k: Key)
    requires var v := View(map[k := KeyRevs([1], false)], OnePut(k), {}, 1, 0, {}); Evaluate(v, PutRequest(k), 1).Ok?
    ensures var run, actions := OvertakenRun(k), OvertakenActions(k);
            System.Next(run[0], actions[0], run[1]) && System.Next(run[1], actions[1], run[2]) && System.Next(run[2],
                actions[2], run[3])
  {
    OvertakenEvaluates(k);
    hide Evaluate, AddTxn, FlushNext, IndexRecord, IndexCompact, Applied;
    var run := OvertakenRun(k);
    assert EvaluateStep(run[0], run[1], PutRequest(k), 1);
    assert SubmitStep(run[1], run[2], Submission(PutRequest(k), 1, run[0].view));
    assert FlushStep(run[2], run[3]);
  }

  lemma OvertakenCompacts(k: Key)
    requires var v := View(map[k := KeyRevs([1], false)], OnePut(k), {}, 1, 0, {}); Evaluate(v, PutRequest(k), 1).Ok?
    ensures var run, actions := OvertakenRun(k), OvertakenActions(k);
            System.Next(run[3], actions[3], run[4]) && System.Next(run[4], actions[4], run[5])
  {
    OvertakenStates(k);
    hide Evaluate, AddTxn, FlushNext, IndexRecord, IndexCompact, Submitted, Flushed, Evaluated;
    var run := OvertakenRun(k);
    var none: set<Revision> := {};
    assert none + {2} == {2};
    assert ApplyStep(run[3], run[4]);
    assert CompactPoint([], Min(2, 2)) == 2;
    assert CompactStep(run[4], run[5], 2);
  }

  lemma OvertakenIsRun(k: Key)
    requires var v := View(map[k := KeyRevs([1], false)], OnePut(k), {}, 1, 0, {}); Evaluate(v, PutRequest(k), 1).Ok?
    ensures System.IsRun(OvertakenRun(k), OvertakenActions(k))
  {
    OvertakenStarts(k);
    OvertakenCommits(k);
    OvertakenCompacts(k);
    hide Evaluate, System.Next, LogOk, IndexOk, Submitted, Flushed, Evaluated, Applied, CompactView;
    var run, actions := OvertakenRun(k), OvertakenActions(k);
    forall i | 0 <= i < |actions|
      ensures System.Next(run[i], actions[i], run[i + 1])
    {
      assert i == 0 || i == 1 || i == 2 || i == 3 || i == 4;
    }
  }

  /**
   A client takes a snapshot; before its range read is evaluated, another put of
   the key is committed and applied, and the index is compacted through it. The
   read then misses a key that was live at the snapshot. This is why a client
   that pages has to have its first snapshot not overtaken.
   */
  lemma OvertakenPage(k: Key) returns (run: seq<Sys>)
    requires !IsInternalKey(k)
    ensures System.IsRun(run, OvertakenActions(k)) && |run| == 6
    ensures var v, r := run[5].view, RangeRequest(k, [0], 0, 0, false, false);
            && |v.log| == 2 && v.compacted == 2 && k in StateAt(v.log, 1)
            && ServeRange(v, 1, r) == Served(Ok(RangeResponse(0, [], false)), 1)
            && Page(StateAt(v.log, 1), r) != RangeResponse(0, [], false)
  {
    OvertakenEvaluates(k);
    OvertakenIsRun(k);
    OvertakenStates(k);
    hide OvertakenRun, Evaluate, System.IsRun;
    run := OvertakenRun(k);
    var v, r := run[5].view, RangeRequest(k, [0], 0, 0, false, false);
    OvertakenList(v, r, k);
    ServeRangeIs(v, 1, r);
    assert v.log[0][1..] == [];
    assert StateAt(v.log, 0) == map[];
    assert ApplyRecord(map[], v.log[0]) == ApplyRecord(ApplyEvent(map[], v.log[0][0]), []);
    LiveIsListed(StateAt(v.log, 1), k);
  }

  lemma OvertakenList(v: View, r: RangeRequest, k: Key)
    requires v.index == map[k := KeyRevs([2], false)] && r == RangeRequest(k, [0], 0, 0, false, false) && !IsInternalKey(k)
    ensures Listing.List(v, r, 1) == Ok(RangeResponse(0, [], false))
  {
    var keys := Scan(v.index, k);
    SortedExt(keys, [k]);
    assert [2 as Revision][..0] == [];
    assert LatestAt([2], 1) == None;
    assert [k][1..] == [];
    assert ListKeys(v, [], r, 1, RangeResponse(0, [], false)) == Ok(RangeResponse(0, [], false));
  }

  lemma LiveIsListed(st: Store, k: Key)
    requires k in st && !IsInternalKey(k)
    ensures Page(st, RangeRequest(k, [0], 0, 0, false, false)) != RangeResponse(0, [], false)
  {
    PageHolds(st, k, [0], 0, 0);
    var keys := KeysFrom(st, k, [0]);
    assert k in keys;
    assert |Answer(st, k, [0])| == |keys| > 0;
  }

  // ---------------------------------------------------------------------
  // A key written twice by one transaction

  function PutAndDelete(k: Key): Request {
    Request([], [OpPut(k, [], 0, false), OpDelete(k, false)], [])
  }

  /** What it commits at revision 2: both events, each staged from the value before. */
  function BothEvents(k: Key): LogRecord {
    var a := KeyValue(k, [], 1, 1, 1, 0);
    [Event(PUT, KeyValue(k, [], 1, 2, 2, 0), Some(a)), Event(DELETE, KeyValue(k, [], 0, 2, 0, 0), Some(a))]
  }

  lemma PutAndDeleteEvaluates(k: Key)
    ensures var v := View(map[k := KeyRevs([1], false)], OnePut(k), {}, 1, 0, {});
            && Evaluate(v, PutAndDelete(k), 1).Ok?
            && Stamp(Evaluate(v, PutAndDelete(k), 1).value.events, 2) == BothEvents(k)
  {
    var v := View(map[k := KeyRevs([1], false)], OnePut(k), {}, 1, 0, {});
    var a := KeyValue(k, [], 1, 1, 1, 0);
    assert LatestAt([1], 1) == Some(1);
    assert FindEvent(OnePut(k)[0], k) == Some(OnePut(k)[0][0]);
    assert Observe(v, k, 1) == Found(1, OnePut(k)[0][0]);
    var t0, put, del := NewTxn(1), OpPut(k, [], 0, false), OpDelete(k, false);
    assert EvalCompares(v, t0, []) == Ok(t0);
    var t1 := EvalOp(v, t0, put).value;
    var t2 := EvalOp(v, t1, del).value;
    assert t1.events == [StagedPut(k, [], 0, Some(a), 1)];
    assert t2.events == [StagedPut(k, [], 0, Some(a), 1), Event(DELETE, KeyValue(k, [], 0, 2, 0, 0), Some(a))];
    assert [put, del][1..] == [del] && [del][1..] == [];
    assert EvalOps(v, t2, []) == Ok(t2);
    assert EvalOps(v, t1, [del]) == Ok(t2);
    assert Stamp(t2.events, 2) == BothEvents(k);
  }

  /**
   A transaction that puts a key and deletes it is accepted, and its two events
   are one record. Then a lookup finds the put, replaying the log finds the
   delete, and compacting the index through that very revision loses the key.
   */
  lemma DoubleWrite(k: Key)
    ensures var v := View(map[k := KeyRevs([1], false)], OnePut(k), {}, 1, 0, {});
            && Evaluate(v, PutAndDelete(k), 1).Ok?
            && var record := Stamp(Evaluate(v, PutAndDelete(k), 1).value.events, 2);
               var after := View(IndexRecord(v.index, record, 2), v.log + [record], {}, 2, 0, {});
               && Visible(Observe(after, k, 2)).Some?
               && k !in StateAt(after.log, 2)
               && Observe(CompactView(after, 2), k, 2).Absent?
  {
    PutAndDeleteEvaluates(k);
    hide Evaluate;
    var ix: Index := map[k := KeyRevs([1], false)];
    var record := BothEvents(k);
    Restart.TwoEventsIndexed(ix, record[0], record[1], 2);
    assert [1 as Revision] + [2] == [1, 2] && [1 as Revision, 2] + [2] == [1, 2, 2];
    var after := View(IndexRecord(ix, record, 2), OnePut(k) + [record], {}, 2, 0, {});
    assert after.index == map[k := KeyRevs([1, 2, 2], true)];
    assert LatestAt([1, 2, 2], 2) == Some(2);
    assert FindEvent(record, k) == Some(record[0]);
    assert Gone(after.index[k], 2);
    assert record[1..] == [record[1]] && [record[1]][1..] == [];
    ApplyRecordLast(StateAt(after.log, 1), record, k);
    assert LastEvent([record[1]], k) == Some(record[1]) by {
      assert LastEvent([], k).None?;
    }
    assert LastEvent(record, k) == Some(record[1]);
  }
}
