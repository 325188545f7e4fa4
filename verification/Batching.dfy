/**
 The batching layer in place: an open batch that collects transactions, a queue
 of closed ones, and a flusher that validates, commits and acknowledges one
 batch at a time. Each operation is proved to do to the fields what
 `GroupCommit` says it does to the value they stand for.
 */
module Batching {
  import opened Bytes
  import opened Records
  import opened GroupCommit

  /** Whether `other` may join a batch that already holds `existing`. */
  method CheckTogether(existing: TxnMeta, other: TxnMeta) returns (ok: bool)
    ensures ok == CanBatchTogether(existing, other)
  {
    var keys := existing.writeSet;
    while keys != {}
      invariant keys <= existing.writeSet
      invariant forall k :: k in existing.writeSet && k !in keys ==> k !in other.writeSet
      decreases |keys|
    {
      var k :| k in keys;
      if k in other.writeSet {
        return false;
      }
      keys := keys - {k};
    }
    keys := other.readSet.Keys;
    while keys != {}
      invariant keys <= other.readSet.Keys
      invariant forall k :: k in other.readSet && k !in keys ==> k !in existing.writeSet
      decreases |keys|
    {
      var k :| k in keys;
      if k in existing.writeSet {
        return false;
      }
      keys := keys - {k};
    }
    ok := true;
  }

  /** Whether a transaction can still be committed. */
  method ValidateTxn(meta: TxnMeta, lastLogPosition: Revision, writes: Writes) returns (ok: bool)
    ensures ok == Validate(meta, lastLogPosition, writes)
  {
    if meta.hasRangeRead {
      return meta.snapshot == lastLogPosition;
    }
    var keys := meta.readSet.Keys;
    while keys != {}
      invariant keys <= meta.readSet.Keys
      invariant forall k :: k in meta.readSet && k !in keys ==> WriteRevision(writes, k) <= meta.readSet[k]
      decreases |keys|
    {
      var k :| k in keys;
      if WriteRevision(writes, k) > meta.readSet[k] {
        return false;
      }
      keys := keys - {k};
    }
    keys := meta.writeSet;
    while keys != {}
      invariant keys <= meta.writeSet
      invariant forall k :: k in meta.writeSet && k !in keys ==> WriteRevision(writes, k) <= meta.snapshot
      decreases |keys|
    {
      var k :| k in keys;
      if WriteRevision(writes, k) > meta.snapshot {
        return false;
      }
      keys := keys - {k};
    }
    ok := true;
  }

  /** Re-stamp the events of a record with the revision it commits at. */
  method StampRecord(record: LogRecord, revision: Revision) returns (r: LogRecord)
    ensures r == Stamp(record, revision)
  {
    r := [];
    for i := 0 to |record|
      invariant |r| == i
      invariant forall j :: 0 <= j < i ==> r[j] == StampEvent(record[j], revision)
    {
      var e := record[i];
      match e.typ {
        case PUT =>
          var kv := e.kv;
          if kv.createRevision == kv.modRevision {
            kv := kv.(createRevision := revision);
          }
          kv := kv.(modRevision := revision);
          e := e.(kv := kv);
        case DELETE =>
          e := e.(kv := e.kv.(modRevision := revision));
      }
      r := r + [e];
    }
  }

  /** The last committed revision of each key, shared by all batches. */
  class CommittedWrites {
    var writes: Writes

    constructor ()
      ensures writes == map[]
    {
      writes := map[];
    }

    method Record(keys: set<Key>, revision: Revision)
      modifies this
      ensures writes == RecordWrites(old(writes), keys, revision)
    {
      var rest := keys;
      while rest != {}
        invariant rest <= keys
        invariant writes.Keys == old(writes).Keys + (keys - rest)
        invariant forall k :: k in writes ==> writes[k] == if k in keys && k !in rest then revision else old(writes)[k]
        decreases |rest|
      {
        var k :| k in rest;
        writes := writes[k := revision];
        rest := rest - {k};
      }
    }
  }

  /** What became of a batch: which tickets were accepted, in log order, and which were rejected. */
  ghost predicate Sorts(results: seq<BatchResult>, first: nat, start: Revision, accepted: seq<nat>, rejected: seq<nat>) {
    && (forall a :: 0 <= a < |accepted| ==> IsAccepted(results, first, start, accepted[a], a))
    && (forall r :: 0 <= r < |rejected| ==> IsRejected(results, first, rejected[r]))
    && (forall t :: first <= t < |results| ==> t in accepted || t in rejected)
    && Distinct(accepted) && Distinct(rejected)
  }

  predicate IsAccepted(results: seq<BatchResult>, first: nat, start: Revision, t: nat, a: nat) {
    first <= t < |results| && results[t] == Committed(start + a + 1)
  }

  predicate IsRejected(results: seq<BatchResult>, first: nat, t: nat) {
    first <= t < |results| && results[t] == Rejected
  }

  ghost predicate Distinct(tickets: seq<nat>) {
    forall i, j :: 0 <= i < j < |tickets| ==> tickets[i] < tickets[j]
  }

  lemma SortsNext(results: seq<BatchResult>, first: nat, start: Revision, accepted: seq<nat>, rejected: seq<nat>)
    requires Sorts(results, first, start, accepted, rejected) && first <= |results|
    ensures Sorts(results + [Committed(start + |accepted| + 1)], first, start, accepted + [|results|], rejected)
    ensures Sorts(results + [Rejected], first, start, accepted, rejected + [|results|])
  {
    forall a | 0 <= a < |accepted|
      ensures IsAccepted(results + [Committed(start + |accepted| + 1)], first, start, accepted[a], a)
      ensures IsAccepted(results + [Rejected], first, start, accepted[a], a)
    {
      assert IsAccepted(results, first, start, accepted[a], a);
    }
    forall r | 0 <= r < |rejected|
      ensures IsRejected(results + [Committed(start + |accepted| + 1)], first, rejected[r])
      ensures IsRejected(results + [Rejected], first, rejected[r])
    {
      assert IsRejected(results, first, rejected[r]);
    }
  }

  /** A batch of transactions. */
  class TxnBatch {
    const committedWrites: CommittedWrites
    var flushed: bool
    var pendingBatch: seq<PendingTxn>

    constructor (writes: CommittedWrites)
      ensures committedWrites == writes && !flushed && pendingBatch == []
    {
      committedWrites, flushed, pendingBatch := writes, false, [];
    }

    method JoinsWith(meta: TxnMeta) returns (ok: bool)
      ensures ok == CanBatchWith(pendingBatch, meta)
    {
      for i := 0 to |pendingBatch|
        invariant forall j :: 0 <= j < i ==> CanBatchTogether(pendingBatch[j].meta, meta)
      {
        var together := CheckTogether(pendingBatch[i].meta, meta);
        if !together {
          return false;
        }
      }
      ok := true;
    }

    method Add(record: LogRecord, meta: TxnMeta, ticket: nat)
      modifies this`pendingBatch
      ensures pendingBatch == old(pendingBatch) + [PendingTxn(record, meta, ticket)]
    {
      pendingBatch := pendingBatch + [PendingTxn(record, meta, ticket)];
    }

    /**
     Validate the batch's transactions, give the survivors revisions after
     `lastLogPosition` and record their writes. Of what the layer has done
     before, `p`, only the writes are real.
     */
    method Prepare(lastLogPosition: Revision, ghost p: Progress, ghost base: Revision)
      returns (commit: seq<PendingTxn>, accepted: seq<nat>, rejected: seq<nat>)
      requires !flushed && p.writes == committedWrites.writes && lastLogPosition == base + |p.committed|
      requires forall i :: 0 <= i < |pendingBatch| ==> pendingBatch[i].ticket == |p.results| + i
      modifies this`flushed, committedWrites
      ensures flushed == (pendingBatch != [])
      ensures ProcessAll(p, base, pendingBatch, lastLogPosition).writes == committedWrites.writes
      ensures ProcessAll(p, base, pendingBatch, lastLogPosition).committed == p.committed + commit
      ensures Sorts(ProcessAll(p, base, pendingBatch, lastLogPosition).results, |p.results|, lastLogPosition, accepted, rejected)
      ensures |accepted| == |commit|
      ensures |ProcessAll(p, base, pendingBatch, lastLogPosition).results| == |p.results| + |pendingBatch|
    {
      hide Validate, Stamp, RecordWrites, Sorts;
      commit, accepted, rejected := [], [], [];
      SortsNothing(p.results, lastLogPosition);
      if flushed || |pendingBatch| == 0 {
        return;
      }
      flushed := true;
      var revision := lastLogPosition;
      ghost var q := p;
      for i := 0 to |pendingBatch|
        invariant flushed && q == ProcessAll(p, base, pendingBatch[..i], lastLogPosition)
        invariant q.writes == committedWrites.writes && q.committed == p.committed + commit
        invariant |q.results| == |p.results| + i && |accepted| == |commit| && revision == lastLogPosition + |commit|
        invariant Sorts(q.results, |p.results|, lastLogPosition, accepted, rejected)
      {
        var txn := pendingBatch[i];
        assert pendingBatch[..i + 1][..i] == pendingBatch[..i];
        SortsNext(q.results, |p.results|, lastLogPosition, accepted, rejected);
        var ok := ValidateTxn(txn.meta, lastLogPosition, committedWrites.writes);
        q := Process(q, base, txn, lastLogPosition);
        if !ok {
          rejected := rejected + [txn.ticket];
        } else {
          revision := revision + 1;
          var stamped := StampRecord(txn.record, revision);
          committedWrites.Record(txn.meta.writeSet, revision);
          commit := commit + [txn.(record := stamped)];
          accepted := accepted + [txn.ticket];
        }
      }
      assert pendingBatch[..|pendingBatch|] == pendingBatch;
    }
  }

  lemma SortsNothing(results: seq<BatchResult>, start: Revision)
    ensures Sorts(results, |results|, start, [], [])
  {
  }

  /** The results sent so far are those of the first tickets, once each. */
  ghost predicate SentAre(sent: map<nat, BatchResult>, results: seq<BatchResult>) {
    && (forall t :: t in sent <==> 0 <= t < |results|)
    && (forall t :: t in sent ==> sent[t] == results[t])
  }

  /** A batch on its way, holding these transactions. */
  ghost predicate Holds(b: TxnBatch, writes: CommittedWrites, txns: seq<PendingTxn>)
    reads b
  {
    b.committedWrites == writes && !b.flushed && b.pendingBatch == txns
  }

  class Batching {
    const committedWrites: CommittedWrites
    var openBatch: TxnBatch?
    var flushQueue: seq<TxnBatch>
    var stop: bool
    var lastLogPosition: Revision
    var log: seq<PendingTxn>               // what the backend was given to write, in order
    var sent: map<nat, BatchResult>        // what each result channel holds
    var tickets: nat

    ghost var state: Committer

    ghost predicate Valid()
      reads this, committedWrites, openBatch, flushQueue
    {
      && Inv(state)
      && committedWrites.writes == state.progress.writes
      && lastLogPosition == state.last && log == state.progress.committed
      && tickets == |state.arrivals|
      && SentAre(sent, state.progress.results)
      && (openBatch == null <==> state.open == [])
      && (openBatch != null ==> Holds(openBatch, committedWrites, state.open) && openBatch !in flushQueue)
      && |flushQueue| == |state.queue|
      && (forall i :: 0 <= i < |flushQueue| ==> Holds(flushQueue[i], committedWrites, state.queue[i]))
      && (forall i, j :: 0 <= i < j < |flushQueue| ==> flushQueue[i] != flushQueue[j])
    }

    /** The batches on their way. */
    ghost function Batches(): set<TxnBatch>
      reads this
    {
      (if openBatch == null then {} else {openBatch}) + set b | b in flushQueue
    }

    constructor (last: Revision)
      ensures Valid() && state == Start(last) && !stop
      ensures fresh(committedWrites)
    {
      committedWrites := new CommittedWrites();
      openBatch, flushQueue, stop, lastLogPosition, log, sent, tickets := null, [], false, last, [], map[], 0;
      state := Start(last);
      StartInv(last);
    }

    /** Queue a transaction; the ticket is the channel its result will come on. */
    method Add(record: LogRecord, meta: TxnMeta) returns (ticket: nat)
      requires Valid()
      modifies this`openBatch, this`flushQueue, this`tickets, this`state, openBatch
      ensures Valid() && state == AddTxn(old(state), record, meta) && ticket == old(tickets)
    {
      hide Inv, CanBatchWith, SentAre;
      AddKeepsInv(state, record, meta);
      ticket := tickets;
      tickets := tickets + 1;
      state := AddTxn(state, record, meta);
      if openBatch != null {
        var joins := openBatch.JoinsWith(meta);
        if joins {
          openBatch.Add(record, meta, ticket);
          return;
        }
        flushQueue := flushQueue + [openBatch];
        openBatch := null;
      }
      var batch := new TxnBatch(committedWrites);
      openBatch := batch;
      batch.Add(record, meta, ticket);
    }

    /** Send a result on a channel that has not had one. */
    method Send(ticket: nat, result: BatchResult)
      requires ticket !in sent
      modifies this`sent
      ensures sent == old(sent)[ticket := result]
    {
      sent := sent[ticket := result];
    }

    /** Send the results of a batch: the accepted, then the rejected. */
    method Deliver(start: Revision, accepted: seq<nat>, rejected: seq<nat>, ghost before: seq<BatchResult>,
                   ghost results: seq<BatchResult>)
      requires SentAre(sent, before) && before <= results
      requires Sorts(results, |before|, start, accepted, rejected)
      modifies this`sent
      ensures SentAre(sent, results)
    {
      hide Sorts, SentTo;
      SentStart(sent, before, results);
      ghost var had := sent.Keys;
      ghost var to := had;
      for a := 0 to |accepted|
        invariant to == had + (set t | t in accepted[..a])
        invariant SentTo(sent, results, to)
      {
        AcceptedAt(results, |before|, start, accepted, rejected, a);
        SentNext(sent, results, to, accepted[a]);
        Send(accepted[a], Committed(start + a + 1));
        assert accepted[..a + 1] == accepted[..a] + [accepted[a]];
        to := to + {accepted[a]};
      }
      assert accepted[..|accepted|] == accepted;
      for r := 0 to |rejected|
        invariant to == had + (set t | t in accepted) + (set t | t in rejected[..r])
        invariant SentTo(sent, results, to)
      {
        RejectedAt(results, |before|, start, accepted, rejected, r);
        SentNext(sent, results, to, rejected[r]);
        Send(rejected[r], Rejected);
        assert rejected[..r + 1] == rejected[..r] + [rejected[r]];
        to := to + {rejected[r]};
      }
      assert rejected[..|rejected|] == rejected;
      AllSent(results, |before|, start, accepted, rejected);
      SentAll(sent, results, to);
    }

    /** Validate a batch, commit what survives and deliver the results. */
    method Flush(batch: TxnBatch)
      requires Inv(state) && committedWrites.writes == state.progress.writes
      requires lastLogPosition == state.last && log == state.progress.committed && SentAre(sent, state.progress.results)
      requires Holds(batch, committedWrites, NextBatch(state))
      modifies this`lastLogPosition, this`log, this`sent, this`state, batch`flushed, committedWrites
      ensures state == FlushNext(old(state)) && Inv(state) && committedWrites.writes == state.progress.writes
      ensures lastLogPosition == state.last && log == state.progress.committed && SentAre(sent, state.progress.results)
      ensures old(log) <= log
    {
      hide Inv, SentAre, Sorts, ProcessAll;
      FlushKeepsInv(state);
      Tickets(state);
      ghost var p := state.progress;
      var commit, accepted, rejected := batch.Prepare(lastLogPosition, p, state.base);
      FlushIs(state);
      var start := lastLogPosition;
      if commit != [] {
        log := log + commit;
        lastLogPosition := lastLogPosition + |commit|;
      }
      state := FlushNext(state);
      Deliver(start, accepted, rejected, p.results, state.progress.results);
    }

    /** One turn of the flusher. It ends when it is told to stop and finds nothing to flush. */
    method Flusher() returns (done: bool)
      requires Valid()
      modifies this, committedWrites, Batches()
      ensures Valid() && stop == old(stop)
      ensures tickets == old(tickets) && Batches() <= old(Batches())
      ensures Waiting(old(state)) != [] ==> !done && state == FlushNext(old(state))
      ensures Waiting(old(state)) == [] ==> done == stop && state == old(state)
      ensures |Waiting(state)| <= |Waiting(old(state))| && (Waiting(old(state)) != [] ==> |Waiting(state)| < |Waiting(old(state))|)
    {
      hide Inv, SentAre, FlushNext;
      WaitingShrinks(state);
      FlushShape(state);
      var flush: TxnBatch? := null;
      if |flushQueue| > 0 {
        flush := flushQueue[0];
        flushQueue := flushQueue[1..];
      } else if openBatch != null {
        flush := openBatch;
        openBatch := null;
      }
      if flush != null {
        Flush(flush);
        done := false;
      } else {
        done := stop;
      }
    }

    /** Flush what is queued, and stop. */
    method Close()
      requires Valid()
      modifies this, committedWrites, Batches()
      ensures Valid() && Waiting(state) == []
      ensures forall t :: 0 <= t < tickets ==> t in sent
      ensures tickets == old(tickets)
    {
      hide Inv, SentAre, Holds;
      stop := true;
      var done := false;
      while !done
        invariant Valid() && stop && tickets == old(tickets)
        invariant done ==> Waiting(state) == []
        invariant Batches() <= old(Batches())
        decreases |Waiting(state)|, !done
      {
        done := Flusher();
      }
      AllAnswered(state, sent);
    }
  }

  /** The batch flushed next holds the tickets that come next. */
  lemma Tickets(c: Committer)
    requires Inv(c)
    ensures forall i :: 0 <= i < |NextBatch(c)| ==> NextBatch(c)[i].ticket == |c.progress.results| + i
    ensures c.last == c.base + |c.progress.committed|
  {
    NextBatchWaits(c);
    var done := |c.progress.results|;
    forall i | 0 <= i < |NextBatch(c)|
      ensures NextBatch(c)[i].ticket == done + i
    {
      assert NextBatch(c)[i] == c.arrivals[done..][i] == c.arrivals[done + i];
    }
  }

  lemma FlushIs(c: Committer)
    requires Inv(c)
    ensures var p := ProcessAll(c.progress, c.base, NextBatch(c), c.last);
            FlushNext(c).progress == p && FlushNext(c).last == c.base + |p.committed|
    ensures c.progress.results <= FlushNext(c).progress.results
  {
    hide ProcessAll, ProgressOk, WritesExact;
    NextBatchWaits(c);
    ProcessAllKeeps(c.progress, c.base, c.arrivals, NextBatch(c), c.last);
  }

  lemma FlushShape(c: Committer)
    ensures FlushNext(c).arrivals == c.arrivals
    ensures FlushNext(c).queue == if c.queue == [] then [] else c.queue[1..]
    ensures FlushNext(c).open == if c.queue == [] then [] else c.open
  {
  }

  lemma WaitingShrinks(c: Committer)
    requires Inv(c)
    ensures Waiting(c) == [] <==> c.queue == [] && c.open == []
    ensures Waiting(c) != [] ==> |Waiting(FlushNext(c))| < |Waiting(c)|
  {
    NextBatchWaits(c);
    if c.queue != [] {
      assert c.queue[0] != [];
    }
  }

  lemma AllAnswered(c: Committer, sent: map<nat, BatchResult>)
    requires Inv(c) && Waiting(c) == [] && SentAre(sent, c.progress.results)
    ensures forall t :: 0 <= t < |c.arrivals| ==> t in sent
  {
  }

  /** Exactly these channels have their results. */
  ghost predicate SentTo(sent: map<nat, BatchResult>, results: seq<BatchResult>, to: set<nat>) {
    && sent.Keys == to
    && forall t :: t in to ==> t < |results| && sent[t] == results[t]
  }

  lemma SentStart(sent: map<nat, BatchResult>, before: seq<BatchResult>, results: seq<BatchResult>)
    requires SentAre(sent, before) && before <= results
    ensures SentTo(sent, results, sent.Keys) && forall t :: t in sent.Keys <==> 0 <= t < |before|
  {
  }

  lemma SentNext(sent: map<nat, BatchResult>, results: seq<BatchResult>, to: set<nat>, t: nat)
    requires SentTo(sent, results, to) && t < |results|
    ensures SentTo(sent[t := results[t]], results, to + {t})
    ensures t !in to ==> t !in sent
  {
  }

  lemma SentAll(sent: map<nat, BatchResult>, results: seq<BatchResult>, to: set<nat>)
    requires SentTo(sent, results, to) && forall t :: t in to <==> 0 <= t < |results|
    ensures SentAre(sent, results)
  {
  }

  lemma AcceptedAt(results: seq<BatchResult>, first: nat, start: Revision, accepted: seq<nat>, rejected: seq<nat>, a: nat)
    requires Sorts(results, first, start, accepted, rejected) && a < |accepted|
    ensures first <= accepted[a] < |results| && results[accepted[a]] == Committed(start + a + 1)
    ensures accepted[a] !in accepted[..a]
  {
    assert IsAccepted(results, first, start, accepted[a], a);
  }

  lemma RejectedAt(results: seq<BatchResult>, first: nat, start: Revision, accepted: seq<nat>, rejected: seq<nat>, r: nat)
    requires Sorts(results, first, start, accepted, rejected) && r < |rejected|
    ensures first <= rejected[r] < |results| && results[rejected[r]] == Rejected
    ensures rejected[r] !in rejected[..r] && rejected[r] !in accepted
  {
    assert IsRejected(results, first, rejected[r]);
    NotBoth(results, first, start, accepted, rejected, r);
  }

  lemma NotBoth(results: seq<BatchResult>, first: nat, start: Revision, accepted: seq<nat>, rejected: seq<nat>, r: nat)
    requires Sorts(results, first, start, accepted, rejected) && r < |rejected|
    ensures rejected[r] !in accepted
  {
    forall a | 0 <= a < |accepted|
      ensures accepted[a] != rejected[r]
    {
      assert IsAccepted(results, first, start, accepted[a], a) && IsRejected(results, first, rejected[r]);
    }
  }

  lemma AllSent(results: seq<BatchResult>, first: nat, start: Revision, accepted: seq<nat>, rejected: seq<nat>)
    requires Sorts(results, first, start, accepted, rejected)
    ensures forall t :: t in accepted || t in rejected ==> first <= t < |results|
    ensures forall t :: first <= t < |results| ==> t in accepted || t in rejected
  {
    forall a | 0 <= a < |accepted|
      ensures first <= accepted[a] < |results|
    {
      assert IsAccepted(results, first, start, accepted[a], a);
    }
    forall r | 0 <= r < |rejected|
      ensures first <= rejected[r] < |results|
    {
      assert IsRejected(results, first, rejected[r]);
    }
  }
}
