/**
 The store's transactions. `Evaluate` runs a request against the index and the
 log at a snapshot, as the store does, staging events that carry snapshot+1.
 `Serial` says what the same request means on a plain key-value map. This file
 proves when the first, re-stamped at its commit revision, is the second.
 */
module Mvcc {
  import opened Bytes
  import opened Records
  import opened KeyIndex
  import opened GroupCommit
  import opened Listing

  // ---------------------------------------------------------------------
  // Requests

  datatype Target = TargetMod | TargetVersion | TargetLease | TargetUnsupported

  /** The value a compare carries; only the kind that fits the target is accepted. */
  datatype Operand = OperandMod(modRevision: int) | OperandVersion(version: int) | OperandLease(lease: int) | OperandOther

  datatype Compare = Compare(key: Key, target: Target, isEqual: bool, operand: Operand)

  datatype Op =
    | OpPut(key: Key, value: seq<byte>, lease: int, wantPrev: bool)
    | OpDelete(key: Key, hasRangeEnd: bool)
    | OpGet(key: Key, revision: Revision, countOnly: bool, keysOnly: bool, limit: int)
    | OpRange(range: RangeRequest)
    | OpUnsupported

  datatype Request = Request(compares: seq<Compare>, success: seq<Op>, failure: seq<Op>)

  datatype Response =
    | PutResponse(prevKv: Option<KeyValue>)
    | DeleteResponse(deleted: nat)
    | GetResponse(header: Revision, kvs: seq<KeyValue>, more: bool)
    | ListResponse(list: RangeResponse)

  // ---------------------------------------------------------------------
  // What the store does

  /** What a lookup of a key at a snapshot finds. */
  datatype Observation =
    | Absent                       // the index has no revision of the key
    | Found(revision: Revision, event: Event)
    | Unreadable                   // the index names a record the log does not have
    | Mismatched                   // the record has no event for the key

  ghost function Observe(v: View, key: Key, at: Revision): Observation {
    match IndexLatest(v.index, key, at)
    case None => Absent
    case Some(r) =>
      match ReadLog(v, r)
      case None => Unreadable
      case Some(record) =>
        match FindEvent(record, key)
        case None => Mismatched
        case Some(e) => Found(r, e)
  }

  /** The revision a read of the key is validated against. */
  function ObservedRevision(o: Observation): Revision {
    if o.Found? then o.revision else 0
  }

  /** The live value a lookup found, if any. */
  function Visible(o: Observation): Option<KeyValue> {
    if o.Found? then EventValue(o.event) else None
  }

  /** A transaction as it is staged. */
  datatype Txn = Txn(
    succeeded: bool,
    events: seq<Event>,
    meta: TxnMeta,
    responses: seq<Response>)

  function NewTxn(snapshot: Revision): Txn {
    Txn(true, [], TxnMeta(snapshot, map[], {}, false), [])
  }

  function AddRead(t: Txn, key: Key, o: Observation): Txn {
    t.(meta := t.meta.(readSet := t.meta.readSet[key := ObservedRevision(o)]))
  }

  function AddWrite(t: Txn, key: Key, e: Event): Txn {
    t.(events := t.events + [e], meta := t.meta.(writeSet := t.meta.writeSet + {key}))
  }

  function Respond(t: Txn, r: Response): Txn {
    t.(responses := t.responses + [r])
  }

  /** Whether a compare holds of what was found for its key. */
  function CompareObserved(c: Compare, o: Observation): Outcome<bool> {
    if o.Unreadable? || o.Mismatched? then Exit
    else
      var live := o.Found? && o.event.typ == PUT;
      match c.target
      case TargetMod =>
        if !c.operand.OperandMod? || !c.isEqual then Fail
        else Ok((if live then o.event.kv.modRevision else 0) == c.operand.modRevision)
      case TargetVersion =>
        if !c.operand.OperandVersion? || !c.isEqual then Fail
        else Ok((if live then o.event.kv.version else 0) == c.operand.version)
      case TargetLease =>
        if !c.operand.OperandLease? || !c.isEqual then Fail
        else Ok((if live then o.event.kv.lease else 0) == c.operand.lease)
      case TargetUnsupported => Fail
  }

  ghost function EvalCompare(v: View, t: Txn, c: Compare): Outcome<Txn> {
    var o := Observe(v, c.key, t.meta.snapshot);
    match CompareObserved(c, o)
    case Ok(holds) => Ok(AddRead(t, c.key, o).(succeeded := t.succeeded && holds))
    case Fail => Fail
    case Exit => Exit
  }

  ghost function EvalCompares(v: View, t: Txn, compares: seq<Compare>): Outcome<Txn>
    decreases |compares|
  {
    if compares == [] then Ok(t)
    else
      match EvalCompare(v, t, compares[0])
      case Ok(t1) => EvalCompares(v, t1, compares[1..])
      case Fail => Fail
      case Exit => Exit
  }

  function StagedPut(key: Key, value: seq<byte>, lease: int, prev: Option<KeyValue>, snapshot: Revision): Event {
    var kv := if prev.Some?
              then KeyValue(key, value, prev.value.createRevision, snapshot + 1, prev.value.version + 1, lease)
              else KeyValue(key, value, snapshot + 1, snapshot + 1, 1, lease);
    Event(PUT, kv, prev)
  }

  ghost function EvalPut(v: View, t: Txn, op: Op): Outcome<Txn>
    requires op.OpPut?
  {
    if op.lease != 0 && op.lease !in v.leases then Fail
    else
      var o := Observe(v, op.key, t.meta.snapshot);
      if o.Unreadable? || o.Mismatched? then Exit
      else
        var prev := Visible(o);
        var e := StagedPut(op.key, op.value, op.lease, prev, t.meta.snapshot);
        Ok(Respond(AddWrite(t, op.key, e), PutResponse(if op.wantPrev then prev else None)))
  }

  ghost function EvalDelete(v: View, t: Txn, op: Op): Outcome<Txn>
    requires op.OpDelete?
  {
    if op.hasRangeEnd then Fail
    else
      match Observe(v, op.key, t.meta.snapshot)
      case Absent => Ok(Respond(t, DeleteResponse(0)))
      case Unreadable => Exit
      case Mismatched => Exit
      case Found(_, e) =>
        if e.typ != PUT then Exit
        else
          var kv := KeyValue(op.key, [], 0, t.meta.snapshot + 1, 0, 0);
          Ok(Respond(AddWrite(t, op.key, Event(DELETE, kv, Some(e.kv))), DeleteResponse(1)))
  }

  /** Reads at an explicit revision must lie between the compaction point and the snapshot. */
  predicate Readable(v: View, requested: Revision, snapshot: Revision) {
    requested == 0 || v.compacted <= requested <= snapshot
  }

  ghost function EvalGet(v: View, t: Txn, op: Op): Outcome<Txn>
    requires op.OpGet?
  {
    var at := if op.revision > 0 then op.revision else t.meta.snapshot;
    if op.key == [] || !Readable(v, op.revision, t.meta.snapshot) || op.countOnly then Fail
    else
      match Observe(v, op.key, at)
      case Unreadable => Fail
      case Mismatched => Exit
      case o =>
        var kvs := if Visible(o).Some? then [if op.keysOnly then Visible(o).value.(value := []) else Visible(o).value] else [];
        var r := GetResponse(at, kvs, kvs != [] && op.limit == 1);
        Ok(AddRead(Respond(t, r), op.key, Observe(v, op.key, t.meta.snapshot)))
  }

  ghost function EvalRange(v: View, t: Txn, op: Op): Outcome<Txn>
    requires op.OpRange?
  {
    if !Readable(v, op.range.revision, t.meta.snapshot) then Fail
    else
      var at := if op.range.revision > 0 then op.range.revision else t.meta.snapshot;
      match List(v, op.range, at)
      case Ok(r) => Ok(Respond(t.(meta := t.meta.(hasRangeRead := true)), ListResponse(r)))
      case Fail => Fail
      case Exit => Exit
  }

  ghost function EvalOp(v: View, t: Txn, op: Op): Outcome<Txn> {
    match op
    case OpPut(_, _, _, _) => EvalPut(v, t, op)
    case OpDelete(_, _) => EvalDelete(v, t, op)
    case OpGet(_, _, _, _, _) => EvalGet(v, t, op)
    case OpRange(_) => EvalRange(v, t, op)
    case OpUnsupported => Fail
  }

  ghost function EvalOps(v: View, t: Txn, ops: seq<Op>): Outcome<Txn>
    decreases |ops|
  {
    if ops == [] then Ok(t)
    else
      match EvalOp(v, t, ops[0])
      case Ok(t1) => EvalOps(v, t1, ops[1..])
      case Fail => Fail
      case Exit => Exit
  }

  /** Run a request at a snapshot; nothing is written. */
  ghost function Evaluate(v: View, req: Request, snapshot: Revision): Outcome<Txn> {
    match EvalCompares(v, NewTxn(snapshot), req.compares)
    case Ok(t) => EvalOps(v, t, if t.succeeded then req.success else req.failure)
    case Fail => Fail
    case Exit => Exit
  }

  // ---------------------------------------------------------------------
  // What a request means

  /** The attribute of a key that a compare looks at; a missing key has 0. */
  function Attribute(c: Compare, kv: Option<KeyValue>): int {
    if kv.None? then 0
    else match c.target
      case TargetMod => kv.value.modRevision
      case TargetVersion => kv.value.version
      case TargetLease => kv.value.lease
      case TargetUnsupported => 0
  }

  function Expected(c: Compare): int {
    match c.operand
    case OperandMod(r) => r
    case OperandVersion(n) => n
    case OperandLease(l) => l
    case OperandOther => 0
  }

  predicate SerialCompares(compares: seq<Compare>, st: Store) {
    forall i :: 0 <= i < |compares| ==> Attribute(compares[i], Lookup(st, compares[i].key)) == Expected(compares[i])
  }

  /** The events an operation produces on the store `st`, committed at `revision`. */
  function SerialEvents(op: Op, st: Store, revision: Revision): seq<Event> {
    match op
    case OpPut(key, value, lease, _) =>
      var prev := Lookup(st, key);
      var created := if prev.Some? then prev.value.createRevision else revision;
      var version := if prev.Some? then prev.value.version + 1 else 1;
      [Event(PUT, KeyValue(key, value, created, revision, version, lease), prev)]
    case OpDelete(key, _) =>
      if key in st then [Event(DELETE, KeyValue(key, [], 0, revision, 0, 0), Some(st[key]))] else []
    case _ => []
  }

  /** What the client is told, except for range reads; `log` is the history before the request. */
  predicate SerialResponse(op: Op, st: Store, log: seq<LogRecord>, r: Response) {
    match op
    case OpPut(key, _, _, wantPrev) => r == PutResponse(if wantPrev then Lookup(st, key) else None)
    case OpDelete(key, _) => r == DeleteResponse(if key in st then 1 else 0)
    case OpGet(key, revision, _, keysOnly, limit) =>
      revision <= |log| &&
      var found := Lookup(if revision > 0 then StateAt(log, revision) else st, key);
      && r.GetResponse?
      && r.kvs == (if found.Some? then [if keysOnly then found.value.(value := []) else found.value] else [])
      && r.more == (found.Some? && limit == 1)
    case OpRange(_) => r.ListResponse?
    case OpUnsupported => false
  }

  function SerialAll(ops: seq<Op>, st: Store, revision: Revision): seq<Event> {
    if ops == [] then [] else SerialEvents(ops[0], st, revision) + SerialAll(ops[1..], st, revision)
  }

  /** The operations a request runs on the store `st`. */
  function Branch(req: Request, st: Store): seq<Op> {
    if SerialCompares(req.compares, st) then req.success else req.failure
  }

  // ---------------------------------------------------------------------
  // When the two agree

  /** The lookup of `key` at the snapshot found what the store `st` holds. */
  ghost predicate Agrees(v: View, snapshot: Revision, st: Store, key: Key) {
    Visible(Observe(v, key, snapshot)) == Lookup(st, key)
  }

  /** A delete that found nothing, and so protected nothing, of a key that is there after all. */
  ghost predicate StaleDelete(v: View, snapshot: Revision, st: Store, op: Op) {
    op.OpDelete? && Observe(v, op.key, snapshot).Absent? && op.key in st
  }

  ghost predicate NoStaleDelete(v: View, snapshot: Revision, st: Store, ops: seq<Op>) {
    forall i :: 0 <= i < |ops| ==> !StaleDelete(v, snapshot, st, ops[i])
  }

  /** Live values were created at or before the snapshot. */
  ghost predicate CreatedBy(v: View, snapshot: Revision) {
    forall k: Key :: Visible(Observe(v, k, snapshot)).Some? ==>
      Visible(Observe(v, k, snapshot)).value.createRevision <= snapshot
  }

  /** Reads at explicit revisions see the history. */
  ghost predicate HistoryOk(v: View, snapshot: Revision, log: seq<LogRecord>) {
    && snapshot <= |log|
    && forall k: Key, q: Revision :: v.compacted <= q <= snapshot ==>
         Visible(Observe(v, k, q)) == Lookup(StateAt(log, q), k)
  }

  /** Every event was staged at snapshot+1, and the write set is the keys of the events. */
  ghost predicate Staged(t: Txn) {
    && (forall i :: 0 <= i < |t.events| ==> t.events[i].kv.modRevision == t.meta.snapshot + 1)
    && (forall i :: 0 <= i < |t.events| ==> t.events[i].kv.createRevision <= t.meta.snapshot + 1)
    && (forall k :: k in t.meta.writeSet <==> Touches(t.events, k))
  }

  lemma {:induction false} ComparesFrame(v: View, t: Txn, compares: seq<Compare>)
    requires EvalCompares(v, t, compares).Ok?
    ensures var t' := EvalCompares(v, t, compares).value;
            && t' == t.(succeeded := t'.succeeded, meta := t.meta.(readSet := t'.meta.readSet))
            && t.meta.readSet.Keys <= t'.meta.readSet.Keys
            && forall i :: 0 <= i < |compares| ==> compares[i].key in t'.meta.readSet
    decreases |compares|
  {
    if compares != [] {
      var t1 := EvalCompare(v, t, compares[0]).value;
      ComparesFrame(v, t1, compares[1..]);
    }
  }

  /** The read set records what the lookups found. */
  ghost predicate ReadsObserved(v: View, t: Txn) {
    forall k :: k in t.meta.readSet ==> t.meta.readSet[k] == ObservedRevision(Observe(v, k, t.meta.snapshot))
  }

  lemma {:induction false} ComparesObserve(v: View, t: Txn, compares: seq<Compare>)
    requires EvalCompares(v, t, compares).Ok? && ReadsObserved(v, t)
    ensures ReadsObserved(v, EvalCompares(v, t, compares).value)
    decreases |compares|
  {
    if compares != [] {
      ComparesObserve(v, EvalCompare(v, t, compares[0]).value, compares[1..]);
    }
  }

  lemma {:induction false} OpsObserve(v: View, t: Txn, ops: seq<Op>)
    requires EvalOps(v, t, ops).Ok? && ReadsObserved(v, t)
    ensures ReadsObserved(v, EvalOps(v, t, ops).value)
    decreases |ops|
  {
    if ops != [] {
      OpsObserve(v, EvalOp(v, t, ops[0]).value, ops[1..]);
    }
  }

  /** The branch taken is the one the store `st` would take. */
  lemma {:induction false} ComparesAgree(v: View, t: Txn, compares: seq<Compare>, st: Store)
    requires EvalCompares(v, t, compares).Ok?
    requires forall i :: 0 <= i < |compares| ==> Agrees(v, t.meta.snapshot, st, compares[i].key)
    ensures EvalCompares(v, t, compares).value.succeeded <==> t.succeeded && SerialCompares(compares, st)
    decreases |compares|
  {
    if compares != [] {
      var t1 := EvalCompare(v, t, compares[0]).value;
      assert Agrees(v, t.meta.snapshot, st, compares[0].key);
      ComparesAgree(v, t1, compares[1..], st);
      assert SerialCompares(compares, st) <==>
             Attribute(compares[0], Lookup(st, compares[0].key)) == Expected(compares[0]) && SerialCompares(compares[1..], st);
    }
  }

  lemma OpFrame(v: View, t: Txn, op: Op)
    requires EvalOp(v, t, op).Ok?
    ensures var t1 := EvalOp(v, t, op).value;
            && t1.meta.snapshot == t.meta.snapshot
            && t1.succeeded == t.succeeded
            && t.meta.readSet.Keys <= t1.meta.readSet.Keys
            && t.meta.writeSet <= t1.meta.writeSet
            && t.events <= t1.events
            && |t1.responses| == |t.responses| + 1
            && t.responses <= t1.responses
  {
  }

  lemma {:induction false} OpsFrame(v: View, t: Txn, ops: seq<Op>)
    requires EvalOps(v, t, ops).Ok?
    ensures var t1 := EvalOps(v, t, ops).value;
            && t1.meta.snapshot == t.meta.snapshot
            && t1.succeeded == t.succeeded
            && t.meta.readSet.Keys <= t1.meta.readSet.Keys
            && t.meta.writeSet <= t1.meta.writeSet
            && t.events <= t1.events
            && |t1.responses| == |t.responses| + |ops|
            && t.responses <= t1.responses
    decreases |ops|
  {
    if ops != [] {
      OpFrame(v, t, ops[0]);
      OpsFrame(v, EvalOp(v, t, ops[0]).value, ops[1..]);
    }
  }

  lemma OpKeepsStaged(v: View, t: Txn, op: Op)
    requires EvalOp(v, t, op).Ok? && Staged(t) && CreatedBy(v, t.meta.snapshot)
    ensures Staged(EvalOp(v, t, op).value)
  {
    var t1 := EvalOp(v, t, op).value;
    if t1.events != t.events {
      var e := t1.events[|t.events|];
      assert t1.events == t.events + [e];
      forall k: Key
        ensures Touches(t1.events, k) <==> Touches(t.events, k) || e.kv.key == k
      {
        FindEventSnoc(t.events, e, k);
      }
    }
  }

  lemma {:induction false} OpsKeepStaged(v: View, t: Txn, ops: seq<Op>)
    requires EvalOps(v, t, ops).Ok? && Staged(t) && CreatedBy(v, t.meta.snapshot)
    ensures Staged(EvalOps(v, t, ops).value)
    decreases |ops|
  {
    if ops != [] {
      OpKeepsStaged(v, t, ops[0]);
      OpFrame(v, t, ops[0]);
      OpsKeepStaged(v, EvalOp(v, t, ops[0]).value, ops[1..]);
    }
  }

  lemma EvaluateIsStaged(v: View, req: Request, snapshot: Revision)
    requires Evaluate(v, req, snapshot).Ok? && CreatedBy(v, snapshot)
    ensures var t := Evaluate(v, req, snapshot).value;
            Staged(t) && ReadsObserved(v, t) && t.meta.snapshot == snapshot
  {
    ComparesObserve(v, NewTxn(snapshot), req.compares);
    ComparesFrame(v, NewTxn(snapshot), req.compares);
    var t := EvalCompares(v, NewTxn(snapshot), req.compares).value;
    var ops := if t.succeeded then req.success else req.failure;
    OpsKeepStaged(v, t, ops);
    OpsObserve(v, t, ops);
    OpsFrame(v, t, ops);
  }

  lemma StampAppend(a: seq<Event>, b: seq<Event>, revision: Revision)
    ensures Stamp(a + b, revision) == Stamp(a, revision) + Stamp(b, revision)
  {
  }

  /** The keys whose lookups a committed transaction has had validated. */
  ghost predicate AllAgree(v: View, t: Txn, st: Store) {
    forall k :: k in t.meta.readSet || k in t.meta.writeSet ==> Agrees(v, t.meta.snapshot, st, k)
  }

  /** One operation: its event, re-stamped, is the one the store `st` calls for. */
  lemma OpAgrees(v: View, t: Txn, op: Op, st: Store, revision: Revision)
    requires EvalOp(v, t, op).Ok?
    requires AllAgree(v, EvalOp(v, t, op).value, st)
    requires CreatedBy(v, t.meta.snapshot)
    ensures var t1 := EvalOp(v, t, op).value;
            if StaleDelete(v, t.meta.snapshot, st, op)
            then t1.events == t.events && |SerialEvents(op, st, revision)| == 1
            else Stamp(t1.events, revision) == Stamp(t.events, revision) + SerialEvents(op, st, revision)
  {
    var t1 := EvalOp(v, t, op).value;
    if op.OpPut? || op.OpDelete? {
      var o := Observe(v, op.key, t.meta.snapshot);
      if t1.events != t.events {
        assert op.key in t1.meta.writeSet;
        assert Agrees(v, t.meta.snapshot, st, op.key);
        var e := t1.events[|t.events|];
        assert t1.events == t.events + [e];
        StampAppend(t.events, [e], revision);
        assert Stamp([e], revision) == [StampEvent(e, revision)];
        assert SerialEvents(op, st, revision) == [StampEvent(e, revision)];
      }
    }
  }

  /**
   All operations: the staged events, re-stamped, are the ones the store `st`
   calls for if and only if no delete was stale.
   */
  lemma {:induction false} OpsAgree(v: View, t: Txn, ops: seq<Op>, st: Store, revision: Revision)
    requires EvalOps(v, t, ops).Ok?
    requires AllAgree(v, EvalOps(v, t, ops).value, st)
    requires CreatedBy(v, t.meta.snapshot)
    ensures var t' := EvalOps(v, t, ops).value;
            && |t'.events| <= |t.events| + |SerialAll(ops, st, revision)|
            && (NoStaleDelete(v, t.meta.snapshot, st, ops) ==>
                  Stamp(t'.events, revision) == Stamp(t.events, revision) + SerialAll(ops, st, revision))
            && (!NoStaleDelete(v, t.meta.snapshot, st, ops) ==>
                  |t'.events| < |t.events| + |SerialAll(ops, st, revision)|)
    decreases |ops|
  {
    if ops == [] {
      assert Stamp(t.events, revision) + [] == Stamp(t.events, revision);
    } else {
      var t1 := EvalOp(v, t, ops[0]).value;
      OpFrame(v, t, ops[0]);
      OpsFrame(v, t1, ops[1..]);
      OpAgrees(v, t, ops[0], st, revision);
      OpsAgree(v, t1, ops[1..], st, revision);
      assert NoStaleDelete(v, t.meta.snapshot, st, ops) <==>
             !StaleDelete(v, t.meta.snapshot, st, ops[0]) && NoStaleDelete(v, t.meta.snapshot, st, ops[1..]);
    }
  }

  lemma OpResponds(v: View, t: Txn, op: Op, st: Store, log: seq<LogRecord>)
    requires EvalOp(v, t, op).Ok?
    requires AllAgree(v, EvalOp(v, t, op).value, st)
    requires HistoryOk(v, t.meta.snapshot, log)
    requires !StaleDelete(v, t.meta.snapshot, st, op)
    ensures SerialResponse(op, st, log, EvalOp(v, t, op).value.responses[|t.responses|])
  {
    var t1 := EvalOp(v, t, op).value;
    match op
    case OpPut(key, _, _, _) =>
      assert key in t1.meta.writeSet;
    case OpDelete(key, _) =>
      assert Observe(v, key, t.meta.snapshot).Found? ==> key in t1.meta.writeSet;
    case OpGet(key, q, _, _, _) =>
      assert key in t1.meta.readSet;
    case OpRange(_) =>
    case OpUnsupported =>
  }

  lemma {:induction false} OpsRespond(v: View, t: Txn, ops: seq<Op>, st: Store, log: seq<LogRecord>)
    requires EvalOps(v, t, ops).Ok?
    requires AllAgree(v, EvalOps(v, t, ops).value, st)
    requires HistoryOk(v, t.meta.snapshot, log)
    requires NoStaleDelete(v, t.meta.snapshot, st, ops)
    ensures var t' := EvalOps(v, t, ops).value;
            && |t'.responses| == |t.responses| + |ops|
            && forall i :: 0 <= i < |ops| ==> SerialResponse(ops[i], st, log, t'.responses[|t.responses| + i])
    decreases |ops|
  {
    if ops != [] {
      var t1 := EvalOp(v, t, ops[0]).value;
      var t' := EvalOps(v, t, ops).value;
      OpFrame(v, t, ops[0]);
      OpsFrame(v, t1, ops[1..]);
      assert AllAgree(v, t1, st);
      OpResponds(v, t, ops[0], st, log);
      OpsRespond(v, t1, ops[1..], st, log);
      forall i | 0 <= i < |ops|
        ensures SerialResponse(ops[i], st, log, t'.responses[|t.responses| + i])
      {
        if i > 0 {
          assert ops[i] == ops[1..][i - 1];
        }
      }
    }
  }

  /** A range read is answered from the index and the log at the revision it asks for, and marks the transaction. */
  lemma {:induction false} OpsRange(v: View, t: Txn, ops: seq<Op>, y: nat)
    requires EvalOps(v, t, ops).Ok? && y < |ops| && ops[y].OpRange?
    ensures var t', r := EvalOps(v, t, ops).value, ops[y].range;
            && t'.meta.hasRangeRead && |t'.responses| == |t.responses| + |ops|
            && Readable(v, r.revision, t.meta.snapshot)
            && var list := List(v, r, if r.revision > 0 then r.revision else t.meta.snapshot);
               list.Ok? && t'.responses[|t.responses| + y] == ListResponse(list.value)
    decreases |ops|
  {
    hide List;
    var t1 := EvalOp(v, t, ops[0]).value;
    OpFrame(v, t, ops[0]);
    OpsFrame(v, t1, ops[1..]);
    if y > 0 {
      OpsRange(v, t1, ops[1..], y - 1);
    } else {
      OpsKeepRange(v, t1, ops[1..]);
      assert EvalOps(v, t1, ops[1..]).value.responses[|t.responses|] == t1.responses[|t.responses|];
    }
  }

  lemma {:induction false} OpsKeepRange(v: View, t: Txn, ops: seq<Op>)
    requires EvalOps(v, t, ops).Ok? && t.meta.hasRangeRead
    ensures EvalOps(v, t, ops).value.meta.hasRangeRead
    decreases |ops|
  {
    if ops != [] {
      OpsKeepRange(v, EvalOp(v, t, ops[0]).value, ops[1..]);
    }
  }

  /** The operations a transaction ran. */
  function Taken(req: Request, t: Txn): seq<Op> {
    if t.succeeded then req.success else req.failure
  }

  lemma EvaluateRange(v: View, req: Request, snapshot: Revision, y: nat)
    requires Evaluate(v, req, snapshot).Ok?
    requires y < |Taken(req, Evaluate(v, req, snapshot).value)| && Taken(req, Evaluate(v, req, snapshot).value)[y].OpRange?
    ensures var t := Evaluate(v, req, snapshot).value;
            var r := Taken(req, t)[y].range;
            && t.meta.hasRangeRead && |t.responses| == |Taken(req, t)|
            && Readable(v, r.revision, snapshot)
            && var list := List(v, r, if r.revision > 0 then r.revision else snapshot);
               list.Ok? && t.responses[y] == ListResponse(list.value)
  {
    hide List;
    ComparesFrame(v, NewTxn(snapshot), req.compares);
    var t := EvalCompares(v, NewTxn(snapshot), req.compares).value;
    var ops := if t.succeeded then req.success else req.failure;
    OpsFrame(v, t, ops);
    OpsRange(v, t, ops, y);
  }

  /**
   A transaction whose validated lookups agree with the store `st` takes the
   branch `st` would take, and its events, re-stamped, are those of running it
   alone on `st` if and only if none of its deletes is stale.
   */
  lemma EvaluateAgrees(v: View, req: Request, snapshot: Revision, st: Store, revision: Revision)
    requires Evaluate(v, req, snapshot).Ok?
    requires AllAgree(v, Evaluate(v, req, snapshot).value, st)
    requires CreatedBy(v, snapshot)
    ensures var t := Evaluate(v, req, snapshot).value;
            && (t.succeeded <==> SerialCompares(req.compares, st))
            && (Stamp(t.events, revision) == SerialAll(Branch(req, st), st, revision)
                <==> NoStaleDelete(v, snapshot, st, Branch(req, st)))
  {
    var t0 := NewTxn(snapshot);
    ComparesFrame(v, t0, req.compares);
    var t := EvalCompares(v, t0, req.compares).value;
    var ops := if t.succeeded then req.success else req.failure;
    OpsFrame(v, t, ops);
    var t' := EvalOps(v, t, ops).value;
    forall i | 0 <= i < |req.compares|
      ensures Agrees(v, snapshot, st, req.compares[i].key)
    {
      assert req.compares[i].key in t'.meta.readSet;
    }
    ComparesAgree(v, t0, req.compares, st);
    OpsAgree(v, t, ops, st, revision);
    assert Stamp(t.events, revision) == [];
    assert [] + SerialAll(ops, st, revision) == SerialAll(ops, st, revision);
  }

  /** And then it answers its client as running it alone would. */
  lemma EvaluateResponds(v: View, req: Request, snapshot: Revision, st: Store, log: seq<LogRecord>)
    requires Evaluate(v, req, snapshot).Ok?
    requires AllAgree(v, Evaluate(v, req, snapshot).value, st)
    requires CreatedBy(v, snapshot)
    requires HistoryOk(v, snapshot, log)
    requires NoStaleDelete(v, snapshot, st, Branch(req, st))
    ensures var t := Evaluate(v, req, snapshot).value;
            && |t.responses| == |Branch(req, st)|
            && forall i :: 0 <= i < |t.responses| ==> SerialResponse(Branch(req, st)[i], st, log, t.responses[i])
  {
    EvaluateAgrees(v, req, snapshot, st, 0);
    var t0 := NewTxn(snapshot);
    ComparesFrame(v, t0, req.compares);
    var t := EvalCompares(v, t0, req.compares).value;
    var ops := if t.succeeded then req.success else req.failure;
    OpsFrame(v, t, ops);
    OpsRespond(v, t, ops, st, log);
  }

  // ---------------------------------------------------------------------
  // What each staged event says, once stamped

  /** An event continues from the key's value on the store `st`. */
  ghost predicate EventOk(e: Event, st: Store, revision: Revision) {
    var prev := Lookup(st, e.kv.key);
    && e.kv.modRevision == revision
    && e.prevKv == prev
    && (e.typ == DELETE ==> prev.Some? && e.kv.lease == 0)
    && (e.typ == PUT ==>
          if prev.Some? then e.kv.createRevision == prev.value.createRevision && e.kv.version == prev.value.version + 1
          else e.kv.createRevision == revision && e.kv.version == 1)
  }

  ghost predicate EventsOk(events: seq<Event>, st: Store, revision: Revision) {
    forall i :: 0 <= i < |events| ==> EventOk(events[i], st, revision)
  }

  lemma OpEvents(v: View, t: Txn, op: Op, st: Store, revision: Revision)
    requires EvalOp(v, t, op).Ok?
    requires AllAgree(v, EvalOp(v, t, op).value, st)
    requires CreatedBy(v, t.meta.snapshot)
    requires EventsOk(Stamp(t.events, revision), st, revision)
    ensures EventsOk(Stamp(EvalOp(v, t, op).value.events, revision), st, revision)
  {
    OpAgrees(v, t, op, st, revision);
  }

  lemma {:induction false} OpsEvents(v: View, t: Txn, ops: seq<Op>, st: Store, revision: Revision)
    requires EvalOps(v, t, ops).Ok?
    requires AllAgree(v, EvalOps(v, t, ops).value, st)
    requires CreatedBy(v, t.meta.snapshot)
    requires EventsOk(Stamp(t.events, revision), st, revision)
    ensures EventsOk(Stamp(EvalOps(v, t, ops).value.events, revision), st, revision)
    decreases |ops|
  {
    if ops != [] {
      var t1 := EvalOp(v, t, ops[0]).value;
      OpFrame(v, t, ops[0]);
      OpsFrame(v, t1, ops[1..]);
      OpEvents(v, t, ops[0], st, revision);
      OpsEvents(v, t1, ops[1..], st, revision);
    }
  }

  lemma EvaluateEvents(v: View, req: Request, snapshot: Revision, st: Store, revision: Revision)
    requires Evaluate(v, req, snapshot).Ok?
    requires AllAgree(v, Evaluate(v, req, snapshot).value, st)
    requires CreatedBy(v, snapshot)
    ensures EventsOk(Stamp(Evaluate(v, req, snapshot).value.events, revision), st, revision)
  {
    ComparesFrame(v, NewTxn(snapshot), req.compares);
    var t := EvalCompares(v, NewTxn(snapshot), req.compares).value;
    OpsEvents(v, t, if t.succeeded then req.success else req.failure, st, revision);
  }

  // ---------------------------------------------------------------------
  // When evaluation ends the process

  /** A delete of a key whose latest write is already a delete. */
  ghost predicate DeletesDeleted(v: View, snapshot: Revision, op: Op) {
    && op.OpDelete? && !op.hasRangeEnd
    && Observe(v, op.key, snapshot).Found?
    && Observe(v, op.key, snapshot).event.typ == DELETE
  }

  /** Lookups find a readable record or nothing. */
  ghost predicate LookupsWhole(v: View) {
    forall k: Key, at: Revision :: Observe(v, k, at).Absent? || Observe(v, k, at).Found?
  }

  lemma {:induction false} ComparesNeverExit(v: View, t: Txn, compares: seq<Compare>)
    requires LookupsWhole(v)
    ensures !EvalCompares(v, t, compares).Exit?
    decreases |compares|
  {
    if compares != [] && EvalCompare(v, t, compares[0]).Ok? {
      ComparesNeverExit(v, EvalCompare(v, t, compares[0]).value, compares[1..]);
    }
  }

  lemma {:induction false} ListNeverExits(v: View, keys: seq<Key>, r: RangeRequest, at: Revision, acc: RangeResponse)
    ensures !ListKeys(v, keys, r, at, acc).Exit?
    decreases |keys|
  {
    if keys != [] {
      ListNeverExits(v, keys[1..], r, at, acc);
      var latest := IndexLatest(v.index, keys[0], at);
      if latest.Some? && ReadLog(v, latest.value).Some? {
        ListNeverExits(v, keys[1..], r, at, Emit(ReadLog(v, latest.value).value, r, acc).0);
      }
    }
  }

  lemma OpExit(v: View, t: Txn, op: Op)
    requires LookupsWhole(v)
    ensures EvalOp(v, t, op).Exit? <==> DeletesDeleted(v, t.meta.snapshot, op)
  {
    if op.OpRange? {
      var at := if op.range.revision > 0 then op.range.revision else t.meta.snapshot;
      ListNeverExits(v, Scan(v.index, op.range.key), op.range, at, RangeResponse(0, [], false));
    }
  }

  /** The operations up to one that deletes a deleted key all go through. */
  ghost predicate ReachesDeleted(v: View, t: Txn, ops: seq<Op>) {
    exists i :: 0 <= i < |ops| && ExitsAt(v, t, ops, i)
  }

  ghost predicate ExitsAt(v: View, t: Txn, ops: seq<Op>, i: nat)
    requires i < |ops|
  {
    EvalOps(v, t, ops[..i]).Ok? && DeletesDeleted(v, t.meta.snapshot, ops[i])
  }

  lemma {:induction false} OpsExit(v: View, t: Txn, ops: seq<Op>)
    requires LookupsWhole(v)
    ensures EvalOps(v, t, ops).Exit? <==> ReachesDeleted(v, t, ops)
    decreases |ops|
  {
    hide DeletesDeleted, EvalOp, LookupsWhole;
    if ops != [] {
      OpExit(v, t, ops[0]);
      assert ops[..0] == [];
      if EvalOp(v, t, ops[0]).Ok? {
        var t1, rest := EvalOp(v, t, ops[0]).value, ops[1..];
        OpFrame(v, t, ops[0]);
        OpsExit(v, t1, rest);
        forall i | 0 <= i < |rest|
          ensures ExitsAt(v, t1, rest, i) <==> ExitsAt(v, t, ops, i + 1)
        {
          assert ops[..i + 1][1..] == rest[..i];
        }
        if i :| 0 <= i < |rest| && ExitsAt(v, t1, rest, i) {
          assert ExitsAt(v, t, ops, i + 1);
        }
        if i :| 0 <= i < |ops| && ExitsAt(v, t, ops, i) {
          assert i > 0;
          assert ExitsAt(v, t1, rest, i - 1);
        }
      } else {
        forall i | 0 < i < |ops|
          ensures !EvalOps(v, t, ops[..i]).Ok?
        {
          assert ops[..i][0] == ops[0];
        }
        assert ExitsAt(v, t, ops, 0) <==> EvalOp(v, t, ops[0]).Exit?;
      }
    }
  }

  /**
   With whole lookups, evaluation ends the process if and only if the compares
   can be decided and the operations taken reach a delete of a deleted key.
   */
  lemma EvaluateExit(v: View, req: Request, snapshot: Revision)
    requires LookupsWhole(v)
    ensures Evaluate(v, req, snapshot).Exit? <==>
            var c := EvalCompares(v, NewTxn(snapshot), req.compares);
            c.Ok? && ReachesDeleted(v, c.value, if c.value.succeeded then req.success else req.failure)
  {
    hide EvalOps, EvalCompares, ReachesDeleted, LookupsWhole;
    var t0 := NewTxn(snapshot);
    ComparesNeverExit(v, t0, req.compares);
    var c := EvalCompares(v, t0, req.compares);
    if c.Ok? {
      OpsExit(v, c.value, if c.value.succeeded then req.success else req.failure);
    }
  }

  // ---------------------------------------------------------------------
  // Which transactions write a key twice

  /** The operation stages an event. */
  ghost predicate Stages(v: View, snapshot: Revision, op: Op) {
    op.OpPut? || (op.OpDelete? && Observe(v, op.key, snapshot).Found?)
  }

  /** The keys the operations write, in order. */
  ghost function WriteKeys(v: View, snapshot: Revision, ops: seq<Op>): seq<Key> {
    if ops == [] then []
    else (if Stages(v, snapshot, ops[0]) then [ops[0].key] else []) + WriteKeys(v, snapshot, ops[1..])
  }

  function KeysOf(events: seq<Event>): (keys: seq<Key>)
    ensures |keys| == |events| && forall i :: 0 <= i < |keys| ==> keys[i] == events[i].kv.key
  {
    seq(|events|, i requires 0 <= i < |events| => events[i].kv.key)
  }

  lemma OpWriteKey(v: View, t: Txn, op: Op)
    requires EvalOp(v, t, op).Ok?
    ensures KeysOf(EvalOp(v, t, op).value.events) == KeysOf(t.events) + if Stages(v, t.meta.snapshot, op) then [op.key] else []
  {
    hide List, Readable;
  }

  lemma {:induction false} OpsWriteKeys(v: View, t: Txn, ops: seq<Op>)
    requires EvalOps(v, t, ops).Ok?
    ensures KeysOf(EvalOps(v, t, ops).value.events) == KeysOf(t.events) + WriteKeys(v, t.meta.snapshot, ops)
    decreases |ops|
  {
    hide EvalOp, Observe, KeysOf;
    if ops == [] {
      assert KeysOf(t.events) + [] == KeysOf(t.events);
    } else {
      var t1 := EvalOp(v, t, ops[0]).value;
      OpFrame(v, t, ops[0]);
      OpWriteKey(v, t, ops[0]);
      OpsWriteKeys(v, t1, ops[1..]);
      var has, own, rest := KeysOf(t.events), if Stages(v, t.meta.snapshot, ops[0]) then [ops[0].key] else [], WriteKeys(v,
          t.meta.snapshot, ops[1..]);
      assert has + own + rest == has + (own + rest);
    }
  }

  lemma OnceIsDistinct(events: seq<Event>, keys: seq<Key>)
    requires KeysOf(events) == keys
    ensures WritesOnce(events) <==> forall i, j :: 0 <= i < j < |keys| ==> keys[i] != keys[j]
  {
  }

  /** A transaction writes no key twice if and only if the operations it ran write distinct keys. */
  lemma WritesOnceIsDistinct(v: View, req: Request, snapshot: Revision)
    requires Evaluate(v, req, snapshot).Ok?
    ensures var t := Evaluate(v, req, snapshot).value;
            var keys := WriteKeys(v, snapshot, Taken(req, t));
            WritesOnce(t.events) <==> forall i, j :: 0 <= i < j < |keys| ==> keys[i] != keys[j]
  {
    hide EvalOps, EvalCompares, WriteKeys, KeysOf, WritesOnce;
    ComparesFrame(v, NewTxn(snapshot), req.compares);
    var t := EvalCompares(v, NewTxn(snapshot), req.compares).value;
    var ops := if t.succeeded then req.success else req.failure;
    OpsFrame(v, t, ops);
    OpsWriteKeys(v, t, ops);
    var events, keys := EvalOps(v, t, ops).value.events, WriteKeys(v, snapshot, ops);
    NoKeys();
    assert [] + keys == keys;
    OnceIsDistinct(events, keys);
  }

  lemma NoKeys()
    ensures KeysOf([]) == []
  {
  }
}
