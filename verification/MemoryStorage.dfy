/**
 The store in place: the radix index, the log it reads records from, and the
 fields its operations update. Each operation is proved to do what `Mvcc`,
 `Listing` and `System` say it does to the view a reader has of the store.
 */
module MemoryStorage {
  import opened Bytes
  import opened Records
  import opened KeyIndex
  import opened GroupCommit
  import opened Listing
  import opened Mvcc
  import opened System
  import opened Restart
  import opened RadixTree
  import opened BPTrees

  /** The event of a record that is about a key. */
  method FindIn(record: LogRecord, key: Key) returns (e: Option<Event>)
    ensures e == FindEvent(record, key)
  {
    for i := 0 to |record|
      invariant FindEvent(record, key) == FindEvent(record[i..], key)
    {
      if record[i].kv.key == key {
        return Some(record[i]);
      }
    }
    e := None;
  }

  /** Whether an operation did what it should: the same outcome, and the transaction as it should be. */
  ghost predicate Did(r: Outcome<()>, expected: Outcome<Txn>, t: Txn) {
    match expected
    case Ok(t1) => r.Ok? && t == t1
    case Fail => r.Fail?
    case Exit => r.Exit?
  }

  /** What the store looks at in a watcher: how far it has delivered, and whether it is closed. */
  class WatcherState {
    var delivered: Revision
    var closed: bool

    constructor (at: Revision)
      ensures delivered == at && !closed
    {
      delivered, closed := at, false;
    }
  }

  function Watching(watchers: seq<WatcherState>): (r: seq<Watcher>)
    reads watchers
    ensures |r| == |watchers|
    ensures forall i :: 0 <= i < |r| ==> r[i] == Watcher(watchers[i].delivered, watchers[i].closed)
  {
    if watchers == [] then []
    else
      var n := |watchers| - 1;
      Watching(watchers[..n]) + [Watcher(watchers[n].delivered, watchers[n].closed)]
  }

  class MemoryStorage {
    const revisions: BPTree
    var log: seq<LogRecord>          // what the log holds, by revision
    var dropped: set<Revision>       // what it has compacted away
    var applied: Revision
    var compacted: Revision
    var leases: set<int>
    var watchers: seq<WatcherState>

    ghost predicate Valid()
      reads this, revisions, revisions.root, revisions.root.Repr
    {
      revisions.Valid()
    }

    /** What a reader holding the lock sees. */
    ghost function Seen(): View
      requires WellFormed(revisions.root.tree)
      reads this, revisions, revisions.root
    {
      View(revisions.Map(), log, dropped, applied, compacted, leases)
    }

    constructor (records: seq<LogRecord>, gone: set<Revision>)
      ensures Valid() && fresh(revisions) && fresh(revisions.root) && fresh(revisions.root.Repr)
      ensures Seen() == View(map[], records, gone, 0, 0, {}) && watchers == []
    {
      hide WellFormed, TreeNode.Valid, Contents;
      revisions := new BPTree();
      log, dropped, applied, compacted, leases, watchers := records, gone, 0, 0, {}, [];
    }

    method GetLogEntry(r: Revision) returns (record: Option<LogRecord>)
      requires Valid()
      ensures record == ReadLog(Seen(), r)
    {
      if 0 < r <= |log| && r !in dropped {
        return Some(log[r - 1]);
      }
      return None;
    }

    /** The latest event of a key at or below a revision, from the index and the log. */
    method LookUp(key: Key, at: Revision) returns (o: Observation)
      requires Valid()
      ensures o == Observe(Seen(), key, at)
    {
      hide TreeNode.Valid;
      var revision, found := revisions.GetLatestRevisionByKey(key, at);
      if !found {
        return Absent;
      }
      var record := GetLogEntry(revision);
      if record.None? {
        return Unreadable;
      }
      var event := FindIn(record.value, key);
      if event.None? {
        return Mismatched;
      }
      return Found(revision, event.value);
    }

    /** A requested read revision must be in the readable window. */
    method CheckReadRevision(requested: Revision, current: Revision) returns (ok: bool)
      requires Valid()
      ensures requested > 0 ==> ok == Readable(Seen(), requested, current)
    {
      if requested < compacted {
        return false;
      }
      if requested > current {
        return false;
      }
      return true;
    }

    /** The puts of the latest records of the keys in a range. */
    method ListRange(r: RangeRequest, at: Revision) returns (o: Outcome<RangeResponse>)
      requires Valid()
      ensures o == Listing.List(Seen(), r, at)
    {
      hide TreeNode.Valid, WellFormed, Items, From, Contents, ListItems, Listing.List, Listing.Scan, Visit;
      var lg, gone := log, dropped;
      var go := (seen: seq<Item>) => ListItems(lg, gone, r, at, seen).go;
      var all := revisions.ListRevisionsByKeyRange(r.key, go);
      o := ListItems(lg, gone, r, at, all).response;
      ghost var walk := EmptyItems(r.key, revisions.emptyRevs, revisions.emptyTombstone) + From(Items(revisions.root.tree), r.key);
      revisions.WalkIsScan(r.key);
      WalkFromIndex(revisions.root.tree, r.key, revisions.emptyRevs, revisions.emptyTombstone);
      VisitLists(lg, gone, r, at, walk, go);
      WalkLists(Seen(), r, at, walk);
    }

    /** Run a request's compares and operations at a snapshot; nothing is written. */
    method EvaluateTxn(req: Request, at: Revision) returns (o: Outcome<Txn>)
      requires Valid()
      ensures o == Evaluate(Seen(), req, at)
    {
      hide EvalCompare, EvalOp, TreeNode.Valid, WellFormed, Contents;
      ghost var v := Seen();
      var t := new Transaction(at);
      for i := 0 to |req.compares|
        invariant Valid() && Seen() == v
        invariant EvalCompares(v, NewTxn(at), req.compares) == EvalCompares(v, t.Value(), req.compares[i..])
      {
        assert req.compares[i..][1..] == req.compares[i + 1..];
        var r := t.Check(this, req.compares[i]);
        if r.Fail? {
          return Fail;
        }
        if r.Exit? {
          return Exit;
        }
      }
      assert EvalCompares(v, NewTxn(at), req.compares) == Ok(t.Value());
      var ops := if t.succeeded then req.success else req.failure;
      for i := 0 to |ops|
        invariant Valid() && Seen() == v
        invariant Evaluate(v, req, at) == EvalOps(v, t.Value(), ops[i..])
      {
        assert ops[i..][1..] == ops[i + 1..];
        var r := t.Run(this, ops[i]);
        if r.Fail? {
          return Fail;
        }
        if r.Exit? {
          return Exit;
        }
      }
      return Ok(t.Value());
    }

    /** Add the events of a record to the index. */
    method IndexEvents(record: LogRecord, r: Revision)
      requires Valid()
      modifies revisions, revisions.root, revisions.root.Repr
      ensures Valid() && revisions.root == old(revisions.root) && fresh(revisions.root.Repr - old(revisions.root.Repr))
      ensures revisions.Map() == IndexRecord(old(revisions.Map()), record, r)
    {
      hide TreeNode.Valid, WellFormed, Contents, IndexAdd;
      assert record[..0] == [];
      for i := 0 to |record|
        invariant Valid() && revisions.root == old(revisions.root) && fresh(revisions.root.Repr - old(revisions.root.Repr))
        invariant revisions.Map() == IndexRecord(old(revisions.Map()), record[..i], r)
      {
        assert record[..i + 1][..i] == record[..i];
        match record[i].typ {
          case PUT => revisions.AddRevision(record[i].kv.key, r, false);
          case DELETE => revisions.AddRevision(record[i].kv.key, r, true);
        }
      }
      assert record[..|record|] == record;
    }

    /** Apply the committed records up to `rev` to the index, in log order. */
    method ApplyUpTo(rev: Revision) returns (ok: bool)
      requires Valid()
      modifies this`applied, revisions, revisions.root, revisions.root.Repr
      ensures Valid() && revisions.root == old(revisions.root) && fresh(revisions.root.Repr - old(revisions.root.Repr))
      ensures Seen() == ApplyTo(old(Seen()), rev) && (ok <==> applied >= rev)
    {
      hide TreeNode.Valid, WellFormed, Contents, IndexRecord;
      while applied < rev
        invariant Valid() && revisions.root == old(revisions.root) && fresh(revisions.root.Repr - old(revisions.root.Repr))
        invariant ApplyTo(Seen(), rev) == ApplyTo(old(Seen()), rev)
        decreases rev - applied
      {
        var r := applied + 1;
        var record := GetLogEntry(r);
        if record.None? {
          return false;
        }
        IndexEvents(record.value, r);
        applied := r;
      }
      ok := true;
    }

    /** Rebuild the index from the log when the process starts. */
    method ReplayLog()
      requires Valid() && revisions.Map() == map[] && applied == 0
      modifies this`log, this`applied, revisions, revisions.root, revisions.root.Repr
      ensures Valid() && revisions.root == old(revisions.root) && fresh(revisions.root.Repr - old(revisions.root.Repr))
      ensures log == if old(log) == [] then [[]] else old(log)   // the log starts at revision 1
      ensures applied == |log|
      ensures revisions.Map() == Replay(Thin(log, dropped), |log|)
    {
      hide TreeNode.Valid, WellFormed, Contents, IndexRecord;
      if |log| == 0 {
        log := log + [[]];
        applied := 1;
        DummyReplay(dropped);
        return;
      }
      ReplayRecords();
      applied := |log|;
    }

    /** Index every record the log still has, in order. */
    method ReplayRecords()
      requires Valid() && revisions.Map() == map[]
      modifies revisions, revisions.root, revisions.root.Repr
      ensures Valid() && revisions.root == old(revisions.root) && fresh(revisions.root.Repr - old(revisions.root.Repr))
      ensures revisions.Map() == Replay(Thin(log, dropped), |log|)
    {
      hide TreeNode.Valid, WellFormed, Contents, IndexRecord, Replay, Thin;
      ghost var thin := Thin(log, dropped);
      ReplayNone(thin);
      var r := 0;
      while r < |log|
        invariant 0 <= r <= |log|
        invariant Valid() && revisions.root == old(revisions.root) && fresh(revisions.root.Repr - old(revisions.root.Repr))
        invariant revisions.Map() == Replay(thin, r)
      {
        ReplayNext(thin, r);
        r := r + 1;
        if r !in dropped {
          IndexEvents(log[r - 1], r);
        }
      }
    }

    /** Discard history up to a revision, or to where an open watcher still has to read from. */
    method Compact(revision: Revision) returns (through: Revision)
      requires Valid() && ViewOk(Seen())
      modifies this`compacted, revisions, revisions.root, revisions.root.Repr
      ensures Valid() && revisions.root == old(revisions.root) && revisions.root.Repr == old(revisions.root.Repr)
      ensures through == compacted
      ensures Watching(watchers) == old(Watching(watchers))
      ensures var point := CompactPoint(Watching(watchers), Min(revision, applied));
              Seen() == if point <= old(compacted) then old(Seen()) else CompactView(old(Seen()), point)
    {
      hide TreeNode.Valid, WellFormed, Contents, IndexCompact, ViewOk, Watching;
      through := revision;
      if through > applied {
        through := applied;
      }
      for i := 0 to |watchers|
        invariant through == CompactPoint(Watching(watchers)[..i], Min(revision, applied))
      {
        assert Watching(watchers)[..i + 1][..i] == Watching(watchers)[..i];
        if !watchers[i].closed && watchers[i].delivered < through {
          through := watchers[i].delivered;
        }
      }
      assert Watching(watchers)[..|watchers|] == Watching(watchers);
      if through <= compacted {
        return compacted;
      }
      RevisionsAscend(Seen());
      var _, _ := revisions.Compact(through);
      compacted := through;
    }
  }

  /** The view once the log is applied up to `rev`, or to the first record that cannot be read. */
  function ApplyTo(v: View, rev: Revision): View
    decreases rev - v.applied
  {
    if v.applied >= rev || ReadLog(v, v.applied + 1).None? then v
    else
      var r := v.applied + 1;
      ApplyTo(v.(index := IndexRecord(v.index, ReadLog(v, r).value, r), applied := r), rev)
  }

  /** In a proper state every committed record can be applied, and the state stays proper. */
  lemma {:induction false} ApplyReaches(v: View, rev: Revision)
    requires ViewOk(v) && rev <= |v.log|
    ensures ViewOk(ApplyTo(v, rev))
    ensures ApplyTo(v, rev).applied == if v.applied >= rev then v.applied else rev
    ensures ApplyTo(v, rev).log == v.log
    decreases rev - v.applied
  {
    hide IndexOk, LogOk, IndexRecord;
    if v.applied < rev {
      var r := v.applied + 1;
      assert r !in v.dropped;
      ApplyKeepsView(v);
      ApplyReaches(v.(index := IndexRecord(v.index, v.log[v.applied], r), applied := r), rev);
    }
  }

  lemma DummyReplay(dropped: set<Revision>)
    ensures Replay(Thin([[]], dropped), 1) == map[]
  {
    var thin := Thin([[]], dropped);
    assert thin[0] == [];
    assert Replay(thin, 0) == map[];
  }

  lemma ReplayNone(thin: seq<LogRecord>)
    ensures Replay(thin, 0) == map[]
  {
  }

  lemma ReplayNext(thin: seq<LogRecord>, n: nat)
    requires n < |thin|
    ensures Replay(thin, n + 1) == IndexRecord(Replay(thin, n), thin[n], n + 1)
    ensures thin[n] == [] ==> Replay(thin, n + 1) == Replay(thin, n)
  {
  }

  lemma RevisionsAscend(v: View)
    requires ViewOk(v)
    ensures forall k :: k in v.index ==> Ascending(v.index[k].revs)
  {
    forall k | k in v.index
      ensures Ascending(v.index[k].revs)
    {
      assert KeyOk(v.index, v.log, v.applied, v.compacted, k);
    }
  }

  /** The items of a walk are entries of the map. */
  lemma WalkFromIndex(n: Node, start: Key, revs: seq<Revision>, tombstone: bool)
    requires WellFormed(n)
    ensures FromIndex(EmptyItems(start, revs, tombstone) + From(Items(n), start), WithEmpty(Contents(n), revs, tombstone))
  {
    hide WellFormed, Items, From, Contents, RadixTree.Get;
    var walk := EmptyItems(start, revs, tombstone) + From(Items(n), start);
    forall i | 0 <= i < |walk|
      ensures walk[i].key in WithEmpty(Contents(n), revs, tombstone) && walk[i].revs == WithEmpty(Contents(n), revs,
          tombstone)[walk[i].key]
    {
      var it := walk[i];
      if it in From(Items(n), start) {
        FromMembers(Items(n), start, it);
        ContentsIsGet(n, it.key);
        SearchIsExact(n, it.key, it.revs);
        NoEmptyKey(n);
      }
    }
  }

  /** Stopping the walk where the callback says so changes nothing. */
  lemma VisitLists(log: seq<LogRecord>, dropped: set<Revision>, r: RangeRequest, at: Revision, items: seq<Item>,
                   go: seq<Item> -> bool)
    requires forall seen :: go(seen) == ListItems(log, dropped, r, at, seen).go
    ensures ListItems(log, dropped, r, at, Visit(items, [], go).0) == ListItems(log, dropped, r, at, items)
  {
    hide ListItems, Visit;
    VisitIsPrefix(items, [], go);
    var (all, more) := Visit(items, [], go);
    var m :| 0 <= m <= |items| && all == [] + items[..m] && (more ==> m == |items|) && (!more ==> !go(all));
    assert all == items[..m];
    if more {
      assert items[..m] == items;
    } else {
      ListStops(log, dropped, r, at, items, m);
    }
  }

  /** A transaction being evaluated at a snapshot. */
  class Transaction {
    const snapshot: Revision
    var succeeded: bool
    var logEvents: seq<Event>
    var readSet: map<Key, Revision>
    var writeSet: set<Key>
    var hasRangeRead: bool
    var responses: seq<Response>

    constructor (at: Revision)
      ensures Value() == NewTxn(at)
    {
      snapshot, succeeded, logEvents, readSet, writeSet, hasRangeRead, responses := at, true, [], map[], {}, false, [];
    }

    function Value(): Txn
      reads this
    {
      Txn(succeeded, logEvents, TxnMeta(snapshot, readSet, writeSet, hasRangeRead), responses)
    }

    /** Check one condition, recording what was read. */
    method Check(m: MemoryStorage, c: Compare) returns (r: Outcome<()>)
      requires m.Valid()
      modifies this
      ensures Did(r, EvalCompare(m.Seen(), old(Value()), c), Value())
    {
      hide Observe, TreeNode.Valid, WellFormed;
      var o := m.LookUp(c.key, snapshot);
      readSet := readSet[c.key := ObservedRevision(o)];
      if o.Unreadable? || o.Mismatched? {
        return Exit;
      }
      var live := o.Found? && o.event.typ == PUT;
      if !c.isEqual || c.target.TargetUnsupported? {
        return Fail;
      }
      var actual, wanted := 0, 0;
      match c.target {
        case TargetMod =>
          if !c.operand.OperandMod? {
            return Fail;
          }
          actual, wanted := if live then o.event.kv.modRevision else 0, c.operand.modRevision;
        case TargetVersion =>
          if !c.operand.OperandVersion? {
            return Fail;
          }
          actual, wanted := if live then o.event.kv.version else 0, c.operand.version;
        case TargetLease =>
          if !c.operand.OperandLease? {
            return Fail;
          }
          actual, wanted := if live then o.event.kv.lease else 0, c.operand.lease;
      }
      if actual != wanted {
        succeeded := false;
      }
      return Ok(());
    }

    /** Stage a put, stamped with the revision after the snapshot. */
    method Put(m: MemoryStorage, op: Op) returns (r: Outcome<()>)
      requires m.Valid() && op.OpPut?
      modifies this
      ensures Did(r, EvalPut(m.Seen(), old(Value()), op), Value())
    {
      hide Observe, TreeNode.Valid, WellFormed;
      if op.lease != 0 && op.lease !in m.leases {
        return Fail;
      }
      var o := m.LookUp(op.key, snapshot);
      if o.Unreadable? || o.Mismatched? {
        return Exit;
      }
      var newKv := KeyValue(op.key, op.value, 0, snapshot + 1, 0, op.lease);
      var prevKv := if o.Found? && o.event.typ == PUT then Some(o.event.kv) else None;
      if prevKv.Some? {
        newKv := newKv.(createRevision := prevKv.value.createRevision, version := prevKv.value.version + 1);
      } else {
        newKv := newKv.(createRevision := snapshot + 1, version := 1);
      }
      logEvents := logEvents + [Event(PUT, newKv, prevKv)];
      writeSet := writeSet + {op.key};
      responses := responses + [PutResponse(if op.wantPrev then prevKv else None)];
      return Ok(());
    }

    /** Stage a delete of one key. */
    method Delete(m: MemoryStorage, op: Op) returns (r: Outcome<()>)
      requires m.Valid() && op.OpDelete?
      modifies this
      ensures Did(r, EvalDelete(m.Seen(), old(Value()), op), Value())
    {
      hide Observe, TreeNode.Valid, WellFormed;
      if op.hasRangeEnd {
        return Fail;
      }
      var o := m.LookUp(op.key, snapshot);
      if o.Absent? {
        responses := responses + [DeleteResponse(0)];
        return Ok(());
      }
      if o.Unreadable? || o.Mismatched? || o.event.typ != PUT {
        return Exit;
      }
      logEvents := logEvents + [Event(DELETE, KeyValue(op.key, [], 0, snapshot + 1, 0, 0), Some(o.event.kv))];
      writeSet := writeSet + {op.key};
      responses := responses + [DeleteResponse(1)];
      return Ok(());
    }

    /** Read one key, at the snapshot or at an explicit revision. */
    method Get(m: MemoryStorage, op: Op) returns (r: Outcome<()>)
      requires m.Valid() && op.OpGet?
      modifies this
      ensures Did(r, EvalGet(m.Seen(), old(Value()), op), Value())
    {
      hide Observe, TreeNode.Valid, WellFormed;
      if op.key == [] {
        return Fail;
      }
      var at := snapshot;
      if op.revision > 0 {
        at := op.revision;
        var ok := m.CheckReadRevision(at, snapshot);
        if !ok {
          return Fail;
        }
      }
      if op.countOnly {
        return Fail;
      }
      var o := m.LookUp(op.key, at);
      if o.Unreadable? {
        return Fail;
      }
      if o.Mismatched? {
        return Exit;
      }
      var response := GetResponse(at, [], false);
      if o.Found? && o.event.typ == PUT {
        var kv := if op.keysOnly then o.event.kv.(value := []) else o.event.kv;
        response := GetResponse(at, [kv], op.limit == 1);
      }
      responses := responses + [response];
      var now := m.LookUp(op.key, snapshot);
      readSet := readSet[op.key := ObservedRevision(now)];
      return Ok(());
    }

    /** Read a range of keys. */
    method Range(m: MemoryStorage, op: Op) returns (r: Outcome<()>)
      requires m.Valid() && op.OpRange?
      modifies this
      ensures Did(r, EvalRange(m.Seen(), old(Value()), op), Value())
    {
      hide Listing.List, TreeNode.Valid, WellFormed;
      var at := snapshot;
      if op.range.revision > 0 {
        at := op.range.revision;
        var ok := m.CheckReadRevision(at, snapshot);
        if !ok {
          return Fail;
        }
      }
      var list := m.ListRange(op.range, at);
      match list {
        case Fail =>
          return Fail;
        case Exit =>
          return Exit;
        case Ok(response) =>
          responses := responses + [ListResponse(response)];
          hasRangeRead := true;
          return Ok(());
      }
    }

    method Run(m: MemoryStorage, op: Op) returns (r: Outcome<()>)
      requires m.Valid()
      modifies this
      ensures Did(r, EvalOp(m.Seen(), old(Value()), op), Value())
    {
      hide EvalPut, EvalDelete, EvalGet, EvalRange, TreeNode.Valid, WellFormed;
      match op {
        case OpPut(_, _, _, _) => r := Put(m, op);
        case OpDelete(_, _) => r := Delete(m, op);
        case OpGet(_, _, _, _, _) => r := Get(m, op);
        case OpRange(_) => r := Range(m, op);
        case OpUnsupported => r := Fail;
      }
    }
  }

  // ---------------------------------------------------------------------
  // Range reads

  /** A range read as far as it has come, and whether it goes on. */
  datatype Listed = Listed(response: Outcome<RangeResponse>, go: bool)

  /** What the walk's callback does with one key and its revisions. */
  function ListItem(log: seq<LogRecord>, dropped: set<Revision>, r: RangeRequest, at: Revision, acc: RangeResponse,
                    it: Item): Listed {
    if !BeforeEnd(it.key, r.rangeEnd) then Listed(Ok(acc), false)
    else if IsInternalKey(it.key) then Listed(Ok(acc), true)
    else
      match LatestAt(it.revs.revs, at)
      case None => Listed(Ok(acc), true)
      case Some(rev) =>
        if !(0 < rev <= |log| && rev !in dropped) then Listed(Fail, false)
        else
          var (acc1, go) := Emit(log[rev - 1], r, acc);
          Listed(Ok(acc1), go)
  }

  function ListItems(log: seq<LogRecord>, dropped: set<Revision>, r: RangeRequest, at: Revision, items: seq<Item>): Listed {
    if items == [] then Listed(Ok(RangeResponse(0, [], false)), true)
    else
      var n := |items| - 1;
      var l := ListItems(log, dropped, r, at, items[..n]);
      if !l.go || !l.response.Ok? then l else ListItem(log, dropped, r, at, l.response.value, items[n])
  }

  /** Once the callback has said to stop, more items do not matter. */
  lemma {:induction false} ListStops(log: seq<LogRecord>, dropped: set<Revision>, r: RangeRequest, at: Revision,
                                     items: seq<Item>, m: nat)
    requires m <= |items| && !ListItems(log, dropped, r, at, items[..m]).go
    ensures ListItems(log, dropped, r, at, items) == ListItems(log, dropped, r, at, items[..m])
    decreases |items| - m
  {
    hide ListItem;
    if m < |items| {
      assert items[..m + 1][..m] == items[..m];
      ListStops(log, dropped, r, at, items, m + 1);
    } else {
      assert items[..m] == items;
    }
  }

  /** Items carry the revisions the index has for their keys. */
  ghost predicate FromIndex(items: seq<Item>, ix: Index) {
    forall i :: 0 <= i < |items| ==> items[i].key in ix && items[i].revs == ix[items[i].key]
  }

  lemma {:induction false} ItemsAreKeys(v: View, r: RangeRequest, at: Revision, items: seq<Item>, m: nat)
    requires m <= |items| && FromIndex(items, v.index)
    ensures var l := ListItems(v.log, v.dropped, r, at, items[..m]);
            ListKeys(v, KeysIn(items), r, at, RangeResponse(0, [], false)) ==
            if l.go && l.response.Ok? then ListKeys(v, KeysIn(items)[m..], r, at, l.response.value) else l.response
  {
    hide Emit, BeforeEnd, LatestAt, IsInternalKey;
    if m > 0 {
      ItemsAreKeys(v, r, at, items, m - 1);
      assert items[..m][..m - 1] == items[..m - 1];
      var keys := KeysIn(items);
      assert keys[m - 1..][1..] == keys[m..];
      assert IndexLatest(v.index, keys[m - 1], at) == LatestAt(items[m - 1].revs.revs, at);
    } else {
      assert KeysIn(items)[0..] == KeysIn(items);
    }
  }

  /** A range read over the whole walk is what `List` says. */
  lemma WalkLists(v: View, r: RangeRequest, at: Revision, items: seq<Item>)
    requires FromIndex(items, v.index) && KeysIn(items) == Listing.Scan(v.index, r.key)
    ensures ListItems(v.log, v.dropped, r, at, items).response == Listing.List(v, r, at)
  {
    hide ListItem, ListKeys, Listing.Scan;
    ItemsAreKeys(v, r, at, items, |items|);
    assert items[..|items|] == items;
    assert KeysIn(items)[|items|..] == [];
    NoKeys(v, r, at);
  }

  lemma NoKeys(v: View, r: RangeRequest, at: Revision)
    ensures forall acc :: ListKeys(v, [], r, at, acc) == Ok(acc)
  {
  }
}
