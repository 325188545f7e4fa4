/**
 Leases: which keys hang on which lease. The lists are kept from log events
 alone; this file says what each event and each step of expiry does to them,
 and that no key with a lease is ever lost from them.
 */
module Leases {
  import opened Bytes
  import opened Records
  import opened Listing
  import opened FileNames
  import Mvcc

  type LeaseID = int

  // ---------------------------------------------------------------------
  // Lease records

  const TWO_63: int := 0x8000_0000_0000_0000
  const TWO_64: int := 0x1_0000_0000_0000_0000

  /** "\x00cloudetcd/lease/" */
  const LEASE_PREFIX: Key := INTERNAL_PREFIX + [108, 101, 97, 115, 101, 47]

  function LeaseKey(id: LeaseID): Key
    requires -TWO_63 <= id < TWO_63
  {
    LEASE_PREFIX + Hex(if id < 0 then id + TWO_64 else id, 16)
  }

  function ParseLeaseKey(key: Key): Option<LeaseID> {
    if !HasPrefix(key, LEASE_PREFIX) then None
    else
      var n := ParseUint(key[|LEASE_PREFIX|..]);
      if n.None? then None else Some(if n.value < TWO_63 then n.value else n.value - TWO_64)
  }

  predicate IsLeaseKey(key: Key) {
    ParseLeaseKey(key).Some?
  }

  /** A lease's key names it, and is hidden from clients. */
  lemma LeaseKeyRoundTrip(id: LeaseID)
    requires -TWO_63 <= id < TWO_63
    ensures ParseLeaseKey(LeaseKey(id)) == Some(id) && IsInternalKey(LeaseKey(id))
  {
    hide Hex, ParseUint;
    var n := if id < 0 then id + TWO_64 else id;
    UintRoundTrip(n);
    assert LeaseKey(id)[|LEASE_PREFIX|..] == Hex(n, 16);
  }

  // ---------------------------------------------------------------------
  // The lists

  /** A lease that was taken out of the table, whose keys are being deleted one by one. */
  datatype Retired = Retired(id: LeaseID, keys: seq<Key>, done: nat)

  datatype LeaseTable = LeaseTable(
    lists: map<LeaseID, seq<Key>>,   // the keys of each lease
    expiring: set<LeaseID>,          // leases whose revoke has been sent
    retired: seq<Retired>)

  function Without(keys: seq<Key>, key: Key): seq<Key> {
    if keys == [] then []
    else if keys[0] == key then keys[1..]
    else [keys[0]] + Without(keys[1..], key)
  }

  /** The lease a key hangs on; 0 is none. */
  function LeaseOf(st: Store, key: Key): LeaseID {
    if key in st then st[key].lease else 0
  }

  function Attach(t: LeaseTable, key: Key, id: LeaseID): LeaseTable {
    t.(lists := t.lists[id := (if id in t.lists then t.lists[id] else []) + [key]])
  }

  /** Take a key off a lease's list; a lease whose list is then empty leaves the table. */
  function Detach(t: LeaseTable, key: Key, id: LeaseID): LeaseTable {
    if id !in t.lists then t
    else
      var rest := Without(t.lists[id], key);
      t.(lists := if rest == [] then t.lists - {id} else t.lists[id := rest])
  }

  /** An event of an ordinary key. */
  function OnKeyEvent(t: LeaseTable, e: Event): LeaseTable {
    var now, was := e.kv.lease, if e.prevKv.Some? then e.prevKv.value.lease else 0;
    var t1 := if now != 0 && now != was then Attach(t, e.kv.key, now) else t;
    if now != was && was != 0 then Detach(t1, e.kv.key, was) else t1
  }

  /** A lease leaves the table; its keys, if any, are to be deleted. */
  function Retire(t: LeaseTable, id: LeaseID): LeaseTable {
    if id !in t.lists then t
    else t.(lists := t.lists - {id}, expiring := t.expiring - {id},
            retired := if t.lists[id] == [] then t.retired else t.retired + [Retired(id, t.lists[id], 0)])
  }

  /** A put of a lease's record grants it, a delete revokes it. `valid` is whether the record's value could be read. */
  function OnLeaseRecord(t: LeaseTable, id: LeaseID, typ: EventType, valid: bool): LeaseTable {
    match typ
    case PUT => if valid && id !in t.lists then t.(lists := t.lists[id := []]) else t
    case DELETE => Retire(t, id)
  }

  /** What an event of the log does. */
  function OnLogEvent(t: LeaseTable, e: Event, valid: bool): LeaseTable {
    match ParseLeaseKey(e.kv.key)
    case Some(id) => OnLeaseRecord(t, id, e.typ, valid)
    case None => OnKeyEvent(t, e)
  }

  // ---------------------------------------------------------------------
  // What every step keeps

  /** A key is still to be deleted for a retired lease. */
  predicate Awaits(r: Retired, key: Key, id: LeaseID) {
    r.id == id && r.done <= |r.keys| && key in r.keys[r.done..]
  }

  ghost predicate AwaitsDeletion(t: LeaseTable, key: Key, id: LeaseID) {
    exists i :: 0 <= i < |t.retired| && Awaits(t.retired[i], key, id)
  }

  predicate Listed(t: LeaseTable, key: Key, id: LeaseID) {
    id in t.lists && key in t.lists[id]
  }

  ghost predicate NoRepeats(keys: seq<Key>) {
    forall i, j :: 0 <= i < j < |keys| ==> keys[i] != keys[j]
  }

  /** A key on a list hangs on that lease, and is there once: so it is on no other list. */
  ghost predicate ListsTrue(t: LeaseTable, st: Store) {
    && (forall id :: id in t.lists ==> NoRepeats(t.lists[id]))
    && (forall id, key :: Listed(t, key, id) ==> id != 0 && LeaseOf(st, key) == id && !IsLeaseKey(key))
  }

  /** A key with a lease is on that lease's list, or is awaiting deletion for it. */
  ghost predicate NoneLost(t: LeaseTable, st: Store) {
    forall key :: !IsLeaseKey(key) && LeaseOf(st, key) != 0 ==>
      Listed(t, key, LeaseOf(st, key)) || AwaitsDeletion(t, key, LeaseOf(st, key))
  }

  ghost predicate Inv(t: LeaseTable, st: Store) {
    ListsTrue(t, st) && NoneLost(t, st)
  }

  /** The event's previous value is what the store holds. */
  ghost predicate TruePrev(st: Store, e: Event) {
    && e.prevKv == Lookup(st, e.kv.key)
    && (e.typ == DELETE ==> e.kv.lease == 0)
  }

  lemma {:induction false} WithoutIs(keys: seq<Key>, key: Key, k: Key)
    requires NoRepeats(keys)
    ensures k in Without(keys, key) <==> k in keys && k != key
    ensures NoRepeats(Without(keys, key))
    decreases |keys|
  {
    if keys != [] {
      var rest := keys[1..];
      WithoutIs(rest, key, k);
      assert keys == [keys[0]] + rest;
      assert keys[0] !in rest;
      if keys[0] != key {
        WithoutIs(rest, key, keys[0]);
        var w := Without(rest, key);
        assert keys[0] !in w;
        assert forall i :: 0 <= i < |w| ==> ([keys[0]] + w)[i + 1] == w[i];
      }
    }
  }

  /** Which keys are listed after an event, for every lease. */
  lemma KeyEventLists(t: LeaseTable, e: Event, st: Store, key: Key, id: LeaseID)
    requires ListsTrue(t, st) && TruePrev(st, e) && !IsLeaseKey(e.kv.key)
    ensures var t1 := OnKeyEvent(t, e);
            if key != e.kv.key || e.kv.lease == LeaseOf(st, key) then Listed(t1, key, id) <==> Listed(t, key, id)
            else Listed(t1, key, id) <==> id == e.kv.lease && id != 0
  {
    var was := LeaseOf(st, e.kv.key);
    var now := e.kv.lease;
    var t1 := if now != 0 && now != was then Attach(t, e.kv.key, now) else t;
    if now != was && was != 0 && was in t1.lists {
      assert t1.lists[was] == t.lists[was];
      WithoutIs(t.lists[was], e.kv.key, key);
    }
    assert Listed(t, key, id) ==> id != 0 && LeaseOf(st, key) == id;
  }

  lemma KeyEventRepeats(t: LeaseTable, e: Event, st: Store, id: LeaseID)
    requires ListsTrue(t, st) && TruePrev(st, e) && !IsLeaseKey(e.kv.key)
    requires id in OnKeyEvent(t, e).lists
    ensures NoRepeats(OnKeyEvent(t, e).lists[id])
  {
    var was := LeaseOf(st, e.kv.key);
    var now := e.kv.lease;
    if now != was && was != 0 && was in t.lists {
      WithoutIs(t.lists[was], e.kv.key, []);
    }
    if now != 0 && now != was && now in t.lists {
      assert Listed(t, e.kv.key, now) ==> LeaseOf(st, e.kv.key) == now;
      assert e.kv.key !in t.lists[now];
    }
  }

  /** An event of an ordinary key keeps the lists. */
  lemma KeyEventKeeps(t: LeaseTable, e: Event, st: Store)
    requires Inv(t, st) && TruePrev(st, e) && !IsLeaseKey(e.kv.key)
    ensures Inv(OnKeyEvent(t, e), ApplyEvent(st, e))
  {
    hide OnKeyEvent, IsLeaseKey;
    var t1, st1 := OnKeyEvent(t, e), ApplyEvent(st, e);
    KeyEventRetired(t, e);
    forall id | id in t1.lists
      ensures NoRepeats(t1.lists[id])
    {
      KeyEventRepeats(t, e, st, id);
    }
    forall id, key | Listed(t1, key, id)
      ensures id != 0 && LeaseOf(st1, key) == id && !IsLeaseKey(key)
    {
      KeyEventLists(t, e, st, key, id);
    }
    forall key | !IsLeaseKey(key) && LeaseOf(st1, key) != 0
      ensures Listed(t1, key, LeaseOf(st1, key)) || AwaitsDeletion(t1, key, LeaseOf(st1, key))
    {
      KeyEventLists(t, e, st, key, LeaseOf(st1, key));
    }
  }

  lemma KeyEventRetired(t: LeaseTable, e: Event)
    ensures OnKeyEvent(t, e).retired == t.retired
  {
  }

  /** Only the store's view of the lease's own record changes with it. */
  lemma LeaseRecordStore(st: Store, e: Event, key: Key)
    requires IsLeaseKey(e.kv.key) && !IsLeaseKey(key)
    ensures LeaseOf(ApplyEvent(st, e), key) == LeaseOf(st, key)
  {
  }

  lemma RetireKeeps(t: LeaseTable, id: LeaseID, st: Store)
    requires Inv(t, st)
    ensures Inv(Retire(t, id), st)
  {
    hide IsLeaseKey;
    var t1 := Retire(t, id);
    forall i, key | Listed(t1, key, i)
      ensures Listed(t, key, i)
    {
    }
    forall key | !IsLeaseKey(key) && LeaseOf(st, key) != 0
      ensures Listed(t1, key, LeaseOf(st, key)) || AwaitsDeletion(t1, key, LeaseOf(st, key))
    {
      if AwaitsDeletion(t, key, LeaseOf(st, key)) {
        var i :| 0 <= i < |t.retired| && Awaits(t.retired[i], key, LeaseOf(st, key));
        assert t1.retired[i] == t.retired[i];
      } else if LeaseOf(st, key) == id && id in t.lists {
        var r := Retired(id, t.lists[id], 0);
        assert t1.retired == t.retired + [r];
        assert r.keys[r.done..] == r.keys;
        assert Awaits(t1.retired[|t.retired|], key, id);
      }
    }
  }

  lemma GrantKeeps(t: LeaseTable, id: LeaseID, st: Store)
    requires Inv(t, st) && id !in t.lists
    ensures Inv(t.(lists := t.lists[id := []]), st)
  {
    hide IsLeaseKey;
    var t1 := t.(lists := t.lists[id := []]);
    assert forall key, i :: Listed(t1, key, i) <==> Listed(t, key, i);
    forall key | !IsLeaseKey(key) && LeaseOf(st, key) != 0
      ensures Listed(t1, key, LeaseOf(st, key)) || AwaitsDeletion(t1, key, LeaseOf(st, key))
    {
      assert AwaitsDeletion(t, key, LeaseOf(st, key)) ==> AwaitsDeletion(t1, key, LeaseOf(st, key));
    }
  }

  /** The store may change in ways that do not concern leased keys. */
  lemma StoreChanges(t: LeaseTable, st: Store, st1: Store)
    requires Inv(t, st) && forall key :: !IsLeaseKey(key) ==> LeaseOf(st1, key) == LeaseOf(st, key)
    ensures Inv(t, st1)
  {
    hide IsLeaseKey;
    assert forall id, key :: Listed(t, key, id) ==> LeaseOf(st, key) == id;
  }

  /** Every log event keeps the lists, if its previous value is the true one. */
  lemma LogEventKeeps(t: LeaseTable, e: Event, valid: bool, st: Store)
    requires Inv(t, st) && TruePrev(st, e)
    ensures Inv(OnLogEvent(t, e, valid), ApplyEvent(st, e))
  {
    hide Inv, OnKeyEvent, Retire, ParseLeaseKey;
    if ParseLeaseKey(e.kv.key).Some? {
      var id := ParseLeaseKey(e.kv.key).value;
      var st1 := ApplyEvent(st, e);
      forall key | !IsLeaseKey(key)
        ensures LeaseOf(st1, key) == LeaseOf(st, key)
      {
        LeaseRecordStore(st, e, key);
      }
      StoreChanges(t, st, st1);
      if e.typ == DELETE {
        RetireKeeps(t, id, st1);
      } else if valid && id !in t.lists {
        GrantKeeps(t, id, st1);
      }
    } else {
      KeyEventKeeps(t, e, st);
    }
  }

  // ---------------------------------------------------------------------
  // Records and replay

  function OnRecord(t: LeaseTable, record: LogRecord, valid: Event -> bool): LeaseTable
    decreases |record|
  {
    if record == [] then t else OnRecord(OnLogEvent(t, record[0], valid(record[0])), record[1..], valid)
  }

  /** A record whose events name their true predecessors keeps the lists. */
  lemma {:induction false} RecordKeeps(t: LeaseTable, record: LogRecord, valid: Event -> bool, st: Store,
                                       revision: Revision)
    requires Inv(t, st) && WritesOnce(record) && Mvcc.EventsOk(record, st, revision)
    ensures Inv(OnRecord(t, record, valid), ApplyRecord(st, record))
    decreases |record|
  {
    hide Inv, OnLogEvent;
    if record != [] {
      var e := record[0];
      var st1 := ApplyEvent(st, e);
      assert Mvcc.EventOk(e, st, revision);
      LogEventKeeps(t, e, valid(e), st);
      forall i | 0 <= i < |record[1..]|
        ensures Mvcc.EventOk(record[1..][i], st1, revision)
      {
        assert Mvcc.EventOk(record[i + 1], st, revision);
        assert record[i + 1].kv.key != e.kv.key;
      }
      RecordKeeps(OnLogEvent(t, e, valid(e)), record[1..], valid, st1, revision);
    }
  }

  function OnLog(log: seq<LogRecord>, n: nat, valid: Event -> bool): LeaseTable
    requires n <= |log|
  {
    if n == 0 then LeaseTable(map[], {}, []) else OnRecord(OnLog(log, n - 1, valid), log[n - 1], valid)
  }

  /** Replaying a log that continues from itself loses no key. */
  lemma {:induction false} ReplayKeeps(log: seq<LogRecord>, n: nat, valid: Event -> bool)
    requires n <= |log|
    requires forall i :: 0 <= i < n ==> WritesOnce(log[i]) && Mvcc.EventsOk(log[i], StateAt(log, i), i + 1)
    ensures Inv(OnLog(log, n, valid), StateAt(log, n))
  {
    hide OnRecord, OnLogEvent, Mvcc.EventsOk, WritesOnce;
    if n > 0 {
      var m := n - 1;
      ReplayKeeps(log, m, valid);
      assert WritesOnce(log[m]) && Mvcc.EventsOk(log[m], StateAt(log, m), m + 1);
      RecordKeeps(OnLog(log, m, valid), log[m], valid, StateAt(log, m), n);
    }
  }

  // ---------------------------------------------------------------------
  // Expiry

  /** The store, the lease table and the revokes that have been sent and not answered, and what may happen to them. */
  datatype World = World(table: LeaseTable, store: Store, inFlight: set<LeaseID>)

  datatype Action =
    | LogEvent(event: Event, valid: bool)
    | MarkExpiring(marked: LeaseID)             // the lease has expired; its revoke is sent
    | RevokeApplied(revoked: LeaseID, record: Event)  // the delete of the lease's record, applied
    | RevokeNothing(unrecorded: LeaseID)        // no record of the lease was in the log
    | RevokeFailed(failed: LeaseID)             // to be retried
    | DeleteNext(at: nat)                       // the next key of a retired lease
    | Finish(finished: nat)
    | Requeue(again: nat)                       // a deletion failed; start over

  /** The delete that a retired lease issues for a key: only if the key still hangs on it. */
  function DeleteFor(w: World, key: Key, id: LeaseID): World {
    if key in w.store && w.store[key].lease == id then
      var e := Event(DELETE, KeyValue(key, [], 0, 0, 0, 0), Some(w.store[key]));
      w.(table := OnLogEvent(w.table, e, false), store := ApplyEvent(w.store, e))
    else w
  }

  function Advance(t: LeaseTable, i: nat): LeaseTable {
    if i < |t.retired| then t.(retired := t.retired[i := t.retired[i].(done := t.retired[i].done + 1)]) else t
  }

  ghost predicate Next(w: World, a: Action, w': World) {
    match a
    case LogEvent(e, valid) =>
      TruePrev(w.store, e) && w' == w.(table := OnLogEvent(w.table, e, valid), store := ApplyEvent(w.store, e))
    case MarkExpiring(id) =>
      && id in w.table.lists && id !in w.table.expiring && id !in w.inFlight
      && w' == w.(table := w.table.(expiring := w.table.expiring + {id}), inFlight := w.inFlight + {id})
    case RevokeApplied(id, e) =>
      && id in w.inFlight && e.typ == DELETE && ParseLeaseKey(e.kv.key) == Some(id) && TruePrev(w.store, e)
      && w' == World(OnLogEvent(w.table, e, false), ApplyEvent(w.store, e), w.inFlight - {id})
    case RevokeNothing(id) =>
      id in w.inFlight && w' == w.(table := Retire(w.table, id), inFlight := w.inFlight - {id})
    case RevokeFailed(id) =>
      && id in w.inFlight
      && w' == w.(table := w.table.(expiring := w.table.expiring - {id}), inFlight := w.inFlight - {id})
    case DeleteNext(i) =>
      && i < |w.table.retired| && w.table.retired[i].done < |w.table.retired[i].keys|
      && var r := w.table.retired[i];
         var w1 := DeleteFor(w, r.keys[r.done], r.id);
         w' == w1.(table := Advance(w1.table, i))
    case Finish(i) =>
      && i < |w.table.retired| && w.table.retired[i].done == |w.table.retired[i].keys|
      && w' == w.(table := w.table.(retired := w.table.retired[..i] + w.table.retired[i + 1..]))
    case Requeue(i) =>
      && i < |w.table.retired|
      && w' == w.(table := w.table.(retired := w.table.retired[..i] + w.table.retired[i + 1..] + [w.table.retired[i].(done := 0)]))
  }

  ghost predicate WorldOk(w: World) {
    Inv(w.table, w.store) && RetiredOk(w.table)
  }

  ghost predicate RetiredOk(t: LeaseTable) {
    forall i :: 0 <= i < |t.retired| ==> t.retired[i].done <= |t.retired[i].keys|
  }

  /** The transaction a retired lease runs for each of its keys: if the key still hangs on it, delete the key. */
  function DeleteRequest(key: Key, id: LeaseID): Mvcc.Request {
    Mvcc.Request([Mvcc.Compare(key, Mvcc.TargetLease, true, Mvcc.OperandLease(id))], [Mvcc.OpDelete(key, false)], [])
  }

  /** It does to the store and the lists what `DeleteFor` says. */
  lemma DeleteRequestIs(w: World, key: Key, id: LeaseID, revision: Revision, valid: Event -> bool)
    requires id != 0
    ensures var events := Mvcc.SerialAll(Mvcc.Branch(DeleteRequest(key, id), w.store), w.store, revision);
            var w1 := DeleteFor(w, key, id);
            OnRecord(w.table, events, valid).lists == w1.table.lists && ApplyRecord(w.store, events) == w1.store
  {
    var req := DeleteRequest(key, id);
    var ops := Mvcc.Branch(req, w.store);
    var held := Lookup(w.store, key);
    assert req.compares[0].key == key;
    assert Mvcc.SerialCompares(req.compares, w.store) <==> Mvcc.Attribute(req.compares[0], held) == id;
    if key in w.store && w.store[key].lease == id {
      var e := Event(DELETE, KeyValue(key, [], 0, revision, 0, 0), Some(w.store[key]));
      assert ops[1..] == [];
      assert Mvcc.SerialAll(ops, w.store, revision) == [e];
      assert [e][1..] == [];
      assert OnRecord(w.table, [e], valid) == OnLogEvent(w.table, e, valid(e));
    }
  }

  /** Whatever keeps every awaited key awaited, or takes its lease away, keeps the lists. */
  lemma RetiredChanges(t: LeaseTable, retired: seq<Retired>, st: Store)
    requires ListsTrue(t, st)
    requires forall key :: !IsLeaseKey(key) && LeaseOf(st, key) != 0 ==>
               Listed(t, key, LeaseOf(st, key)) || AwaitsDeletion(t.(retired := retired), key, LeaseOf(st, key))
    ensures Inv(t.(retired := retired), st)
  {
    hide IsLeaseKey;
    var t1 := t.(retired := retired);
    assert forall key, id :: Listed(t1, key, id) <==> Listed(t, key, id);
  }

  lemma DeleteForKeeps(w: World, key: Key, id: LeaseID)
    requires Inv(w.table, w.store)
    ensures var w1 := DeleteFor(w, key, id);
            && Inv(w1.table, w1.store)
            && (id != 0 ==> LeaseOf(w1.store, key) != id)
            && w.table.retired <= w1.table.retired
  {
    hide Inv;
    if key in w.store && w.store[key].lease == id {
      var e := Event(DELETE, KeyValue(key, [], 0, 0, 0, 0), Some(w.store[key]));
      LogEventKeeps(w.table, e, false, w.store);
      RetiredGrows(w.table, e, false);
    }
  }

  lemma RetiredGrows(t: LeaseTable, e: Event, valid: bool)
    ensures t.retired <= OnLogEvent(t, e, valid).retired
    ensures RetiredOk(t) ==> RetiredOk(OnLogEvent(t, e, valid))
  {
    hide ParseLeaseKey;
  }

  /** A key whose lease was taken away no longer needs the entry that is done with it. */
  lemma AdvanceKeeps(t: LeaseTable, st: Store, i: nat)
    requires Inv(t, st) && i < |t.retired| && t.retired[i].done < |t.retired[i].keys|
    requires t.retired[i].id != 0 ==> LeaseOf(st, t.retired[i].keys[t.retired[i].done]) != t.retired[i].id
    ensures Inv(Advance(t, i), st)
  {
    hide IsLeaseKey;
    var r := t.retired[i];
    var t1 := Advance(t, i);
    assert r.keys[r.done..] == [r.keys[r.done]] + r.keys[r.done + 1..];
    forall key | !IsLeaseKey(key) && LeaseOf(st, key) != 0
      ensures Listed(t, key, LeaseOf(st, key)) || AwaitsDeletion(t1, key, LeaseOf(st, key))
    {
      if !Listed(t, key, LeaseOf(st, key)) {
        var j :| 0 <= j < |t.retired| && Awaits(t.retired[j], key, LeaseOf(st, key));
        assert Awaits(t1.retired[j], key, LeaseOf(st, key));
      }
    }
    RetiredChanges(t, t1.retired, st);
  }

  lemma FinishKeeps(t: LeaseTable, st: Store, i: nat, again: seq<Retired>)
    requires Inv(t, st) && i < |t.retired|
    requires again == [] ==> t.retired[i].done == |t.retired[i].keys|
    requires again != [] ==> t.retired[i].done <= |t.retired[i].keys| && again == [t.retired[i].(done := 0)]
    ensures Inv(t.(retired := t.retired[..i] + t.retired[i + 1..] + again), st)
  {
    hide IsLeaseKey;
    var rest := t.retired[..i] + t.retired[i + 1..] + again;
    var t1 := t.(retired := rest);
    forall key | !IsLeaseKey(key) && LeaseOf(st, key) != 0
      ensures Listed(t, key, LeaseOf(st, key)) || AwaitsDeletion(t1, key, LeaseOf(st, key))
    {
      if !Listed(t, key, LeaseOf(st, key)) {
        var id := LeaseOf(st, key);
        var j :| 0 <= j < |t.retired| && Awaits(t.retired[j], key, id);
        var x := if j < i then j else if j > i then j - 1 else |rest| - 1;
        if j == i {
          assert again != [];
          assert again[0].keys[0..] == t.retired[i].keys;
          assert key in t.retired[i].keys;
        }
        assert Awaits(rest[x], key, id);
      }
    }
    RetiredChanges(t, rest, st);
  }

  lemma DeleteNextKeeps(w: World, i: nat)
    requires WorldOk(w) && i < |w.table.retired| && w.table.retired[i].done < |w.table.retired[i].keys|
    ensures var r := w.table.retired[i];
            var w1 := DeleteFor(w, r.keys[r.done], r.id);
            WorldOk(w1.(table := Advance(w1.table, i)))
  {
    hide Inv, OnLogEvent;
    var r := w.table.retired[i];
    var w1 := DeleteFor(w, r.keys[r.done], r.id);
    DeleteForKeeps(w, r.keys[r.done], r.id);
    assert w1.table.retired[i] == r;
    AdvanceKeeps(w1.table, w1.store, i);
    if w1 != w {
      RetiredGrows(w.table, Event(DELETE, KeyValue(r.keys[r.done], [], 0, 0, 0, 0), Some(w.store[r.keys[r.done]])), false);
    }
  }

  lemma NextKeeps(w: World, a: Action, w': World)
    requires WorldOk(w) && Next(w, a, w')
    ensures WorldOk(w')
  {
    hide Inv, OnLogEvent, DeleteFor, Advance;
    match a
    case LogEvent(e, valid) =>
      LogEventKeeps(w.table, e, valid, w.store);
      RetiredGrows(w.table, e, valid);
    case MarkExpiring(id) =>
      ExpiringAside(w.table, w.table.expiring + {id}, w.store);
    case RevokeApplied(id, e) =>
      LogEventKeeps(w.table, e, false, w.store);
      RetiredGrows(w.table, e, false);
    case RevokeNothing(id) =>
      RetireKeeps(w.table, id, w.store);
    case RevokeFailed(id) =>
      ExpiringAside(w.table, w.table.expiring - {id}, w.store);
    case DeleteNext(i) =>
      DeleteNextKeeps(w, i);
    case Finish(i) =>
      FinishKeeps(w.table, w.store, i, []);
      assert w.table.retired[..i] + w.table.retired[i + 1..] + [] == w.table.retired[..i] + w.table.retired[i + 1..];
    case Requeue(i) =>
      FinishKeeps(w.table, w.store, i, [w.table.retired[i].(done := 0)]);
  }

  lemma ExpiringAside(t: LeaseTable, expiring: set<LeaseID>, st: Store)
    requires Inv(t, st)
    ensures Inv(t.(expiring := expiring), st)
  {
    hide IsLeaseKey;
    var t1 := t.(expiring := expiring);
    assert forall key, id :: Listed(t1, key, id) <==> Listed(t, key, id);
    forall key, id | AwaitsDeletion(t, key, id)
      ensures AwaitsDeletion(t1, key, id)
    {
      var i :| 0 <= i < |t.retired| && Awaits(t.retired[i], key, id);
      assert Awaits(t1.retired[i], key, id);
    }
  }

  ghost predicate IsRun(run: seq<World>, actions: seq<Action>) {
    && |run| == |actions| + 1
    && run[0] == World(LeaseTable(map[], {}, []), map[], {})
    && forall i :: 0 <= i < |actions| ==> Next(run[i], actions[i], run[i + 1])
  }

  /**
   No leaked leased key: over every run, a key that hangs on a lease is on that
   lease's list or awaits deletion for it, and no key is on two lists or twice
   on one.
   */
  lemma {:induction false} EveryRunLosesNone(run: seq<World>, actions: seq<Action>, n: nat)
    requires IsRun(run, actions) && n < |run|
    ensures WorldOk(run[n])
  {
    hide Next, WorldOk;
    if n == 0 {
      EmptyWorld();
    } else {
      EveryRunLosesNone(run, actions, n - 1);
      NextKeeps(run[n - 1], actions[n - 1], run[n]);
    }
  }

  lemma EmptyWorld()
    ensures WorldOk(World(LeaseTable(map[], {}, []), map[], {}))
  {
  }

  // ---------------------------------------------------------------------
  // What the lists do not keep

  /** A lease that is marked, though no revoke of it is on its way: no expiry check will pick it again. */
  predicate Stranded(w: World, id: LeaseID) {
    id in w.table.expiring && id !in w.inFlight
  }

  /** The step answers the revoke of the lease: it was recorded, or there was nothing to record. */
  predicate Answers(a: Action, id: LeaseID) {
    (a.RevokeApplied? && a.revoked == id) || (a.RevokeNothing? && a.unrecorded == id)
  }

  /** The event takes the last key off the lease. */
  predicate DetachesLast(t: LeaseTable, e: Event, id: LeaseID) {
    && ParseLeaseKey(e.kv.key).None?
    && e.prevKv.Some? && e.prevKv.value.lease == id != 0 && e.kv.lease != id
    && id in t.lists && Without(t.lists[id], e.kv.key) == []
  }

  /** What an event of the log does to one lease's place in the table and to its mark. */
  lemma LogEventLease(t: LeaseTable, e: Event, valid: bool, id: LeaseID)
    ensures var t1 := OnLogEvent(t, e, valid);
            var revoke := e.typ == DELETE && ParseLeaseKey(e.kv.key) == Some(id);
            && (id in t1.expiring <==> id in t.expiring && !(revoke && id in t.lists))
            && (id in t.lists && id !in t1.lists ==> revoke || DetachesLast(t, e, id))
            && (DetachesLast(t, e, id) ==> id in t.lists && id !in t1.lists && !revoke)
  {
    hide ParseLeaseKey, Without;
  }

  /** The event of a step, if it applies one to the lists. */
  function EventOf(w: World, a: Action): Option<Event> {
    match a
    case LogEvent(e, _) => Some(e)
    case RevokeApplied(_, e) => Some(e)
    case DeleteNext(i) =>
      if i < |w.table.retired| && w.table.retired[i].done < |w.table.retired[i].keys| then
        var r := w.table.retired[i];
        var key := r.keys[r.done];
        if key in w.store && w.store[key].lease == r.id
        then Some(Event(DELETE, KeyValue(key, [], 0, 0, 0, 0), Some(w.store[key]))) else None
      else None
    case _ => None
  }

  /** The step takes the lease out of the table as revoked, with its mark. */
  predicate Revokes(w: World, a: Action, id: LeaseID) {
    && id in w.table.lists
    && (|| (a.RevokeNothing? && a.unrecorded == id)
        || (EventOf(w, a).Some? && EventOf(w, a).value.typ == DELETE && ParseLeaseKey(EventOf(w, a).value.kv.key) == Some(id)))
  }

  /** The step takes the last key off the lease, which so leaves the table. */
  predicate Empties(w: World, a: Action, id: LeaseID) {
    EventOf(w, a).Some? && DetachesLast(w.table, EventOf(w, a).value, id)
  }

  /** What a step does to one lease's place in the table, to its mark and to its revoke. */
  lemma StepLease(w: World, a: Action, w': World, id: LeaseID)
    requires Next(w, a, w')
    ensures id in w'.inFlight && id !in w.inFlight ==> id in w'.table.lists && id in w'.table.expiring && id !in w.table.expiring
    ensures a.MarkExpiring? && a.marked == id ==> id !in w.table.expiring
    ensures id in w.inFlight && id !in w'.inFlight ==> Answers(a, id) || (a.RevokeFailed? && a.failed == id)
    ensures Answers(a, id) || (a.RevokeFailed? && a.failed == id) ==> id in w.inFlight && id !in w'.inFlight
    ensures id in w'.table.expiring && id !in w.table.expiring ==> id in w'.inFlight && id in w'.table.lists
    ensures id in w.table.expiring && id !in w'.table.expiring ==> Revokes(w, a, id) || (a.RevokeFailed? && a.failed == id)
    ensures Revokes(w, a, id) || (a.RevokeFailed? && a.failed == id) ==> id !in w'.table.expiring
    ensures id in w.table.lists && id !in w'.table.lists ==> Revokes(w, a, id) || Empties(w, a, id)
    ensures Empties(w, a, id) ==> id in w.table.lists && id !in w'.table.lists && !Revokes(w, a, id)
  {
    hide OnLogEvent, ParseLeaseKey, DetachesLast;
    if EventOf(w, a).Some? {
      LogEventLease(w.table, EventOf(w, a).value, if a.LogEvent? then a.valid else false, id);
    }
  }

  /** Since the lease was marked it has lost its last key, and has not come back. */
  ghost predicate EmptiedSince(run: seq<World>, actions: seq<Action>, n: nat, id: LeaseID)
    requires |run| == |actions| + 1 && n < |run|
  {
    exists x :: 0 <= x < n && Empties(run[x], actions[x], id) && MarkedFrom(run, x, n, id) && AbsentAfter(run, x, n, id)
  }

  /** The lease was marked, with its revoke on its way, at all these moments. */
  ghost predicate MarkedFrom(run: seq<World>, x: nat, n: nat, id: LeaseID)
    requires x <= n < |run|
  {
    forall y :: x <= y <= n ==> id in run[y].table.expiring && id in run[y].inFlight
  }

  ghost predicate AbsentAfter(run: seq<World>, x: nat, n: nat, id: LeaseID)
    requires x <= n < |run|
  {
    forall y :: x < y <= n ==> id !in run[y].table.lists
  }

  /** A lease whose revoke is on its way is in the table or has been emptied, if it is still marked. */
  lemma {:induction false} FlightIsKnown(run: seq<World>, actions: seq<Action>, n: nat, id: LeaseID)
    requires IsRun(run, actions) && n < |run|
    ensures id in run[n].inFlight && id in run[n].table.expiring && id !in run[n].table.lists <==> EmptiedSince(run, actions, n, id)
  {
    hide Next, Empties, Revokes, Answers;
    if n > 0 {
      var m := n - 1;
      FlightIsKnown(run, actions, m, id);
      assert Next(run[m], actions[m], run[n]);
      StepLease(run[m], actions[m], run[n], id);
      if id in run[n].inFlight && id in run[n].table.expiring && id !in run[n].table.lists {
        if id in run[m].table.lists {
          assert Empties(run[m], actions[m], id) && MarkedFrom(run, m, n, id) && AbsentAfter(run, m, n, id);
        } else {
          var x :| 0 <= x < m && Empties(run[x], actions[x], id) && MarkedFrom(run, x, m, id) && AbsentAfter(run, x, m, id);
          assert MarkedFrom(run, x, n, id) && AbsentAfter(run, x, n, id);
        }
      }
    }
  }

  /**
   A mark comes to outlive its revoke at exactly those steps that answer the
   revoke of a lease which lost its last key since it was marked, and has not
   come back.
   */
  lemma BecomesStranded(run: seq<World>, actions: seq<Action>, n: nat, id: LeaseID)
    requires IsRun(run, actions) && n < |actions|
    ensures !Stranded(run[n], id) && Stranded(run[n + 1], id) <==> Answers(actions[n], id) && EmptiedSince(run, actions, n, id)
  {
    hide Empties, EmptiedSince;
    FlightIsKnown(run, actions, n, id);
    RunNext(run, actions, n);
    StepLease(run[n], actions[n], run[n + 1], id);
    hide Next;
    AnswerRevokes(run[n], actions[n], id);
  }

  lemma RunNext(run: seq<World>, actions: seq<Action>, n: nat)
    requires IsRun(run, actions) && n < |actions|
    ensures Next(run[n], actions[n], run[n + 1])
  {
    hide Next;
  }

  /** An answered revoke takes the lease out of the table if it is there. */
  lemma AnswerRevokes(w: World, a: Action, id: LeaseID)
    requires Answers(a, id) ==> a.RevokeNothing? || (a.record.typ == DELETE && ParseLeaseKey(a.record.kv.key) == Some(id))
    ensures Answers(a, id) && id in w.table.lists ==> Revokes(w, a, id)
  {
    hide ParseLeaseKey;
  }

  /**
   Over every run, a lease is marked with no revoke on its way if and only if
   some answered revoke left it so, and it has not been granted and revoked
   again since.
   */
  lemma {:induction false} MarkOutlives(run: seq<World>, actions: seq<Action>, n: nat, id: LeaseID)
    requires IsRun(run, actions) && n < |run|
    ensures Stranded(run[n], id) <==>
            exists m :: 0 <= m < n && LeftMarked(run, actions, m, n, id)
  {
    hide Next, Revokes, Answers, EmptiedSince;
    if n == 0 {
      NothingMarked(run, actions);
    } else {
      var m := n - 1;
      MarkOutlives(run, actions, m, id);
      RunNext(run, actions, m);
      StepLease(run[m], actions[m], run[n], id);
      BecomesStranded(run, actions, m, id);
      if Stranded(run[m], id) {
        StrandedStays(run, actions, m, id);
      }
      if Stranded(run[n], id) {
        if Stranded(run[m], id) {
          var x :| 0 <= x < m && LeftMarked(run, actions, x, m, id);
          assert LeftMarked(run, actions, x, n, id);
        } else {
          assert LeftMarked(run, actions, m, n, id);
        }
      }
      if x :| 0 <= x < n && LeftMarked(run, actions, x, n, id) {
        if x < m {
          assert LeftMarked(run, actions, x, m, id);
        }
      }
    }
  }

  /** Step `m` answered the revoke of an emptied lease, which has not been revoked since. */
  ghost predicate LeftMarked(run: seq<World>, actions: seq<Action>, m: nat, n: nat, id: LeaseID)
    requires |run| == |actions| + 1 && m < n < |run|
  {
    && Answers(actions[m], id) && EmptiedSince(run, actions, m, id)
    && forall y :: m < y < n ==> !Revokes(run[y], actions[y], id)
  }

  lemma StrandedStays(run: seq<World>, actions: seq<Action>, n: nat, id: LeaseID)
    requires IsRun(run, actions) && n < |actions| && Stranded(run[n], id)
    ensures Stranded(run[n + 1], id) <==> !Revokes(run[n], actions[n], id)
    ensures !(actions[n].MarkExpiring? && actions[n].marked == id)
  {
    hide Next, Revokes;
    RunNext(run, actions, n);
    StepLease(run[n], actions[n], run[n + 1], id);
  }

  lemma NothingMarked(run: seq<World>, actions: seq<Action>)
    requires IsRun(run, actions)
    ensures run[0].table.expiring == {}
  {
  }
  /**
   It may not be: a lease leaves the table when its last key is detached. Its
   mark then stays, and a lease granted again under the same id never expires.
   */
  lemma MarkStays(key: Key, id: LeaseID, value: seq<byte>)
    requires id != 0 && !IsLeaseKey(key)
    ensures var leased := KeyValue(key, value, 1, 1, 1, id);
            var t0 := LeaseTable(map[id := []], {}, []);                                // granted
            var t1 := OnKeyEvent(t0, Event(PUT, leased, None));                         // a key is attached
            var t2 := t1.(expiring := t1.expiring + {id});                              // the lease expires; its revoke is sent
            var t3 := OnKeyEvent(t2, Event(DELETE, KeyValue(key, [], 0, 2, 0, 0), Some(leased)));  // the key is deleted
            var t4 := OnLeaseRecord(t3, id, DELETE, true);                              // the revoke is applied
            var t5 := OnLeaseRecord(t4, id, PUT, true);                                 // the lease is granted again
            && id in t2.lists && id !in t3.lists
            && id in t5.lists && id in t5.expiring
  {
    assert Without([key], key) == [];
  }

  /** The leases an expiry check picks: due, and not marked. */
  function Due(t: LeaseTable, expired: set<LeaseID>): set<LeaseID> {
    set id | id in expired && id in t.lists && id !in t.expiring
  }
}
