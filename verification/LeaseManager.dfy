/**
 The lease table in place: lease objects in a map, marks for those that are
 being revoked, and a linked queue of the retired ones.
 */
module LeaseManager {
  import opened Bytes
  import opened Records
  import opened Leases

  class Lease {
    const id: LeaseID
    var keys: seq<Key>
    var ttl: int

    constructor (i: LeaseID, t: int)
      ensures id == i && keys == [] && ttl == t
    {
      id, keys, ttl := i, [], t;
    }
  }

  /** A list without a key, at its first occurrence. */
  method RemoveKey(keys: seq<Key>, key: Key) returns (r: seq<Key>)
    ensures r == Without(keys, key)
  {
    for i := 0 to |keys|
      invariant Without(keys, key) == keys[..i] + Without(keys[i..], key)
    {
      if keys[i] == key {
        assert keys[i..][1..] == keys[i + 1..];
        return keys[..i] + keys[i + 1..];
      }
      assert keys[i..][1..] == keys[i + 1..];
      assert keys[..i] + ([keys[i]] + Without(keys[i + 1..], key)) == keys[..i + 1] + Without(keys[i + 1..], key);
    }
    assert keys[|keys|..] == [] && keys[..|keys|] == keys;
    r := keys;
  }

  class QueueItem {
    const value: Lease
    var next: QueueItem?

    constructor (v: Lease)
      ensures value == v && next == null
    {
      value, next := v, null;
    }
  }

  function After(items: seq<QueueItem>, i: nat): QueueItem? {
    if i + 1 < |items| then items[i + 1] else null
  }

  /** A queue of leases, linked from its head to its tail. */
  class Queue {
    var head: QueueItem?
    var tail: QueueItem?
    ghost var items: seq<QueueItem>

    ghost predicate Valid()
      reads this, items
    {
      && (items == [] ==> head == null && tail == null)
      && (items != [] ==> head == items[0] && tail == items[|items| - 1])
      && (forall i, j :: 0 <= i < j < |items| ==> items[i] != items[j])
      && (forall i :: 0 <= i < |items| ==> items[i].next == After(items, i))
    }

    /** What is queued, first in first. */
    ghost function Contents(): (r: seq<Lease>)
      reads this
      ensures |r| == |items| && forall i :: 0 <= i < |r| ==> r[i] == items[i].value
    {
      seq(|items|, i requires 0 <= i < |items| reads this => items[i].value)
    }

    constructor ()
      ensures Valid() && Contents() == [] && items == []
    {
      head, tail, items := null, null, [];
    }

    method Push(value: Lease)
      requires Valid()
      modifies this, items
      ensures Valid() && Contents() == old(Contents()) + [value]
      ensures fresh(set i | i in items && i !in old(items))
    {
      var item := new QueueItem(value);
      if tail != null {
        tail.next := item;
      }
      tail := item;
      if head == null {
        head := item;
      }
      items := items + [item];
    }

    method Pop() returns (value: Option<Lease>)
      requires Valid()
      modifies this
      ensures Valid()
      ensures old(Contents()) == [] ==> value == None && Contents() == []
      ensures old(Contents()) != [] ==> value == Some(old(Contents())[0]) && Contents() == old(Contents())[1..]
    {
      if head == null {
        assert items == [];
        return None;
      }
      value := Some(head.value);
      assert items[0].next == After(items, 0);
      head := head.next;
      assert forall i :: 0 <= i < |items[1..]| ==> items[1..][i] == items[i + 1] && After(items[1..], i) == After(items, i + 1);
      items := items[1..];
      if head == null {
        tail := null;
      }
    }
  }

  /** What came of asking the store to delete a lease's record. */
  datatype Revoked = Failed | NoRecord | Recorded

  /** A failed revoke is tried again; without a record, no event will retire the lease, so it is done here. */
  function AfterRevoke(t: LeaseTable, id: LeaseID, r: Revoked): LeaseTable {
    match r
    case Failed => t.(expiring := t.expiring - {id})
    case NoRecord => Retire(t, id)
    case Recorded => t
  }

  function AfterRevokes(t: LeaseTable, ids: seq<LeaseID>, outcome: LeaseID -> Revoked): LeaseTable {
    if ids == [] then t
    else AfterRevoke(AfterRevokes(t, ids[..|ids| - 1], outcome), ids[|ids| - 1], outcome(ids[|ids| - 1]))
  }

  ghost function ListsOf(leases: map<LeaseID, Lease>): (r: map<LeaseID, seq<Key>>)
    reads leases.Values
    ensures r.Keys == leases.Keys && forall id :: id in leases ==> r[id] == leases[id].keys
  {
    map id | id in leases :: leases[id].keys
  }

  ghost function RetiredOf(q: seq<Lease>): (r: seq<Retired>)
    reads q
    ensures |r| == |q| && forall i :: 0 <= i < |r| ==> r[i] == Retired(q[i].id, q[i].keys, 0)
  {
    if q == [] then [] else RetiredOf(q[..|q| - 1]) + [Retired(q[|q| - 1].id, q[|q| - 1].keys, 0)]
  }

  /** The leases, walked in some order, that are due and not marked; and the marks with them. */
  method CollectDue(order: seq<LeaseID>, due: set<LeaseID>, marks: set<LeaseID>)
    returns (ids: seq<LeaseID>, marked: set<LeaseID>)
    ensures forall id :: id in ids <==> id in order && id in due && id !in marks
    ensures forall id :: id in marked <==> id in marks || id in ids
  {
    ids, marked := [], marks;
    for i := 0 to |order|
      invariant forall id :: id in marked <==> id in marks || id in ids
      invariant forall id :: id in ids <==> id in order[..i] && id in due && id !in marks
    {
      assert order[..i + 1] == order[..i] + [order[i]];
      if order[i] in due && order[i] !in marked {
        marked := marked + {order[i]};
        ids := ids + [order[i]];
      }
    }
    assert order[..|order|] == order;
  }

  class Manager {
    var leases: map<LeaseID, Lease>
    var expiring: set<LeaseID>
    const deleteQueue: Queue

    ghost predicate Valid()
      reads this, leases.Values, deleteQueue, deleteQueue.items
    {
      && deleteQueue.Valid()
      && forall id :: id in leases ==> leases[id].id == id && leases[id] !in deleteQueue.Contents()
    }

    /** The table the fields stand for. */
    ghost function Table(): LeaseTable
      reads this, leases.Values, deleteQueue, deleteQueue.Contents()
    {
      LeaseTable(ListsOf(leases), expiring, RetiredOf(deleteQueue.Contents()))
    }

    constructor ()
      ensures Valid() && Table() == LeaseTable(map[], {}, [])
    {
      leases, expiring := map[], {};
      deleteQueue := new Queue();
    }

    /** Queue a lease that is no longer in the table. */
    method Enqueue(lease: Lease)
      requires Valid() && forall id :: id in leases ==> leases[id] != lease
      modifies deleteQueue, deleteQueue.items
      ensures Valid() && ListsOf(leases) == old(ListsOf(leases))
      ensures RetiredOf(deleteQueue.Contents()) == old(RetiredOf(deleteQueue.Contents())) + [Retired(lease.id, lease.keys, 0)]
      ensures fresh(set i | i in deleteQueue.items && i !in old(deleteQueue.items))
    {
      hide ListsOf, RetiredOf, Queue.Valid, Queue.Contents;
      ghost var q, queued := deleteQueue.Contents(), RetiredOf(deleteQueue.Contents());
      deleteQueue.Push(lease);
      assert RetiredOf(q + [lease]) == queued + [Retired(lease.id, lease.keys, 0)];
    }

    /** Take a lease out of the table. */
    method Drop(id: LeaseID)
      requires Valid() && id in leases
      modifies this`leases
      ensures Valid() && leases == old(leases) - {id} && ListsOf(leases) == old(ListsOf(leases)) - {id}
      ensures forall i :: i in leases ==> leases[i] != old(leases)[id]
      ensures leases.Values <= old(leases.Values)
    {
      hide ListsOf, RetiredOf, Queue.Valid, Queue.Contents;
      ghost var lists := ListsOf(leases);
      assert forall i :: i in leases && i != id ==> leases[i].id == i && leases[i] != leases[id];
      leases := leases - {id};
      assert ListsOf(leases) == lists - {id};
    }

    /** Take a lease out of the table and queue its keys for deletion. */
    method RetireLease(id: LeaseID)
      requires Valid()
      modifies this`leases, this`expiring, deleteQueue, deleteQueue.items
      ensures Valid() && Table() == Retire(old(Table()), id)
      ensures leases.Values <= old(leases.Values) && fresh(set i | i in deleteQueue.items && i !in old(deleteQueue.items))
    {
      hide ListsOf, RetiredOf, Queue.Valid, Queue.Contents;
      if id in leases {
        var lease := leases[id];
        Drop(id);
        expiring := expiring - {id};
        if |lease.keys| > 0 {
          Enqueue(lease);
        }
      }
    }

    /** Apply a lease record: a put is a grant, a delete a revoke or an expiry. */
    method ApplyLeaseRecord(id: LeaseID, typ: EventType, ttl: Option<int>)
      requires Valid()
      modifies this, leases.Values, deleteQueue, deleteQueue.items
      ensures Valid() && Table() == OnLeaseRecord(old(Table()), id, typ, ttl.Some?)
    {
      hide Retire, ListsOf, RetiredOf, Queue.Valid, Queue.Contents;
      ghost var lists, queued := ListsOf(leases), RetiredOf(deleteQueue.Contents());
      match typ {
        case PUT =>
          if ttl.None? {
            return;
          }
          if id !in leases {
            AddLease(id);
          }
          ghost var now := ListsOf(leases);
          leases[id].ttl := ttl.value;
          assert ListsOf(leases) == now && RetiredOf(deleteQueue.Contents()) == queued;
        case DELETE =>
          RetireLease(id);
      }
    }

    /** Change one lease's list; no other lease shares it. */
    method SetKeys(id: LeaseID, keys: seq<Key>)
      requires Valid() && id in leases
      modifies leases[id]
      ensures Valid() && leases[id].ttl == old(leases[id].ttl) && ListsOf(leases) == old(ListsOf(leases))[id := keys]
      ensures RetiredOf(deleteQueue.Contents()) == old(RetiredOf(deleteQueue.Contents()))
    {
      hide ListsOf, RetiredOf, Queue.Valid, Queue.Contents;
      var lease := leases[id];
      assert forall j :: j in leases && j != id ==> leases[j].id == j && leases[j] != lease;
      assert lease !in deleteQueue.Contents();
      ghost var lists, queued := ListsOf(leases), RetiredOf(deleteQueue.Contents());
      lease.keys := keys;
      assert ListsOf(leases) == lists[id := keys];
      assert RetiredOf(deleteQueue.Contents()) == queued;
    }

    /** Put a key on a lease's list. A lease the log has no record of gets a placeholder that expires at once. */
    method AttachKey(key: Key, id: LeaseID)
      requires Valid()
      modifies this`leases, leases.Values
      ensures Valid() && Table() == Attach(old(Table()), key, id)
      ensures fresh(leases.Values - old(leases.Values))
    {
      hide ListsOf, RetiredOf, Queue.Valid, Queue.Contents;
      ghost var lists := ListsOf(leases);
      if id !in leases {
        AddLease(id);
      }
      SetKeys(id, leases[id].keys + [key]);
    }

    method AddLease(id: LeaseID)
      requires Valid() && id !in leases
      modifies this`leases
      ensures Valid() && id in leases && fresh(leases[id]) && leases == old(leases)[id := leases[id]]
      ensures ListsOf(leases) == old(ListsOf(leases))[id := []]
      ensures RetiredOf(deleteQueue.Contents()) == old(RetiredOf(deleteQueue.Contents()))
    {
      hide ListsOf, RetiredOf, Queue.Valid, Queue.Contents;
      ghost var lists := ListsOf(leases);
      var lease := new Lease(id, 0);
      leases := leases[id := lease];
      assert ListsOf(leases) == lists[id := []];
    }

    /** Take a key off a lease's list; a lease with none left leaves the table. */
    method DetachKey(key: Key, id: LeaseID)
      requires Valid()
      modifies this`leases, leases.Values
      ensures Valid() && Table() == Detach(old(Table()), key, id)
    {
      hide ListsOf, RetiredOf, Queue.Valid, Queue.Contents, Without;
      ghost var lists := ListsOf(leases);
      if id in leases {
        var rest := RemoveKey(leases[id].keys, key);
        SetKeys(id, rest);
        if |rest| == 0 {
          Drop(id);
          assert ListsOf(leases) == lists - {id};
        }
      }
    }

    /** An event of the log; `ttl` is what a lease record's value says, if it can be read. */
    method ApplyLogEvent(e: Event, ttl: Option<int>)
      requires Valid()
      modifies this, leases.Values, deleteQueue, deleteQueue.items
      ensures Valid() && Table() == OnLogEvent(old(Table()), e, ttl.Some?)
    {
      hide ListsOf, RetiredOf, Queue.Valid, Queue.Contents, Attach, Detach, OnLeaseRecord, ParseLeaseKey;
      var id := ParseLeaseKey(e.kv.key);
      if id.Some? {
        ApplyLeaseRecord(id.value, e.typ, ttl);
        return;
      }
      var now := e.kv.lease;
      var was := 0;
      if e.prevKv.Some? {
        was := e.prevKv.value.lease;
      }
      if now == 0 && was == 0 {
        return;
      }
      if now != 0 && now != was {
        AttachKey(e.kv.key, now);
      }
      if now != was && was != 0 {
        DetachKey(e.kv.key, was);
      }
    }

    /** Mark the leases that have expired and are not being revoked already. */
    method MarkExpired(order: seq<LeaseID>, expired: set<LeaseID>) returns (ids: seq<LeaseID>)
      requires Valid() && forall id :: id in order <==> id in leases
      modifies this`expiring
      ensures Valid() && forall id :: id in ids <==> id in Due(old(Table()), expired)
      ensures Table() == old(Table()).(expiring := old(expiring) + Due(old(Table()), expired))
    {
      hide ListsOf, RetiredOf, Queue.Valid, Queue.Contents;
      ghost var due, marks := Due(Table(), expired), expiring;
      ids, expiring := CollectDue(order, expired, expiring);
      assert forall id :: id in due <==> id in ids;
      assert forall id :: id in expiring <==> id in marks || id in due;
      assert expiring == marks + due;
    }

    /**
     Revoke the leases that have expired and are not being revoked already.
     `order` is how the table is walked, `outcome` what the store answers for each.
     */
    method CheckExpiredOnce(order: seq<LeaseID>, expired: set<LeaseID>, outcome: LeaseID -> Revoked)
      returns (ids: seq<LeaseID>)
      requires Valid() && forall id :: id in order <==> id in leases
      modifies this`leases, this`expiring, deleteQueue, deleteQueue.items
      ensures Valid()
      ensures forall id :: id in ids <==> id in Due(old(Table()), expired)
      ensures Table() == AfterRevokes(old(Table()).(expiring := old(expiring) + Due(old(Table()), expired)), ids, outcome)
    {
      hide ListsOf, RetiredOf, Queue.Valid, Queue.Contents, Retire, Due;
      ids := MarkExpired(order, expired);
      ghost var t1 := Table();
      assert ids[..0] == [];
      for i := 0 to |ids|
        invariant Valid() && Table() == AfterRevokes(t1, ids[..i], outcome)
        invariant fresh(set x | x in deleteQueue.items && x !in old(deleteQueue.items))
      {
        assert ids[..i + 1][..i] == ids[..i];
        match outcome(ids[i]) {
          case Failed => expiring := expiring - {ids[i]};
          case NoRecord => RetireLease(ids[i]);
          case Recorded =>
        }
      }
      assert ids[..|ids|] == ids;
    }
  }
}
