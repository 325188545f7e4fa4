/**
 The byte-budgeted LRU cache of decoded records: a recency list and a map into
 it, kept together with a running byte count.
 */
module RecordCache {
  import opened Bytes
  import opened Records
  import opened LogCodec

  datatype Item = Item(revision: Revision, record: WireRecord, size: nat)

  function KvSize(kv: Option<KeyValue>): nat {
    if kv.None? then 0 else |kv.value.key| + |kv.value.value|
  }

  /** The estimated memory of a record: keys and values plus a fixed overhead per event. */
  function Size(record: WireRecord): nat {
    if record == [] then 64
    else 160 + KvSize(record[0].kv) + KvSize(record[0].prevKv) + Size(record[1..])
  }

  function Total(order: seq<Item>): nat {
    if order == [] then 0 else Total(order[..|order| - 1]) + order[|order| - 1].size
  }

  ghost predicate Distinct(order: seq<Item>) {
    forall i, j :: 0 <= i < j < |order| ==> order[i].revision != order[j].revision
  }

  function Position(order: seq<Item>, revision: Revision): (i: nat)
    ensures i <= |order|
    ensures i < |order| ==> order[i].revision == revision
    ensures i == |order| ==> forall j :: 0 <= j < |order| ==> order[j].revision != revision
  {
    if order == [] then 0
    else if order[0].revision == revision then 0
    else 1 + Position(order[1..], revision)
  }

  predicate Has(order: seq<Item>, revision: Revision) {
    Position(order, revision) < |order|
  }

  /** The list without the element at `i`. */
  function Without(order: seq<Item>, i: nat): seq<Item>
    requires i < |order|
  {
    order[..i] + order[i + 1..]
  }

  /** Drop from the back while over budget, but never the last one. */
  function Trim(order: seq<Item>, budget: int): seq<Item> {
    if budget > 0 && Total(order) > budget && |order| > 1 then Trim(order[..|order| - 1], budget) else order
  }

  /** The recency list after `Put`: the record in front, the least recently used dropped to fit. */
  function AfterPut(order: seq<Item>, revision: Revision, record: WireRecord, budget: int): seq<Item> {
    var it := Item(revision, record, Size(record));
    if Has(order, revision) then Trim([it] + Without(order, Position(order, revision)), budget)
    else if budget > 0 && Size(record) > budget then order
    else Trim([it] + order, budget)
  }

  /** The recency list after `Get`. */
  function AfterGet(order: seq<Item>, revision: Revision): seq<Item> {
    if Has(order, revision)
    then [order[Position(order, revision)]] + Without(order, Position(order, revision))
    else order
  }

  lemma {:induction false} TotalConcat(a: seq<Item>, b: seq<Item>)
    ensures Total(a + b) == Total(a) + Total(b)
    decreases |b|
  {
    if b == [] {
      assert a + b == a;
    } else {
      var n := |b| - 1;
      assert (a + b)[..|a + b| - 1] == a + b[..n];
      TotalConcat(a, b[..n]);
    }
  }

  lemma TotalWithout(order: seq<Item>, i: nat)
    requires i < |order|
    ensures Total(order) == Total(Without(order, i)) + order[i].size
  {
    hide Total;
    var front, back := order[..i], order[i + 1..];
    assert order == front + [order[i]] + back;
    TotalConcat(front + [order[i]], back);
    TotalConcat(front, [order[i]]);
    TotalConcat(front, back);
    TotalOne(order[i]);
  }

  lemma TotalOne(it: Item)
    ensures Total([it]) == it.size
  {
    assert [it][..0] == [];
  }

  /**
   Eviction keeps the longest run of most recently used records that fits the
   budget, but always at least one.
   */
  lemma {:induction false} TrimIsLongestFit(order: seq<Item>, budget: int)
    ensures var t := Trim(order, budget);
            && t <= order
            && (order != [] ==> t != [])
            && (budget > 0 && Total(t) > budget ==> |t| <= 1)
            && (forall n :: |t| < n <= |order| ==> budget > 0 && Total(order[..n]) > budget)
    decreases |order|
  {
    var t := Trim(order, budget);
    if budget > 0 && Total(order) > budget && |order| > 1 {
      var front := order[..|order| - 1];
      TrimIsLongestFit(front, budget);
      forall n | |t| < n <= |order|
        ensures Total(order[..n]) > budget
      {
        if n < |order| {
          assert order[..n] == front[..n];
        } else {
          assert order[..n] == order;
        }
      }
    }
  }

  /**
   When a `Put` leaves the cache over its budget: exactly when it replaces a
   cached record by one that is larger than the whole budget, or when it
   changes nothing in a cache that already was.
   */
  lemma OverBudgetIsExact(order: seq<Item>, revision: Revision, record: WireRecord, budget: int)
    requires budget > 0
    ensures Total(AfterPut(order, revision, record, budget)) > budget
            <==> Size(record) > budget && (Has(order, revision) || Total(order) > budget)
  {
    var it := Item(revision, record, Size(record));
    var rest := if Has(order, revision) then Without(order, Position(order, revision)) else order;
    var full := [it] + rest;
    TrimIsLongestFit(full, budget);
    TotalOne(it);
    var t := Trim(full, budget);
    assert |t| == 1 ==> t == [full[0]];
    if Size(record) > budget {
      assert t == full[..|t|];
      TotalOfPrefix(full, |t|);
    }
  }

  lemma TotalOfPrefix(order: seq<Item>, n: nat)
    requires 0 < n <= |order|
    ensures Total(order[..n]) >= order[0].size
  {
    assert order[..n] == [order[0]] + order[1..n];
    TotalConcat([order[0]], order[1..n]);
    TotalOne(order[0]);
  }

  /** A record larger than the budget replacing a small one stays, although the cache is over budget. */
  lemma OversizedReplacementStays(revision: Revision, small: WireRecord, large: WireRecord)
    requires Size(small) < Size(large)
    ensures var budget := Size(small);
            var one := AfterPut([], revision, small, budget);
            Total(AfterPut(one, revision, large, budget)) > budget
  {
    var budget := Size(small);
    var it := Item(revision, small, budget);
    TotalOne(it);
    assert [it] + [] == [it];
    assert Trim([it], budget) == [it];
    var one := AfterPut([], revision, small, budget);
    assert one == [it] && Has(one, revision);
    OverBudgetIsExact(one, revision, large, budget);
  }

  /** The map leads to exactly the elements of the list. */
  ghost predicate Indexed(order: seq<Item>, items: map<Revision, Item>) {
    && (forall i :: 0 <= i < |order| ==> order[i].revision in items && items[order[i].revision] == order[i])
    && (forall r :: r in items ==> exists i :: 0 <= i < |order| && order[i].revision == r)
  }

  lemma IndexedHas(order: seq<Item>, items: map<Revision, Item>, revision: Revision)
    requires Indexed(order, items)
    ensures revision in items <==> Has(order, revision)
    ensures revision in items ==> items[revision] == order[Position(order, revision)]
  {
  }

  lemma IndexedWithout(order: seq<Item>, items: map<Revision, Item>, i: nat)
    requires Distinct(order) && Indexed(order, items) && i < |order|
    ensures Distinct(Without(order, i)) && Indexed(Without(order, i), items - {order[i].revision})
  {
    var now := Without(order, i);
    forall j | 0 <= j < |now|
      ensures now[j] == order[if j < i then j else j + 1]
    {
    }
    forall r | r in items && r != order[i].revision
      ensures exists j :: 0 <= j < |now| && now[j].revision == r
    {
      var j :| 0 <= j < |order| && order[j].revision == r;
      assert now[if j < i then j else j - 1].revision == r;
    }
  }

  lemma IndexedPush(order: seq<Item>, items: map<Revision, Item>, it: Item)
    requires Distinct(order) && Indexed(order, items) && it.revision !in items
    ensures Distinct([it] + order) && Indexed([it] + order, items[it.revision := it])
  {
    var now := [it] + order;
    assert forall j :: 0 < j < |now| ==> now[j] == order[j - 1];
    forall r | r in items
      ensures exists j :: 0 <= j < |now| && now[j].revision == r
    {
      var j :| 0 <= j < |order| && order[j].revision == r;
      assert now[j + 1].revision == r;
    }
    assert now[0].revision == it.revision;
  }

  lemma WithoutLast(order: seq<Item>)
    requires order != []
    ensures Without(order, |order| - 1) == order[..|order| - 1]
  {
  }

  class Cache {
    const budget: int
    var used: int
    var order: seq<Item>             // most recently used first
    var items: map<Revision, Item>

    ghost predicate Valid()
      reads this
    {
      && Distinct(order)
      && used == Total(order)
      && Indexed(order, items)
    }

    constructor (budgetBytes: int)
      ensures Valid() && order == [] && budget == budgetBytes
    {
      budget, used, order, items := budgetBytes, 0, [], map[];
    }

    /** The record for `revision`, marking it recently used. */
    method Get(revision: Revision) returns (r: Option<WireRecord>)
      requires Valid()
      modifies this
      ensures Valid() && order == AfterGet(old(order), revision)
      ensures r == if Has(old(order), revision) then Some(old(order)[Position(old(order), revision)].record) else None
    {
      hide Indexed, Distinct, Total, Without;
      IndexedHas(order, items, revision);
      if revision !in items {
        return None;
      }
      r := Some(items[revision].record);
      MoveToFront(revision, items[revision]);
    }

    /** Put `it`, which replaces the cached record of its revision, in front. */
    method MoveToFront(revision: Revision, it: Item)
      requires Valid() && Has(order, revision) && it.revision == revision
      modifies this
      ensures Valid()
      ensures order == [it] + Without(old(order), Position(old(order), revision))
    {
      hide Indexed, Distinct, Total, Without, Has;
      Remove(revision);
      PushFront(it);
    }

    /** Cache a record, evicting the least recently used to stay within budget. */
    method Put(revision: Revision, record: WireRecord)
      requires Valid()
      modifies this
      ensures Valid() && order == AfterPut(old(order), revision, record, budget)
    {
      hide Indexed, Distinct, Size, Without, Total;
      var size := Size(record);
      var it := Item(revision, record, size);
      IndexedHas(order, items, revision);
      if revision in items {
        MoveToFront(revision, it);
      } else {
        if budget > 0 && size > budget {
          return;
        }
        PushFront(it);
      }
      ghost var full := order;
      while budget > 0 && used > budget && |order| > 1
        invariant Valid()
        invariant Trim(full, budget) == Trim(order, budget)
        decreases |order|
      {
        EvictOldest();
      }
    }

    method PushFront(it: Item)
      requires Valid() && it.revision !in items
      modifies this
      ensures Valid() && order == [it] + old(order)
    {
      hide Indexed, Distinct, Total;
      TotalConcat([it], order);
      TotalOne(it);
      IndexedPush(order, items, it);
      order := [it] + order;
      items := items[it.revision := it];
      used := used + it.size;
    }

    method EvictOldest()
      requires Valid() && |order| > 0
      modifies this
      ensures Valid() && order == old(order)[..|old(order)| - 1]
    {
      hide Indexed, Distinct, Total, Without;
      TotalWithout(order, |order| - 1);
      IndexedWithout(order, items, |order| - 1);
      WithoutLast(order);
      var it := order[|order| - 1];
      order := order[..|order| - 1];
      items := items - {it.revision};
      used := used - it.size;
    }

    /** Drop the record for `revision`, if cached. */
    method Remove(revision: Revision)
      requires Valid()
      modifies this
      ensures Valid() && revision !in items
      ensures order == if Has(old(order), revision) then Without(old(order), Position(old(order), revision)) else old(order)
    {
      hide Indexed, Distinct, Total, Without;
      IndexedHas(order, items, revision);
      if revision in items {
        var i := Position(order, revision);
        TotalWithout(order, i);
        IndexedWithout(order, items, i);
        used := used - items[revision].size;
        order := Without(order, i);
        items := items - {revision};
      }
    }
  }
}
