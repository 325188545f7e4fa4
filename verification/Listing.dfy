/**
 What a reader of the store has in hand, and range reads over it.
 */
module Listing {
  import opened Bytes
  import opened Records
  import opened KeyIndex

  /** A result, an error for the caller, or the end of the process. */
  datatype Outcome<+T> = Ok(value: T) | Fail | Exit

  /** The store's state as a reader holding its lock sees it. */
  datatype View = View(
    index: Index,
    log: seq<LogRecord>,
    dropped: set<Revision>,  // records that log compaction has removed
    applied: Revision,       // the log is applied to the index up to here
    compacted: Revision,     // history is discarded through here
    leases: set<int>)

  function ReadLog(v: View, r: Revision): Option<LogRecord> {
    if 0 < r <= |v.log| && r !in v.dropped then Some(v.log[r - 1]) else None
  }

  datatype RangeRequest = RangeRequest(
    key: Key,
    rangeEnd: Key,
    revision: Revision,
    limit: int,
    countOnly: bool,
    keysOnly: bool)

  datatype RangeResponse = RangeResponse(count: nat, kvs: seq<KeyValue>, more: bool)

  /** "\x00cloudetcd/", the reserved corner of the keyspace. */
  const INTERNAL_PREFIX: Key := [0, 99, 108, 111, 117, 100, 101, 116, 99, 100, 47]

  predicate IsInternalKey(key: Key) {
    HasPrefix(key, INTERNAL_PREFIX)
  }

  /** "\x00" as a range end means there is none. */
  predicate BeforeEnd(key: Key, rangeEnd: Key) {
    rangeEnd == [0] || Less(key, rangeEnd)
  }

  // ---------------------------------------------------------------------
  // Keys in order

  ghost predicate Sorted(keys: seq<Key>) {
    forall i, j :: 0 <= i < j < |keys| ==> Less(keys[i], keys[j])
  }

  lemma {:induction false} LeastExists(s: set<Key>)
    requires s != {}
    ensures exists k :: k in s && forall x :: x in s ==> AtMost(k, x)
  {
    var a :| a in s;
    if s == {a} {
      assert a in s && forall x :: x in s ==> AtMost(a, x);
    } else {
      var t := s - {a};
      LeastExists(t);
      var b :| b in t && forall x :: x in t ==> AtMost(b, x);
      LessTotal(a, b);
      if Less(a, b) {
        forall x | x in s
          ensures AtMost(a, x)
        {
          if x != a {
            assert AtMost(b, x);
            if b != x {
              LessTransitive(a, b, x);
            }
          }
        }
      } else {
        assert forall x :: x in s ==> AtMost(b, x);
      }
    }
  }

  ghost function Least(s: set<Key>): (k: Key)
    requires s != {}
    ensures k in s && forall x :: x in s ==> AtMost(k, x)
  {
    LeastExists(s);
    var k :| k in s && forall x :: x in s ==> AtMost(k, x);
    k
  }

  /** The keys of a set in ascending order. */
  ghost function InOrder(s: set<Key>): (keys: seq<Key>)
    ensures forall k :: k in keys <==> k in s
    ensures Sorted(keys)
  {
    if s == {} then [] else
      var k := Least(s);
      var rest := InOrder(s - {k});
      assert forall i :: 0 <= i < |rest| ==> rest[i] in rest && Less(k, rest[i]);
      [k] + rest
  }

  lemma FirstIsLeast(keys: seq<Key>, k: Key)
    requires Sorted(keys) && k in keys
    ensures AtMost(keys[0], k)
  {
    var i :| 0 <= i < |keys| && keys[i] == k;
  }

  lemma RestMembers(keys: seq<Key>, k: Key)
    requires Sorted(keys) && keys != []
    ensures k in keys[1..] <==> k in keys && k != keys[0]
  {
    assert keys == [keys[0]] + keys[1..];
    if k in keys[1..] {
      var i :| 0 <= i < |keys| - 1 && keys[1..][i] == k;
      assert keys[i + 1] == k;
      LessIrreflexive(k);
    }
  }

  /** A sorted list is determined by its members. */
  lemma {:induction false} SortedExt(a: seq<Key>, b: seq<Key>)
    requires Sorted(a) && Sorted(b)
    requires forall k :: k in a <==> k in b
    ensures a == b
  {
    assert a != [] ==> a[0] in a;
    assert b != [] ==> b[0] in b;
    if a != [] {
      FirstIsLeast(a, b[0]);
      FirstIsLeast(b, a[0]);
      if a[0] != b[0] {
        LessAsymmetric(a[0], b[0]);
      }
      forall k
        ensures k in a[1..] <==> k in b[1..]
      {
        RestMembers(a, k);
        RestMembers(b, k);
      }
      SortedExt(a[1..], b[1..]);
      assert a == [a[0]] + a[1..] && b == [b[0]] + b[1..];
    }
  }

  /** The keys an ordered walk of the index visits, from `start` on. */
  ghost function Scan(ix: Index, start: Key): seq<Key> {
    InOrder(set k | k in ix && AtMost(start, k))
  }

  // ---------------------------------------------------------------------
  // Range reads

  /** Add the puts of one record to a response, up to the limit; false once it is reached. */
  function Emit(record: LogRecord, r: RangeRequest, acc: RangeResponse): (res: (RangeResponse, bool))
    decreases |record|
  {
    if record == [] then (acc, true)
    else
      var e := record[0];
      var acc1 :=
        if e.typ != PUT then acc
        else if r.countOnly then acc.(count := acc.count + 1)
        else acc.(count := acc.count + 1, kvs := acc.kvs + [if r.keysOnly then e.kv.(value := []) else e.kv]);
      if r.limit > 0 && acc1.count >= r.limit then (acc1.(more := true), false)
      else Emit(record[1..], r, acc1)
  }

  function ListKeys(v: View, keys: seq<Key>, r: RangeRequest, at: Revision, acc: RangeResponse): Outcome<RangeResponse>
    decreases |keys|
  {
    if keys == [] || !BeforeEnd(keys[0], r.rangeEnd) then Ok(acc)
    else if IsInternalKey(keys[0]) then ListKeys(v, keys[1..], r, at, acc)
    else
      match IndexLatest(v.index, keys[0], at)
      case None => ListKeys(v, keys[1..], r, at, acc)
      case Some(rev) =>
        match ReadLog(v, rev)
        case None => Fail
        case Some(record) =>
          var (acc1, go) := Emit(record, r, acc);
          if go then ListKeys(v, keys[1..], r, at, acc1) else Ok(acc1)
  }

  ghost function List(v: View, r: RangeRequest, at: Revision): Outcome<RangeResponse> {
    ListKeys(v, Scan(v.index, r.key), r, at, RangeResponse(0, [], false))
  }
}
