/**
 Range reads page by page: what a range read returns, when it is exactly the
 live keys of the range, and that a client following the last key of each page
 gets all of them.
 */
module Paging {
  import opened Bytes
  import opened Records
  import opened KeyIndex
  import opened Listing
  import opened Mvcc
  import opened System

  // ---------------------------------------------------------------------
  // The range of a prefix

  /** The least key above every key with the prefix; "\x00", which means none, if there is no such key. */
  function PrefixEnd(p: Key): Key {
    if p == [] then [0]
    else
      var n := |p| - 1;
      if p[n] < 255 then p[..n] + [p[n] + 1] else PrefixEnd(p[..n])
  }

  method PrefixEndOf(p: Key) returns (end: Key)
    ensures end == PrefixEnd(p)
  {
    var b := new byte[|p|](i requires 0 <= i < |p| => p[i]);
    assert b[..] == p && p[..|p|] == p;
    var i := |p| - 1;
    while i >= 0
      invariant -1 <= i < |p|
      invariant b[..] == p
      invariant PrefixEnd(p) == PrefixEnd(p[..i + 1])
    {
      assert p[..i + 1][..i] == p[..i];
      if b[i] < 0xff {
        b[i] := b[i] + 1;
        return b[..i + 1];
      }
      i := i - 1;
    }
    end := [0];
  }

  /** Between a key and the same key with its last byte one higher are its extensions. */
  lemma {:induction false} Extensions(q: Key, c: byte, k: Key)
    requires c < 255
    ensures HasPrefix(k, q + [c]) <==> AtMost(q + [c], k) && Less(k, q + [c + 1])
  {
    if q == [] {
      assert q + [c] == [c] && q + [c + 1] == [c + 1];
      if |k| > 0 {
        var one, next := [c], [c + 1];
        assert one[1..] == [] && next[1..] == [];
        assert k[..1] == [k[0]];
        assert k == [k[0]] + k[1..];
        assert Less([], k[1..]) <==> k[1..] != [];
        assert Less(one, k) <==> c < k[0] || (c == k[0] && Less(one[1..], k[1..]));
        assert Less(k, next) <==> k[0] < c + 1;
      }
    } else {
      assert (q + [c])[1..] == q[1..] + [c] && (q + [c + 1])[1..] == q[1..] + [c + 1];
      if |k| > 0 && k[0] == q[0] {
        Extensions(q[1..], c, k[1..]);
        assert k == [k[0]] + k[1..] && q + [c] == [q[0]] + (q[1..] + [c]);
        var n := |q| + 1;
        assert n <= |k| ==> (k[..n] == [k[0]] + k[1..][..n - 1]);
      } else if |k| >= |q| + 1 {
        assert k[..|q| + 1][0] == k[0];
      }
    }
  }

  /** Of the extensions of `q`, those at or above `q` + 0xff are the extensions of that. */
  lemma TopExtensions(q: Key, k: Key)
    requires HasPrefix(k, q)
    ensures HasPrefix(k, q + [255]) <==> AtMost(q + [255], k)
  {
    var s := k[|q|..];
    assert k == q + s;
    LessCancel(q, [255], s);
    assert q + [255] == q + s <==> [255] == s by {
      assert (q + [255])[|q|..] == [255] && (q + s)[|q|..] == s;
    }
    if |s| > 0 {
      assert s == [s[0]] + s[1..];
      assert k[..|q| + 1] == q + [s[0]];
      assert [255 as byte][1..] == [];
    }
  }

  /** The keys with a prefix are those from it to its end. */
  lemma {:induction false} PrefixRange(p: Key, k: Key)
    ensures HasPrefix(k, p) <==> AtMost(p, k) && BeforeEnd(k, PrefixEnd(p))
    decreases |p|
  {
    if p != [] {
      var n := |p| - 1;
      var q := p[..n];
      assert p == q + [p[n]];
      if p[n] < 255 {
        Extensions(q, p[n], k);
        assert q + [p[n] + 1] != [0];
      } else {
        PrefixRange(q, k);
        LessByExtension(q, [p[n]]);
        if AtMost(p, k) {
          if p != k {
            LessTransitive(q, p, k);
          }
          assert AtMost(q, k);
        }
        if HasPrefix(k, q) {
          TopExtensions(q, k);
        }
        if HasPrefix(k, p) {
          assert k[..|q|] == k[..|p|][..|q|];
        }
      }
    }
  }

  // ---------------------------------------------------------------------
  // What a range read returns

  function Puts(record: LogRecord): seq<KeyValue> {
    if record == [] then [] else (if record[0].typ == PUT then [record[0].kv] else []) + Puts(record[1..])
  }

  /** Values in the form the request asks for. */
  function Shown(r: RangeRequest, kvs: seq<KeyValue>): (res: seq<KeyValue>)
    ensures |res| == if r.countOnly then 0 else |kvs|
    ensures !r.countOnly ==> forall i :: 0 <= i < |kvs| ==> res[i] == if r.keysOnly then kvs[i].(value := []) else kvs[i]
  {
    if r.countOnly then []
    else seq(|kvs|, i requires 0 <= i < |kvs| => if r.keysOnly then kvs[i].(value := []) else kvs[i])
  }

  /** A response with more values, up to the limit. */
  function Grown(r: RangeRequest, acc: RangeResponse, kvs: seq<KeyValue>): (RangeResponse, bool)
    requires r.limit <= 0 || acc.count < r.limit
  {
    var room := r.limit - acc.count;
    if r.limit > 0 && |kvs| >= room
    then (acc.(count := acc.count + room, kvs := acc.kvs + Shown(r, kvs[..room]), more := true), false)
    else (acc.(count := acc.count + |kvs|, kvs := acc.kvs + Shown(r, kvs)), true)
  }

  lemma ShownConcat(r: RangeRequest, a: seq<KeyValue>, b: seq<KeyValue>)
    ensures Shown(r, a + b) == Shown(r, a) + Shown(r, b)
  {
  }

  lemma GrownConcat(r: RangeRequest, acc: RangeResponse, a: seq<KeyValue>, b: seq<KeyValue>)
    requires r.limit <= 0 || acc.count < r.limit
    ensures var (acc1, go) := Grown(r, acc, a);
            && (go ==> r.limit <= 0 || acc1.count < r.limit)
            && Grown(r, acc, a + b) == if go then Grown(r, acc1, b) else (acc1, false)
  {
    hide Shown;
    var room := r.limit - acc.count;
    if r.limit > 0 && |a| >= room {
      assert (a + b)[..room] == a[..room];
    } else {
      ShownConcat(r, a, b);
      Joins(acc.kvs, Shown(r, a), Shown(r, b));
      if r.limit > 0 && |a + b| >= room {
        assert (a + b)[..room] == a + b[..room - |a|];
        ShownConcat(r, a, b[..room - |a|]);
        Joins(acc.kvs, Shown(r, a), Shown(r, b[..room - |a|]));
      }
    }
  }

  lemma Joins(a: seq<KeyValue>, b: seq<KeyValue>, c: seq<KeyValue>)
    ensures a + (b + c) == (a + b) + c
  {
  }

  /** A record adds its puts. */
  lemma {:induction false} EmitIs(record: LogRecord, r: RangeRequest, acc: RangeResponse)
    requires r.limit <= 0 || acc.count < r.limit
    ensures Emit(record, r, acc) == Grown(r, acc, Puts(record))
    decreases |record|
  {
    hide Grown;
    if record == [] {
      GrownNone(r, acc);
    } else {
      var first := if record[0].typ == PUT then [record[0].kv] else [];
      GrownConcat(r, acc, first, Puts(record[1..]));
      GrownOne(r, acc, record[0]);
      if Grown(r, acc, first).1 {
        EmitIs(record[1..], r, Grown(r, acc, first).0);
      }
    }
  }

  lemma GrownNone(r: RangeRequest, acc: RangeResponse)
    requires r.limit <= 0 || acc.count < r.limit
    ensures Grown(r, acc, []) == (acc, true)
  {
    assert acc.kvs + Shown(r, []) == acc.kvs;
  }

  lemma GrownOne(r: RangeRequest, acc: RangeResponse, e: Event)
    requires r.limit <= 0 || acc.count < r.limit
    ensures var first := if e.typ == PUT then [e.kv] else [];
            var acc1 :=
              if e.typ != PUT then acc
              else if r.countOnly then acc.(count := acc.count + 1)
              else acc.(count := acc.count + 1, kvs := acc.kvs + [if r.keysOnly then e.kv.(value := []) else e.kv]);
            Grown(r, acc, first) == if r.limit > 0 && acc1.count >= r.limit then (acc1.(more := true), false) else (acc1, true)
  {
    var first := if e.typ == PUT then [e.kv] else [];
    if e.typ == PUT {
      assert first[..1] == first;
      assert Shown(r, first) == if r.countOnly then [] else [if r.keysOnly then e.kv.(value := []) else e.kv];
    }
    assert acc.kvs + [] == acc.kvs;
    GrownNone(r, acc);
  }

  /** The record a lookup of a key leads to. */
  function RecordAt(v: View, key: Key, at: Revision): LogRecord {
    match IndexLatest(v.index, key, at)
    case None => []
    case Some(rev) => if ReadLog(v, rev).Some? then ReadLog(v, rev).value else []
  }

  predicate Readable(v: View, key: Key, at: Revision) {
    IndexLatest(v.index, key, at).Some? ==> ReadLog(v, IndexLatest(v.index, key, at).value).Some?
  }

  /** The puts of the records that the keys of the range lead to. */
  function Emitted(v: View, keys: seq<Key>, rangeEnd: Key, at: Revision): seq<KeyValue>
    decreases |keys|
  {
    if keys == [] || !BeforeEnd(keys[0], rangeEnd) then []
    else (if IsInternalKey(keys[0]) then [] else Puts(RecordAt(v, keys[0], at))) + Emitted(v, keys[1..], rangeEnd, at)
  }

  /** A range read returns them in order, up to the limit. */
  lemma {:induction false} ListKeysIs(v: View, keys: seq<Key>, r: RangeRequest, at: Revision, acc: RangeResponse)
    requires r.limit <= 0 || acc.count < r.limit
    requires forall i :: 0 <= i < |keys| ==> Readable(v, keys[i], at)
    ensures ListKeys(v, keys, r, at, acc) == Ok(Grown(r, acc, Emitted(v, keys, r.rangeEnd, at)).0)
    decreases |keys|
  {
    hide Grown, Emit, BeforeEnd, IsInternalKey, LatestAt;
    if keys == [] || !BeforeEnd(keys[0], r.rangeEnd) {
      GrownNone(r, acc);
    } else {
      assert Readable(v, keys[0], at);
      var puts := if IsInternalKey(keys[0]) then [] else Puts(RecordAt(v, keys[0], at));
      GrownConcat(r, acc, puts, Emitted(v, keys[1..], r.rangeEnd, at));
      GrownNone(r, acc);
      EmitIs(RecordAt(v, keys[0], at), r, acc);
      if Grown(r, acc, puts).1 {
        ListKeysIs(v, keys[1..], r, at, Grown(r, acc, puts).0);
      }
    }
  }

  // ---------------------------------------------------------------------
  // When that is the live keys of the range

  /** The live keys of a range that clients may see, in order. */
  ghost function KeysFrom(st: Store, start: Key, rangeEnd: Key): seq<Key> {
    InOrder(set k | k in st && AtMost(start, k) && BeforeEnd(k, rangeEnd) && !IsInternalKey(k))
  }

  function Values(st: Store, keys: seq<Key>): (kvs: seq<KeyValue>)
    requires forall k :: k in keys ==> k in st
    ensures |kvs| == |keys| && forall i :: 0 <= i < |kvs| ==> kvs[i] == st[keys[i]]
  {
    seq(|keys|, i requires 0 <= i < |keys| => st[keys[i]])
  }

  /** What a range read should return: the live values of the range, in key order. */
  ghost function Answer(st: Store, start: Key, rangeEnd: Key): seq<KeyValue> {
    Values(st, KeysFrom(st, start, rangeEnd))
  }

  /** Lookups at `at` in this view see the store `st`. */
  ghost predicate Sees(v: View, at: Revision, st: Store) {
    forall k: Key :: SeesKey(v, at, st, k)
  }

  ghost predicate SeesKey(v: View, at: Revision, st: Store, k: Key) {
    var o := Observe(v, k, at);
    (o.Absent? || o.Found?) && Visible(o) == Lookup(st, k)
  }

  /** In a proper state, at a revision between the compaction point and what is applied, they see the history. */
  lemma ViewSees(v: View, at: Revision)
    requires ViewOk(v) && v.compacted <= at <= v.applied
    ensures Sees(v, at, StateAt(v.log, at))
  {
    hide Observe, StateAt, IndexOk, LogOk, System.Joined;
    ViewHistory(v, at, v.log);
    forall k: Key
      ensures SeesKey(v, at, StateAt(v.log, at), k)
    {
      LookupIsWhole(v, k, at);
    }
  }

  /** A record that puts some key besides this one. */
  ghost predicate PutsOthers(record: LogRecord, key: Key) {
    exists i :: 0 <= i < |record| && record[i].typ == PUT && record[i].kv.key != key
  }

  /** The value a lookup finds, as a list. */
  function Own(st: Store, key: Key): seq<KeyValue> {
    if key in st then [st[key]] else []
  }

  /** A record's puts are the key's own value, if there is one, and nothing else unless it puts other keys. */
  lemma {:induction false} PutsAre(record: LogRecord, key: Key)
    requires WritesOnce(record)
    ensures var own := if FindEvent(record, key).Some? && FindEvent(record, key).value.typ == PUT then [FindEvent(record,
        key).value.kv] else [];
            && |own| <= |Puts(record)|
            && (PutsOthers(record, key) ==> |own| < |Puts(record)|)
            && (!PutsOthers(record, key) ==> Puts(record) == own)
    decreases |record|
  {
    if record != [] {
      var rest := record[1..];
      PutsAre(rest, key);
      assert PutsOthers(rest, key) ==> PutsOthers(record, key) by {
        if i :| 0 <= i < |rest| && rest[i].typ == PUT && rest[i].kv.key != key {
          assert record[i + 1].typ == PUT && record[i + 1].kv.key != key;
        }
      }
      if PutsOthers(record, key) && !(record[0].typ == PUT && record[0].kv.key != key) {
        var i :| 0 <= i < |record| && record[i].typ == PUT && record[i].kv.key != key;
        assert rest[i - 1] == record[i];
        assert PutsOthers(rest, key);
      }
      if record[0].kv.key == key {
        assert FindEvent(rest, key).None? by {
          forall e | e in rest
            ensures e.kv.key != key
          {
            var i :| 0 <= i < |rest| && rest[i] == e;
            assert record[i + 1] == e;
          }
        }
      }
      if record[0].typ == PUT && record[0].kv.key != key {
        assert PutsOthers(record, key);
      }
    }
  }

  /** The keys a read passes: those of the walk before the end, but not the internal ones. */
  function Passed(keys: seq<Key>, rangeEnd: Key): seq<Key>
    decreases |keys|
  {
    if keys == [] || !BeforeEnd(keys[0], rangeEnd) then []
    else (if IsInternalKey(keys[0]) then [] else [keys[0]]) + Passed(keys[1..], rangeEnd)
  }

  /** The live values of the keys passed. */
  function Owned(st: Store, keys: seq<Key>): seq<KeyValue> {
    if keys == [] then [] else Own(st, keys[0]) + Owned(st, keys[1..])
  }

  function PutsAlong(v: View, keys: seq<Key>, at: Revision): seq<KeyValue> {
    if keys == [] then [] else Puts(RecordAt(v, keys[0], at)) + PutsAlong(v, keys[1..], at)
  }

  lemma {:induction false} EmittedIs(v: View, keys: seq<Key>, rangeEnd: Key, at: Revision)
    ensures Emitted(v, keys, rangeEnd, at) == PutsAlong(v, Passed(keys, rangeEnd), at)
    decreases |keys|
  {
    hide BeforeEnd, IsInternalKey, Puts, RecordAt;
    if keys != [] && BeforeEnd(keys[0], rangeEnd) {
      EmittedIs(v, keys[1..], rangeEnd, at);
      if !IsInternalKey(keys[0]) {
        var p := Passed(keys, rangeEnd);
        assert p[0] == keys[0] && p[1..] == Passed(keys[1..], rangeEnd);
      } else {
        assert Passed(keys, rangeEnd) == Passed(keys[1..], rangeEnd);
        assert Emitted(v, keys, rangeEnd, at) == Emitted(v, keys[1..], rangeEnd, at);
      }
    }
  }

  /** A record reached by a key of the range puts another key. */
  ghost predicate SomeExtra(v: View, keys: seq<Key>, at: Revision) {
    exists i :: 0 <= i < |keys| && PutsOthers(RecordAt(v, keys[i], at), keys[i])
  }

  /** The record reached by one key. */
  lemma RecordPuts(v: View, k: Key, at: Revision, st: Store)
    requires SeesKey(v, at, st, k) && LogOk(v.log)
    ensures Readable(v, k, at)
    ensures |Own(st, k)| <= |Puts(RecordAt(v, k, at))|
    ensures PutsOthers(RecordAt(v, k, at), k) ==> |Own(st, k)| < |Puts(RecordAt(v, k, at))|
    ensures !PutsOthers(RecordAt(v, k, at), k) ==> Puts(RecordAt(v, k, at)) == Own(st, k)
  {
    hide LatestAt, Puts, PutsOthers;
    var record := RecordAt(v, k, at);
    var latest := IndexLatest(v.index, k, at);
    if latest.Some? {
      assert RecordOk(v.log[latest.value - 1], (latest.value - 1) + 1);
      assert record == v.log[latest.value - 1];
    } else {
      assert record == [];
    }
    PutsAre(record, k);
  }

  /** Along the keys: at least the live values, and just those exactly when no record puts another key. */
  lemma {:induction false} PutsAreOwned(v: View, keys: seq<Key>, at: Revision, st: Store)
    requires Sees(v, at, st) && LogOk(v.log)
    ensures |Owned(st, keys)| <= |PutsAlong(v, keys, at)|
    ensures SomeExtra(v, keys, at) ==> |Owned(st, keys)| < |PutsAlong(v, keys, at)|
    ensures !SomeExtra(v, keys, at) ==> PutsAlong(v, keys, at) == Owned(st, keys)
    decreases |keys|
  {
    hide Sees, Puts, PutsOthers, RecordAt, Own;
    if keys != [] {
      var rest := keys[1..];
      PutsAreOwned(v, rest, at, st);
      assert SeesKey(v, at, st, keys[0]) by { SeesOne(v, at, st, keys[0]); }
      RecordPuts(v, keys[0], at, st);
      ExtraSplits(v, keys, at);
    }
  }

  lemma SeesOne(v: View, at: Revision, st: Store, k: Key)
    requires Sees(v, at, st)
    ensures SeesKey(v, at, st, k)
  {
  }

  lemma ExtraSplits(v: View, keys: seq<Key>, at: Revision)
    requires keys != []
    ensures SomeExtra(v, keys, at) <==> PutsOthers(RecordAt(v, keys[0], at), keys[0]) || SomeExtra(v, keys[1..], at)
  {
    hide PutsOthers, RecordAt;
    var rest := keys[1..];
    if SomeExtra(v, rest, at) {
      var i :| 0 <= i < |rest| && PutsOthers(RecordAt(v, rest[i], at), rest[i]);
      assert keys[i + 1] == rest[i];
    }
    if SomeExtra(v, keys, at) && !PutsOthers(RecordAt(v, keys[0], at), keys[0]) {
      var i :| 0 <= i < |keys| && PutsOthers(RecordAt(v, keys[i], at), keys[i]);
      assert rest[i - 1] == keys[i];
    }
  }

  // ---------------------------------------------------------------------
  // The answer

  /** Once a key is past the end, so are all greater ones. */
  lemma EndStays(a: Key, b: Key, rangeEnd: Key)
    requires Less(a, b) && BeforeEnd(b, rangeEnd)
    ensures BeforeEnd(a, rangeEnd)
  {
    if rangeEnd != [0] {
      LessTransitive(a, b, rangeEnd);
    }
  }

  lemma {:induction false} PassedAre(keys: seq<Key>, rangeEnd: Key, k: Key)
    requires Sorted(keys)
    ensures k in Passed(keys, rangeEnd) <==> k in keys && BeforeEnd(k, rangeEnd) && !IsInternalKey(k)
    decreases |keys|
  {
    hide BeforeEnd, IsInternalKey, Less;
    if keys != [] {
      assert keys == [keys[0]] + keys[1..];
      PassedAre(keys[1..], rangeEnd, k);
      if !BeforeEnd(keys[0], rangeEnd) && k in keys[1..] && BeforeEnd(k, rangeEnd) {
        var i :| 0 <= i < |keys[1..]| && keys[1..][i] == k;
        assert Less(keys[0], keys[i + 1]);
        EndStays(keys[0], k, rangeEnd);
      }
    }
  }

  lemma {:induction false} PassedSorted(keys: seq<Key>, rangeEnd: Key)
    requires Sorted(keys)
    ensures Sorted(Passed(keys, rangeEnd))
    decreases |keys|
  {
    hide BeforeEnd, IsInternalKey, Less;
    if keys != [] && BeforeEnd(keys[0], rangeEnd) {
      var rest := Passed(keys[1..], rangeEnd);
      PassedSorted(keys[1..], rangeEnd);
      forall j | 0 <= j < |rest|
        ensures Less(keys[0], rest[j])
      {
        PassedAre(keys[1..], rangeEnd, rest[j]);
        var i :| 0 <= i < |keys[1..]| && keys[1..][i] == rest[j];
        assert Less(keys[0], keys[i + 1]);
      }
    }
  }

  /** The keys of a list that are live, in order. */
  function LiveIn(st: Store, keys: seq<Key>): (r: seq<Key>)
    ensures forall k :: k in r <==> k in keys && k in st
  {
    if keys == [] then [] else
      assert keys == [keys[0]] + keys[1..];
      (if keys[0] in st then [keys[0]] else []) + LiveIn(st, keys[1..])
  }

  lemma {:induction false} LiveSorted(st: Store, keys: seq<Key>)
    requires Sorted(keys)
    ensures Sorted(LiveIn(st, keys))
    decreases |keys|
  {
    hide Less;
    if keys != [] {
      var rest := LiveIn(st, keys[1..]);
      LiveSorted(st, keys[1..]);
      forall j | 0 <= j < |rest|
        ensures Less(keys[0], rest[j])
      {
        assert rest[j] in rest;
        var i :| 0 <= i < |keys[1..]| && keys[1..][i] == rest[j];
        assert Less(keys[0], keys[i + 1]);
      }
    }
  }

  lemma {:induction false} OwnedIsValues(st: Store, keys: seq<Key>)
    ensures Owned(st, keys) == Values(st, LiveIn(st, keys))
    decreases |keys|
  {
    if keys != [] {
      OwnedIsValues(st, keys[1..]);
      if keys[0] in st {
        ValuesNext(st, keys[0], LiveIn(st, keys[1..]));
      } else {
        assert LiveIn(st, keys) == LiveIn(st, keys[1..]);
      }
    }
  }

  lemma ValuesNext(st: Store, k: Key, rest: seq<Key>)
    requires k in st && forall x :: x in rest ==> x in st
    ensures Values(st, [k] + rest) == [st[k]] + Values(st, rest)
  {
  }

  /** Every live key is in the index. */
  lemma LiveIsIndexed(v: View, at: Revision, st: Store, k: Key)
    requires SeesKey(v, at, st, k) && k in st
    ensures k in v.index
  {
  }

  /** The live keys a walk of the index passes are those of the range. */
  lemma WalkIsAnswer(v: View, at: Revision, st: Store, start: Key, rangeEnd: Key)
    requires Sees(v, at, st)
    ensures Owned(st, Passed(Scan(v.index, start), rangeEnd)) == Answer(st, start, rangeEnd)
  {
    hide BeforeEnd, IsInternalKey, Less, SeesKey, Passed, Owned;
    var passed := Passed(Scan(v.index, start), rangeEnd);
    PassedSorted(Scan(v.index, start), rangeEnd);
    LiveSorted(st, passed);
    OwnedIsValues(st, passed);
    forall k
      ensures k in LiveIn(st, passed) <==> k in KeysFrom(st, start, rangeEnd)
    {
      PassedAre(Scan(v.index, start), rangeEnd, k);
      if k in st {
        LiveIsIndexed(v, at, st, k);
      }
    }
    SortedExt(LiveIn(st, passed), KeysFrom(st, start, rangeEnd));
  }

  /** The keys a range read visits. */
  ghost function Visited(v: View, r: RangeRequest): seq<Key> {
    Passed(Scan(v.index, r.key), r.rangeEnd)
  }

  /**
   A range read is exact if and only if no record it reaches puts another key:
   then, and only then, does it return the live values of the range and nothing
   else.
   */
  lemma ListIsExact(v: View, r: RangeRequest, at: Revision, st: Store)
    requires Sees(v, at, st) && LogOk(v.log)
    ensures Emitted(v, Scan(v.index, r.key), r.rangeEnd, at) == Answer(st, r.key, r.rangeEnd)
            <==> !SomeExtra(v, Visited(v, r), at)
  {
    hide Sees, LogOk, SomeExtra, Owned, PutsAlong, Emitted, Passed, Scan, Answer;
    EmittedIs(v, Scan(v.index, r.key), r.rangeEnd, at);
    PutsAreOwned(v, Visited(v, r), at, st);
    WalkIsAnswer(v, at, st, r.key, r.rangeEnd);
  }

  /** What the store answers to a range request, seen at one revision. */
  ghost function Page(st: Store, r: RangeRequest): RangeResponse {
    Grown(r, RangeResponse(0, [], false), Answer(st, r.key, r.rangeEnd)).0
  }

  /** If no record reached puts another key, a range read is a page of the live values. */
  lemma ListIsPage(v: View, r: RangeRequest, at: Revision, st: Store)
    requires Sees(v, at, st) && LogOk(v.log) && !SomeExtra(v, Visited(v, r), at)
    ensures Listing.List(v, r, at) == Ok(Page(st, r))
  {
    hide Sees, LogOk, SomeExtra, Emitted, Answer, Grown, Scan, Readable, SeesKey;
    ListIsExact(v, r, at, st);
    var keys := Scan(v.index, r.key);
    forall i | 0 <= i < |keys|
      ensures Readable(v, keys[i], at)
    {
      SeesOne(v, at, st, keys[i]);
      RecordPuts(v, keys[i], at, st);
    }
    ListKeysIs(v, keys, r, at, RangeResponse(0, [], false));
  }

  /** What the last write of a key put in the log. */
  function LastRecord(log: seq<LogRecord>, n: nat, key: Key): LogRecord
    requires n <= |log|
  {
    var r := LastWrite(log, n, key);
    if r == 0 then [] else log[r - 1]
  }

  /** No key's last write at `n` put another key too. */
  ghost predicate NoExtras(log: seq<LogRecord>, n: nat) {
    n <= |log| && forall k: Key :: !PutsOthers(LastRecord(log, n, k), k)
  }

  lemma NoExtrasWithin(log: seq<LogRecord>, n: nat)
    requires NoExtras(log, n)
    ensures n <= |log|
  {
  }

  /** So it is when every record has at most one event. */
  lemma OneEventNoExtras(log: seq<LogRecord>, n: nat)
    requires n <= |log| && forall i :: 0 <= i < |log| ==> |log[i]| <= 1
    ensures NoExtras(log, n)
  {
    forall k: Key
      ensures !PutsOthers(LastRecord(log, n, k), k)
    {
      var r := LastWrite(log, n, k);
      if r > 0 {
        assert |log[r - 1]| <= 1 && FindEvent(log[r - 1], k).Some?;
      }
    }
  }

  /** The record a lookup leads to is the key's last write. */
  lemma RecordIsLast(v: View, k: Key, at: Revision)
    requires ViewOk(v) && at <= v.applied
    ensures RecordAt(v, k, at) == [] || RecordAt(v, k, at) == LastRecord(v.log, at, k)
  {
    hide IndexOk, LogOk, Joined, StateAt, LatestAt;
    LookupIsWhole(v, k, at);
    if Observe(v, k, at).Found? {
      FoundIsState(v, k, at);
    }
  }

  lemma NothingExtra(v: View, at: Revision, all: seq<LogRecord>, keys: seq<Key>)
    requires ViewOk(v) && at <= v.applied && v.log <= all && NoExtras(all, at)
    ensures !SomeExtra(v, keys, at)
  {
    hide ViewOk, PutsOthers, RecordAt, LastWrite;
    assert at <= |v.log| by { ViewReaches(v); }
    forall i | 0 <= i < |keys|
      ensures !PutsOthers(RecordAt(v, keys[i], at), keys[i])
    {
      var k := keys[i];
      RecordIsLast(v, k, at);
      PrefixStable(v.log, all[|v.log|..], at, k);
      assert v.log + all[|v.log|..] == all;
      assert !PutsOthers(LastRecord(all, at, k), k);
      NoneInNothing(k);
    }
  }

  lemma NoneInNothing(k: Key)
    ensures !PutsOthers([], k)
  {
  }

  lemma ViewReaches(v: View)
    requires ViewOk(v)
    ensures v.compacted <= v.applied <= |v.log| && LogOk(v.log)
  {
  }

  /**
   As long as the pinned revision is not compacted away, every page a store
   serves is a page of one and the same history, however its log has grown.
   */
  lemma StoreServes(v: View, all: seq<LogRecord>, rev: Revision, r: RangeRequest)
    requires ViewOk(v) && v.log <= all && v.compacted <= rev <= v.applied && NoExtras(all, rev)
    ensures Listing.List(v, r, rev) == Ok(Page(StateAt(all, rev), r))
  {
    hide Sees, SomeExtra, Page, StateAt, ViewOk, NoExtras;
    ViewReaches(v);
    ViewSees(v, rev);
    SameState(v.log, all, rev);
    NothingExtra(v, rev, all, Visited(v, r));
    ListIsPage(v, r, rev, StateAt(all, rev));
  }

  lemma {:induction false} SameState(log: seq<LogRecord>, more: seq<LogRecord>, n: nat)
    requires log <= more && n <= |log|
    ensures StateAt(log, n) == StateAt(more, n)
  {
    if n > 0 {
      SameState(log, more, n - 1);
    }
  }

  lemma {:induction false} ApplyKeepsKeys(st: Store, record: LogRecord)
    requires forall k :: k in st ==> st[k].key == k
    ensures forall k :: k in ApplyRecord(st, record) ==> ApplyRecord(st, record)[k].key == k
    decreases |record|
  {
    if record != [] {
      ApplyKeepsKeys(ApplyEvent(st, record[0]), record[1..]);
    }
  }

  /** A value in the store is filed under its own key. */
  lemma {:induction false} StateKeys(log: seq<LogRecord>, n: nat)
    requires n <= |log|
    ensures forall k :: k in StateAt(log, n) ==> StateAt(log, n)[k].key == k
  {
    if n > 0 {
      StateKeys(log, n - 1);
      ApplyKeepsKeys(StateAt(log, n - 1), log[n - 1]);
    }
  }

  // ---------------------------------------------------------------------
  // Page after page

  /** After the first `m` keys come those above the last of them. */
  lemma NextKeys(st: Store, start: Key, rangeEnd: Key, m: nat)
    requires 0 < m <= |KeysFrom(st, start, rangeEnd)|
    ensures KeysFrom(st, KeysFrom(st, start, rangeEnd)[m - 1] + [0], rangeEnd) == KeysFrom(st, start, rangeEnd)[m..]
  {
    hide BeforeEnd, IsInternalKey, Less;
    var keys := KeysFrom(st, start, rangeEnd);
    var last := keys[m - 1];
    var rest := keys[m..];
    var next := KeysFrom(st, last + [0], rangeEnd);
    assert last in keys;
    forall k
      ensures k in rest <==> k in next
    {
      SuccessorIsNext(last, k);
      if k in rest {
        var i :| 0 <= i < |rest| && rest[i] == k;
        assert keys[m + i] == k && k in keys && Less(last, k);
      }
      if k in next {
        AboveStart(start, last, k);
        assert k in keys;
        var i :| 0 <= i < |keys| && keys[i] == k;
        NotBefore(keys, m - 1, i);
        assert rest[i - m] == k;
      }
    }
    SortedExt(rest, next);
  }

  lemma AboveStart(start: Key, last: Key, k: Key)
    requires AtMost(start, last) && AtMost(last + [0], k)
    ensures AtMost(start, k) && Less(last, k)
  {
    SuccessorIsNext(last, k);
    if start != last {
      LessTransitive(start, last, k);
    }
  }

  lemma NotBefore(keys: seq<Key>, i: nat, j: nat)
    requires Sorted(keys) && i < |keys| && j < |keys| && Less(keys[i], keys[j])
    ensures i < j
  {
    LessAsymmetric(keys[i], keys[j]);
  }

  lemma NextAnswer(st: Store, start: Key, rangeEnd: Key, m: nat)
    requires 0 < m <= |Answer(st, start, rangeEnd)| && forall k :: k in st ==> st[k].key == k
    ensures var all := Answer(st, start, rangeEnd);
            Answer(st, all[m - 1].key + [0], rangeEnd) == all[m..]
  {
    hide KeysFrom;
    var keys := KeysFrom(st, start, rangeEnd);
    InStore(st, start, rangeEnd);
    NextKeys(st, start, rangeEnd, m);
    assert keys[m - 1] in keys;
  }

  lemma InStore(st: Store, start: Key, rangeEnd: Key)
    ensures forall k :: k in KeysFrom(st, start, rangeEnd) ==> k in st
  {
  }

  /** The keys with a prefix, as one range. */
  lemma PrefixAnswer(st: Store, p: Key)
    ensures KeysFrom(st, p, PrefixEnd(p)) == InOrder(set k | k in st && HasPrefix(k, p) && !IsInternalKey(k))
  {
    hide BeforeEnd, IsInternalKey, Less, HasPrefix, PrefixEnd;
    var a, b := KeysFrom(st, p, PrefixEnd(p)), InOrder(set k | k in st && HasPrefix(k, p) && !IsInternalKey(k));
    forall k
      ensures k in a <==> k in b
    {
      PrefixRange(p, k);
    }
    SortedExt(a, b);
  }

  /** An answer to a range request, with the revision in its header. */
  datatype Served = Served(outcome: Outcome<RangeResponse>, revision: Revision)

  /** A range request is a transaction that reads only; its header is the snapshot it was evaluated at. */
  ghost function ServeRange(v: View, snapshot: Revision, r: RangeRequest): Served {
    match Evaluate(v, Request([], [OpRange(r)], []), snapshot)
    case Ok(t) => Served(if |t.responses| == 1 && t.responses[0].ListResponse? then Ok(t.responses[0].list) else Fail, snapshot)
    case Fail => Served(Fail, snapshot)
    case Exit => Served(Exit, snapshot)
  }

  /** It is the range read at the revision asked for, or at the snapshot. */
  lemma ServeRangeIs(v: View, snapshot: Revision, r: RangeRequest)
    ensures ServeRange(v, snapshot, r) ==
            Served(if Mvcc.Readable(v, r.revision, snapshot) then Listing.List(v, r,
                if r.revision > 0 then r.revision else snapshot) else Fail, snapshot)
  {
    hide Listing.List, Mvcc.Readable;
    var t0, op := NewTxn(snapshot), OpRange(r);
    var req := Request([], [op], []);
    assert EvalCompares(v, t0, []) == Ok(t0);
    assert [op][1..] == [];
    if EvalOp(v, t0, op).Ok? {
      var t1 := EvalOp(v, t0, op).value;
      assert EvalOps(v, t1, []) == Ok(t1);
    }
  }

  /** The requests of one client, each answered by some state of the run, in order, at a snapshot taken before. */
  ghost predicate AnsweredBy(ask: (nat, RangeRequest) -> Served, run: seq<Sys>, when: nat -> nat,
                             snapshot: nat -> Revision) {
    && (forall i: nat :: when(i) < |run| && snapshot(i) <= run[when(i)].view.applied)
    && (forall i: nat :: when(0) <= when(i) && snapshot(0) <= snapshot(i))
    && forall i: nat, r: RangeRequest :: ask(i, r) == ServeRange(run[when(i)].view, snapshot(i), r)
  }

  /**
   The requests that a client pinned to `rev` makes are answered from the store
   as of `rev`, or fail because that has been compacted away. Later answers may
   carry a later header.
   */
  ghost predicate Serves(ask: (nat, RangeRequest) -> Served, gone: nat -> bool, st: Store, rev: Revision) {
    && (rev > 0 || st == map[])
    && (forall k :: k in st ==> st[k].key == k)
    && forall i: nat, r: RangeRequest :: Pinned(i, r, rev) ==>
         && (ask(i, r).outcome == if gone(i) then Fail else Ok(Page(st, r)))
         && (r.revision == 0 ==> ask(i, r).revision == rev)
  }

  /** The first request asks for the latest revision; all that follow ask for that one. */
  predicate Pinned(i: nat, r: RangeRequest, rev: Revision) {
    (i == 0 && r.revision == 0) || (rev > 0 && r.revision == rev)
  }

  /** Whether the revision has been compacted away by the time of request `i`. */
  ghost function GoneBy(run: seq<Sys>, when: nat -> nat, rev: Revision): nat -> bool
    requires forall i: nat :: when(i) < |run|
  {
    (i: nat) => run[when(i)].view.compacted > rev
  }

  lemma {:induction false} RunServesOne(run: seq<Sys>, actions: seq<Action>, x: nat, snapshot: Revision, rev: Revision,
                                        r: RangeRequest, i: nat)
    requires IsRun(run, actions) && x < |run| && rev <= snapshot <= run[x].view.applied && Pinned(i, r, rev)
    requires NoExtras(run[|run| - 1].view.log, rev)
    requires r.revision == 0 ==> snapshot == rev && run[x].view.compacted <= rev
    ensures ServeRange(run[x].view, snapshot, r) ==
            Served(if run[x].view.compacted > rev then Fail else Ok(Page(StateAt(run[|run| - 1].view.log, rev), r)), snapshot)
  {
    hide Listing.List, Page, StateAt, NoExtras, Inv, ServeRange, IsRun;
    var v, all := run[x].view, run[|run| - 1].view.log;
    RunGrows(run, actions, x, |run| - 1);
    EveryRunKeepsInv(run, actions, x);
    InvView(run[x]);
    ServeRangeIs(v, snapshot, r);
    if v.compacted <= rev {
      StoreServes(v, all, rev, r);
    }
  }

  lemma Whens(ask: (nat, RangeRequest) -> Served, run: seq<Sys>, when: nat -> nat, snapshot: nat -> Revision)
    requires AnsweredBy(ask, run, when, snapshot)
    ensures |run| > 0 && forall i: nat :: when(i) < |run|
  {
    assert when(0) < |run|;
  }

  lemma AnsweredAt(ask: (nat, RangeRequest) -> Served, run: seq<Sys>, when: nat -> nat, snapshot: nat -> Revision,
                   i: nat, r: RangeRequest)
    requires AnsweredBy(ask, run, when, snapshot)
    ensures when(i) < |run| && snapshot(0) <= snapshot(i) <= run[when(i)].view.applied
    ensures ask(i, r) == ServeRange(run[when(i)].view, snapshot(i), r)
  {
    hide ServeRange;
  }

  /** A store in use serves a client that pages, provided the first snapshot was not overtaken by compaction. */
  lemma RunServes(run: seq<Sys>, actions: seq<Action>, ask: (nat, RangeRequest) -> Served, when: nat -> nat,
                  snapshot: nat -> Revision)
    requires IsRun(run, actions) && AnsweredBy(ask, run, when, snapshot)
    requires run[when(0)].view.compacted <= snapshot(0)
    requires NoExtras(run[|run| - 1].view.log, snapshot(0))
    ensures Serves(ask, GoneBy(run, when, snapshot(0)), StateAt(run[|run| - 1].view.log, snapshot(0)), snapshot(0))
  {
    hide IsRun, NoExtras, Page, ServeRange, StateAt, AnsweredBy;
    Whens(ask, run, when, snapshot);
    var all, rev := run[|run| - 1].view.log, snapshot(0);
    NoExtrasWithin(all, rev);
    StateKeys(all, rev);
    NothingAtZero(all);
    forall i: nat, r: RangeRequest | Pinned(i, r, rev)
      ensures ask(i, r) == Served(if GoneBy(run, when, rev)(i) then Fail else Ok(Page(StateAt(all, rev), r)), snapshot(i))
    {
      AnsweredAt(ask, run, when, snapshot, i, r);
      RunServesOne(run, actions, when(i), snapshot(i), rev, r, i);
    }
  }

  lemma NothingAtZero(log: seq<LogRecord>)
    ensures StateAt(log, 0) == map[]
  {
  }

  lemma PageHolds(st: Store, key: Key, end: Key, revision: Revision, limit: int)
    ensures var all := Answer(st, key, end);
            var page := Page(st, RangeRequest(key, end, revision, limit, false, false));
            && page.more == (limit > 0 && |all| >= limit)
            && page.kvs == if page.more then all[..limit] else all
  {
    hide Answer;
    var all := Answer(st, key, end);
    var r := RangeRequest(key, end, revision, limit, false, false);
    assert Shown(r, all) == all;
    assert limit > 0 && |all| >= limit ==> Shown(r, all[..limit]) == all[..limit];
    assert forall s: seq<KeyValue> :: [] + s == s;
  }

  /** The live, visible values with a prefix, in key order. */
  ghost function WithPrefix(st: Store, prefix: Key): seq<KeyValue> {
    Values(st, InOrder(set k | k in st && HasPrefix(k, prefix) && !IsInternalKey(k)))
  }

  /**
   List a prefix page by page from a store in use, pinned to the revision of
   the first page. It ends with exactly the keys of the prefix that were live at
   that revision, in order, whatever is committed, applied, compacted and
   dropped between the pages; or with the request by which that revision had
   been compacted away.
   */
  method ListPrefix(prefix: Key, pageSize: int, ask: (nat, RangeRequest) -> Served, ghost run: seq<Sys>,
                    ghost actions: seq<Action>, ghost when: nat -> nat, ghost snapshot: nat -> Revision)
    returns (ok: bool, kvs: seq<KeyValue>, ghost at: nat)
    requires IsRun(run, actions) && AnsweredBy(ask, run, when, snapshot)
    requires run[when(0)].view.compacted <= snapshot(0)
    requires NoExtras(run[|run| - 1].view.log, snapshot(0))
    ensures ok ==> kvs == WithPrefix(StateAt(run[|run| - 1].view.log, snapshot(0)), prefix)
    ensures !ok ==> run[when(at)].view.compacted > snapshot(0)
  {
    hide *;
    Whens(ask, run, when, snapshot);
    NoExtrasWithin(run[|run| - 1].view.log, snapshot(0));
    ghost var st, pinned := StateAt(run[|run| - 1].view.log, snapshot(0)), snapshot(0);
    ghost var gone := GoneBy(run, when, pinned);
    RunServes(run, actions, ask, when, snapshot);
    var end := PrefixEndOf(prefix);
    PrefixTotal(st, prefix);
    ghost var total := Answer(st, prefix, end);
    var key, rev, i: nat := prefix, 0, 0;
    kvs := [];
    while true
      invariant kvs + Answer(st, key, end) == total
      invariant if i == 0 then rev == 0 else rev == pinned > 0
      decreases |Answer(st, key, end)|
    {
      var r := RangeRequest(key, end, rev, pageSize, false, false);
      var served := ask(i, r);
      ServedIs(ask, gone, st, pinned, i, r);
      if served.outcome.Fail? {
        GoneIs(run, when, pinned, i);
        return false, kvs, i;
      }
      var page := served.outcome.value;
      TakePage(st, kvs, r);
      if rev == 0 {
        rev := served.revision;
      }
      kvs := kvs + page.kvs;
      if !page.more || |page.kvs| == 0 {
        return true, kvs, i;
      }
      MoreIsPinned(ask, gone, st, pinned, r);
      key := page.kvs[|page.kvs| - 1].key + [0];
      i := i + 1;
    }
  }

  lemma ServedIs(ask: (nat, RangeRequest) -> Served, gone: nat -> bool, st: Store, rev: Revision, i: nat, r: RangeRequest)
    requires Serves(ask, gone, st, rev) && if i == 0 then r.revision == 0 else r.revision == rev > 0
    ensures forall k :: k in st ==> st[k].key == k
    ensures ask(i, r).outcome == if gone(i) then Fail else Ok(Page(st, r))
    ensures i == 0 ==> ask(i, r).revision == rev
  {
    hide Page;
    assert Pinned(i, r, rev);
  }

  lemma GoneIs(run: seq<Sys>, when: nat -> nat, rev: Revision, i: nat)
    requires (forall x: nat :: when(x) < |run|) && GoneBy(run, when, rev)(i)
    ensures run[when(i)].view.compacted > rev
  {
  }

  /** A store with nothing in it has no second page. */
  lemma MoreIsPinned(ask: (nat, RangeRequest) -> Served, gone: nat -> bool, st: Store, rev: Revision, r: RangeRequest)
    requires Serves(ask, gone, st, rev) && Page(st, r).more && !r.countOnly && !r.keysOnly
    ensures rev > 0
  {
    hide Answer, Page;
    assert r == RangeRequest(r.key, r.rangeEnd, r.revision, r.limit, false, false);
    PageHolds(st, r.key, r.rangeEnd, r.revision, r.limit);
    if st == map[] {
      NoAnswer(r.key, r.rangeEnd);
    }
  }

  lemma NoAnswer(start: Key, rangeEnd: Key)
    ensures Answer(map[], start, rangeEnd) == []
  {
    var st: Store := map[];
    assert (set k | k in st && AtMost(start, k) && BeforeEnd(k, rangeEnd) && !IsInternalKey(k)) == {};
  }

  /** What one page leaves for the next. */
  lemma TakePage(st: Store, kvs: seq<KeyValue>, r: RangeRequest)
    requires !r.countOnly && !r.keysOnly && forall k :: k in st ==> st[k].key == k
    ensures var all, page := Answer(st, r.key, r.rangeEnd), Page(st, r);
            if !page.more || |page.kvs| == 0 then kvs + page.kvs == kvs + all
            else
              var rest := Answer(st, page.kvs[|page.kvs| - 1].key + [0], r.rangeEnd);
              kvs + page.kvs + rest == kvs + all && |rest| < |all|
  {
    hide Answer, Page;
    PageHolds(st, r.key, r.rangeEnd, r.revision, r.limit);
    var all, page := Answer(st, r.key, r.rangeEnd), Page(st, r);
    assert r == RangeRequest(r.key, r.rangeEnd, r.revision, r.limit, false, false);
    if page.more && |page.kvs| > 0 {
      NextAnswer(st, r.key, r.rangeEnd, r.limit);
      assert all == all[..r.limit] + all[r.limit..];
      assert kvs + page.kvs + all[r.limit..] == kvs + (page.kvs + all[r.limit..]);
    }
  }

  lemma PrefixTotal(st: Store, prefix: Key)
    ensures Answer(st, prefix, PrefixEnd(prefix)) == WithPrefix(st, prefix)
  {
    PrefixAnswer(st, prefix);
  }
}
