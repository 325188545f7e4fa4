/**
 What the log holds: records of events, and what a sequence of records means
 as a key-value store.
 */
module Records {
  import opened Bytes

  datatype Option<+T> = None | Some(value: T)

  type Revision = nat

  datatype KeyValue = KeyValue(
    key: Key,
    value: seq<byte>,
    createRevision: int,
    modRevision: int,
    version: int,
    lease: int)

  datatype EventType = PUT | DELETE

  datatype Event = Event(typ: EventType, kv: KeyValue, prevKv: Option<KeyValue>)

  type LogRecord = seq<Event>

  /** The first event of the record that is about `key`, if there is one. */
  function FindEvent(record: LogRecord, key: Key): (r: Option<Event>)
    ensures r.Some? ==> r.value in record && r.value.kv.key == key
    ensures r.None? <==> forall e :: e in record ==> e.kv.key != key
  {
    if record == [] then None
    else if record[0].kv.key == key then Some(record[0])
    else FindEvent(record[1..], key)
  }

  predicate Touches(record: LogRecord, key: Key) {
    FindEvent(record, key).Some?
  }

  /** No key is written twice by one record. */
  ghost predicate WritesOnce(record: LogRecord) {
    forall i, j :: 0 <= i < j < |record| ==> record[i].kv.key != record[j].kv.key
  }

  /** The live keys and their values. */
  type Store = map<Key, KeyValue>

  function ApplyEvent(st: Store, e: Event): Store {
    match e.typ
    case PUT => st[e.kv.key := e.kv]
    case DELETE => st - {e.kv.key}
  }

  function ApplyRecord(st: Store, record: LogRecord): Store
    decreases |record|
  {
    if record == [] then st else ApplyRecord(ApplyEvent(st, record[0]), record[1..])
  }

  /** The store after the first `n` records of the log. */
  function StateAt(log: seq<LogRecord>, n: nat): Store
    requires n <= |log|
  {
    if n == 0 then map[] else ApplyRecord(StateAt(log, n - 1), log[n - 1])
  }

  /** Whether the log's record at revision `r` (counted from 1) wrote `key`. */
  predicate WrittenAt(log: seq<LogRecord>, r: int, key: Key) {
    0 < r <= |log| && Touches(log[r - 1], key)
  }

  /** The last revision at or below `n` that wrote `key`; 0 if none did. */
  function LastWrite(log: seq<LogRecord>, n: nat, key: Key): (r: Revision)
    requires n <= |log|
    ensures r <= n
    ensures r > 0 ==> WrittenAt(log, r, key)
    ensures forall q :: r < q <= n ==> !WrittenAt(log, q, key)
  {
    if n == 0 then 0 else if WrittenAt(log, n, key) then n else LastWrite(log, n - 1, key)
  }

  function Lookup(st: Store, key: Key): Option<KeyValue> {
    if key in st then Some(st[key]) else None
  }

  /** The value an event leaves its key with. */
  function EventValue(e: Event): Option<KeyValue> {
    if e.typ == PUT then Some(e.kv) else None
  }

  /** What a record leaves one key with, when it writes no key twice. */
  lemma {:induction false} ApplyRecordLookup(st: Store, record: LogRecord, key: Key)
    requires WritesOnce(record)
    ensures Lookup(ApplyRecord(st, record), key) ==
            if Touches(record, key) then EventValue(FindEvent(record, key).value) else Lookup(st, key)
    decreases |record|
  {
    if record != [] {
      var rest := record[1..];
      assert forall i :: 0 <= i < |rest| ==> rest[i] == record[i + 1];
      ApplyRecordLookup(ApplyEvent(st, record[0]), rest, key);
      if record[0].kv.key == key {
        assert forall e :: e in rest ==> e.kv.key != key;
        assert !Touches(rest, key);
      }
    }
  }

  /** The last event of the record that is about `key`, if there is one. */
  function LastEvent(record: LogRecord, key: Key): (r: Option<Event>)
    ensures r.None? <==> FindEvent(record, key).None?
    decreases |record|
  {
    if record == [] then None
    else
      var rest := LastEvent(record[1..], key);
      if rest.Some? then rest else if record[0].kv.key == key then Some(record[0]) else None
  }

  /** What a record leaves one key with: what its last event about the key says. */
  lemma {:induction false} ApplyRecordLast(st: Store, record: LogRecord, key: Key)
    ensures Lookup(ApplyRecord(st, record), key) ==
            if LastEvent(record, key).Some? then EventValue(LastEvent(record, key).value) else Lookup(st, key)
    decreases |record|
  {
    if record != [] {
      ApplyRecordLast(ApplyEvent(st, record[0]), record[1..], key);
    }
  }

  /**
   A lookup reads the first event about a key. That is what the record leaves
   the key with if and only if its first and last event about the key leave the
   same; so for every record that writes no key twice.
   */
  lemma FirstEventIsExact(st: Store, record: LogRecord, key: Key)
    requires Touches(record, key)
    ensures EventValue(FindEvent(record, key).value) == Lookup(ApplyRecord(st, record), key)
            <==> EventValue(FindEvent(record, key).value) == EventValue(LastEvent(record, key).value)
    ensures WritesOnce(record) ==> LastEvent(record, key) == FindEvent(record, key)
  {
    ApplyRecordLast(st, record, key);
    if WritesOnce(record) {
      OnceIsLast(record, key);
    }
  }

  lemma {:induction false} OnceIsLast(record: LogRecord, key: Key)
    requires WritesOnce(record)
    ensures LastEvent(record, key) == FindEvent(record, key)
    decreases |record|
  {
    if record != [] {
      var rest := record[1..];
      assert forall i :: 0 <= i < |rest| ==> rest[i] == record[i + 1];
      OnceIsLast(rest, key);
      if record[0].kv.key == key {
        assert forall e :: e in rest ==> e.kv.key != key;
      }
    }
  }

  /**
   The store folded from the log agrees, key by key, with looking up the key's
   last write and reading that one record.
   */
  lemma {:induction false} StateIsLastWrite(log: seq<LogRecord>, n: nat, key: Key)
    requires n <= |log|
    requires forall i :: 0 <= i < n ==> WritesOnce(log[i])
    ensures var r := LastWrite(log, n, key);
            Lookup(StateAt(log, n), key) ==
            if r == 0 then None else EventValue(FindEvent(log[r - 1], key).value)
  {
    if n > 0 {
      StateIsLastWrite(log, n - 1, key);
      ApplyRecordLookup(StateAt(log, n - 1), log[n - 1], key);
    }
  }

  /** The past does not change as the log grows. */
  lemma {:induction false} PrefixStable(log: seq<LogRecord>, more: seq<LogRecord>, n: nat, key: Key)
    requires n <= |log|
    ensures StateAt(log + more, n) == StateAt(log, n)
    ensures LastWrite(log + more, n, key) == LastWrite(log, n, key)
  {
    if n > 0 {
      PrefixStable(log, more, n - 1, key);
      assert (log + more)[n - 1] == log[n - 1];
    }
  }

  /** `LastWrite` is determined by being the last write. */
  lemma LastWriteIs(log: seq<LogRecord>, n: nat, key: Key, r: Revision)
    requires r <= n <= |log|
    requires r > 0 ==> WrittenAt(log, r, key)
    requires forall q :: r < q <= n ==> !WrittenAt(log, q, key)
    ensures LastWrite(log, n, key) == r
  {
  }

  lemma {:induction false} LastWriteMonotone(log: seq<LogRecord>, m: nat, n: nat, key: Key)
    requires m <= n <= |log|
    ensures LastWrite(log, m, key) <= LastWrite(log, n, key)
    ensures LastWrite(log, n, key) <= m ==> LastWrite(log, n, key) == LastWrite(log, m, key)
  {
    if m < n {
      LastWriteMonotone(log, m, n - 1, key);
    }
  }
}
