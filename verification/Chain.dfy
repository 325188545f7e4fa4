/**
 The version history of a key: what `CreateRevision`, `Version` and
 `ModRevision` say about the log, counted from the log itself.
 */
module Chain {
  import opened Bytes
  import opened Records
  import opened Mvcc
  import opened System
  import opened Restart

  /** The puts of a key since it was last absent: where the first was, and how many there have been. */
  datatype Life = Life(first: Revision, puts: nat)

  function LifeAt(log: seq<LogRecord>, n: nat, key: Key): Life
    requires n <= |log|
  {
    if n == 0 then Life(0, 0)
    else
      var before := LifeAt(log, n - 1, key);
      match FindEvent(log[n - 1], key)
      case None => before
      case Some(e) =>
        if e.typ == DELETE then Life(0, 0)
        else Life(if before.puts == 0 then n else before.first, before.puts + 1)
  }

  /** A live key's attributes are what counting says; a key with no puts since it was absent is not live. */
  ghost predicate KeyChained(log: seq<LogRecord>, n: nat, key: Key)
    requires n <= |log|
  {
    var life := LifeAt(log, n, key);
    var kv := Lookup(StateAt(log, n), key);
    && (kv.Some? <==> life.puts > 0)
    && (kv.Some? ==>
          && kv.value.key == key
          && kv.value.createRevision == life.first
          && kv.value.version == life.puts
          && kv.value.modRevision == LastWrite(log, n, key))
  }

  ghost predicate Chained(log: seq<LogRecord>, n: nat)
    requires n <= |log|
  {
    forall k: Key :: KeyChained(log, n, k)
  }

  /** A record whose events continue from the store before it extends every key's history. */
  lemma KeyChainGrows(log: seq<LogRecord>, n: nat, key: Key)
    requires n < |log| && KeyChained(log, n, key)
    requires WritesOnce(log[n]) && EventsOk(log[n], StateAt(log, n), n + 1)
    ensures KeyChained(log, n + 1, key)
  {
    ApplyRecordLookup(StateAt(log, n), log[n], key);
    if Touches(log[n], key) {
      var e := FindEvent(log[n], key).value;
      var i :| 0 <= i < |log[n]| && log[n][i] == e;
      assert EventOk(log[n][i], StateAt(log, n), n + 1);
    }
  }

  lemma ChainGrows(log: seq<LogRecord>, n: nat)
    requires n < |log| && Chained(log, n)
    requires WritesOnce(log[n]) && EventsOk(log[n], StateAt(log, n), n + 1)
    ensures Chained(log, n + 1)
  {
    var n' := n + 1;
    forall k: Key
      ensures KeyChained(log, n', k)
    {
      KeyChainGrows(log, n, k);
    }
  }

  lemma {:induction false} LifePrefix(log: seq<LogRecord>, more: seq<LogRecord>, n: nat, key: Key)
    requires n <= |log|
    ensures LifeAt(log + more, n, key) == LifeAt(log, n, key)
  {
    if n > 0 {
      LifePrefix(log, more, n - 1, key);
    }
  }

  lemma ChainPrefix(log: seq<LogRecord>, more: seq<LogRecord>, n: nat)
    requires n <= |log| && Chained(log, n)
    ensures Chained(log + more, n)
  {
    var log' := log + more;
    forall k: Key
      ensures KeyChained(log', n, k)
    {
      assert KeyChained(log, n, k);
      LifePrefix(log, more, n, k);
      PrefixStable(log, more, n, k);
    }
  }

  // ---------------------------------------------------------------------
  // The whole history of a log, also of one that was compacted before the process started

  /**
   The process was started on what compaction had left of the history
   `history`, and every key had then the value it had before.
   */
  ghost predicate StartedOn(s: Sys, history: seq<LogRecord>, dropped: set<Revision>) {
    && s.initial == Thin(history, dropped)
    && forall k: Key :: SameAt(history, dropped, |history|, k)
  }

  /** The history, then what this process has committed. */
  function WholeLog(s: Sys, history: seq<LogRecord>): seq<LogRecord> {
    history + RecordsOf(s.committer.progress.committed)
  }

  lemma StoreExt(a: Store, b: Store)
    requires forall k: Key :: Lookup(a, k) == Lookup(b, k)
    ensures a == b
  {
    forall k: Key
      ensures k in a <==> k in b
      ensures k in a && k in b ==> a[k] == b[k]
    {
      assert Lookup(a, k) == Lookup(b, k);
    }
  }

  lemma WholeStart(s: Sys, history: seq<LogRecord>, dropped: set<Revision>)
    requires StartedOn(s, history, dropped)
    ensures |s.initial| == |history| && StateAt(history, |history|) == StateAt(s.initial, |history|)
  {
    hide StateAt;
    forall k: Key
      ensures Lookup(StateAt(history, |history|), k) == Lookup(StateAt(s.initial, |history|), k)
    {
      assert SameAt(history, dropped, |history|, k);
    }
    StoreExt(StateAt(history, |history|), StateAt(s.initial, |history|));
  }

  lemma {:induction false} SameRecords(a: seq<LogRecord>, b: seq<LogRecord>, more: seq<LogRecord>, i: nat)
    requires |a| == |b| && StateAt(a, |a|) == StateAt(b, |b|) && i <= |more|
    ensures StateAt(a + more, |a| + i) == StateAt(b + more, |b| + i)
  {
    if i == 0 {
      PrefixStable(a, more, |a|, []);
      PrefixStable(b, more, |b|, []);
    } else {
      SameRecords(a, b, more, i - 1);
      assert (a + more)[|a| + i - 1] == more[i - 1] == (b + more)[|b| + i - 1];
    }
  }

  /** The process's log and the whole log mean the same store at every revision since the start. */
  lemma WholeState(s: Sys, history: seq<LogRecord>, dropped: set<Revision>, i: nat)
    requires Inv(s) && StartedOn(s, history, dropped) && i <= |s.committer.progress.committed|
    ensures |s.initial| == |history| && |s.initial| + i <= |s.view.log| == |WholeLog(s, history)|
    ensures StateAt(WholeLog(s, history), |history| + i) == StateAt(s.view.log, |history| + i)
  {
    hide Inv, StartedOn, StateAt;
    InvLog(s);
    WholeStart(s, history, dropped);
    SameRecords(history, s.initial, RecordsOf(s.committer.progress.committed), i);
  }

  lemma InvLog(s: Sys)
    requires Inv(s)
    ensures s.view.log == LogOf(s.initial, s.committer.progress.committed)
  {
  }

  /**
   In every state of every run of a process started on a history that is
   chained (the empty one, for instance), compacted or not, and at every
   revision since: every live key's CreateRevision is the first put since the
   key was absent, its Version is the number of puts since then, and its
   ModRevision is its last write, all counted on the whole history, although
   every event was staged at its own snapshot+1 and stamped later.
   */
  lemma {:induction false} EveryLogIsChained(s: Sys, history: seq<LogRecord>, dropped: set<Revision>, i: nat)
    requires Inv(s) && StartedOn(s, history, dropped) && i <= |s.committer.progress.committed|
    requires Chained(history, |history|)
    ensures Chained(WholeLog(s, history), |history| + i)
  {
    hide Chained, EventsOk, StartedOn, StateAt;
    if i == 0 {
      ChainPrefix(history, RecordsOf(s.committer.progress.committed), |history|);
    } else {
      EveryLogIsChained(s, history, dropped, i - 1);
      RecordContinues(s, history, dropped, i - 1);
      ChainGrows(WholeLog(s, history), |history| + i - 1);
    }
  }

  /** Each record the process committed continues the whole log before it. */
  lemma RecordContinues(s: Sys, history: seq<LogRecord>, dropped: set<Revision>, i: nat)
    requires Inv(s) && StartedOn(s, history, dropped) && i < |s.committer.progress.committed|
    ensures |s.initial| == |history| && |history| + i < |s.view.log|
    ensures var all, n := WholeLog(s, history), |history| + i;
            && all[n] == s.view.log[n] && WritesOnce(all[n])
            && EventsOk(all[n], StateAt(all, n), n + 1)
  {
    WholeState(s, history, dropped, i);
    InvLog(s);
    InvView(s);
    EventsContinue(s, i);
    hide Inv, EventsOk, StateAt, StartedOn;
    var n := |history| + i;
    assert RecordOk(s.view.log[n], n + 1);
    assert s.view.log[n] == s.committer.progress.committed[i].record;
  }

  /** The empty log is chained, and so is one that holds only the empty record a new log starts with. */
  lemma EmptyIsChained()
    ensures Chained([], 0) && Chained([[]], 1)
  {
    var log: seq<LogRecord> := [[]];
    assert Chained(log, 0);
    ChainGrows(log, 0);
  }

  /** A process started on a log nothing was dropped from is started on all of its history. */
  lemma NothingDropped(s: Sys)
    ensures StartedOn(s, s.initial, {})
  {
    assert Thin(s.initial, {}) == s.initial;
  }

  /** And every put in the log is stamped with its own revision and carries its true predecessor. */
  lemma EveryPutContinues(s: Sys, history: seq<LogRecord>, dropped: set<Revision>, i: nat, j: nat)
    requires Inv(s) && StartedOn(s, history, dropped) && i < |s.committer.progress.committed|
    requires Chained(history, |history|)
    requires var all := WholeLog(s, history);
             j < |all[|history| + i]| && all[|history| + i][j].typ == PUT
    ensures var all, revision := WholeLog(s, history), |history| + i + 1;
            var e := all[revision - 1][j];
            var life := LifeAt(all, revision, e.kv.key);
            && e.kv.modRevision == revision
            && e.kv.createRevision == life.first
            && e.kv.version == life.puts
            && e.prevKv == Lookup(StateAt(all, revision - 1), e.kv.key)
  {
    hide Inv, LifeAt, StateAt, StartedOn, FindEvent;
    var all, n := WholeLog(s, history), |history| + i;
    EveryLogIsChained(s, history, dropped, i + 1);
    RecordContinues(s, history, dropped, i);
    var e: Event := all[n][j];
    assert EventOk(e, StateAt(all, n), n + 1);
    PutIsLife(all, n, j);
    assert KeyChained(all, n + 1, e.kv.key);
  }

  lemma PutIsLife(log: seq<LogRecord>, n: nat, j: nat)
    requires n < |log| && WritesOnce(log[n]) && j < |log[n]| && log[n][j].typ == PUT
    ensures Lookup(StateAt(log, n + 1), log[n][j].kv.key) == Some(log[n][j].kv)
  {
    OnlyEvent(log[n], j);
    ApplyRecordLookup(StateAt(log, n), log[n], log[n][j].kv.key);
  }

  lemma {:induction false} OnlyEvent(record: LogRecord, j: nat)
    requires WritesOnce(record) && j < |record|
    ensures FindEvent(record, record[j].kv.key) == Some(record[j])
    decreases |record|
  {
    if j > 0 {
      assert record[0].kv.key != record[j].kv.key;
      assert forall i :: 0 <= i < |record| - 1 ==> record[1..][i] == record[i + 1];
      OnlyEvent(record[1..], j - 1);
    }
  }

  /**
   A process started on a compacted history is not chained on its own log: the
   first put it can read may be the key's second. Counting on the whole history
   is what makes the claim hold.
   */
  lemma ThinIsNotChained(k: Key, a: KeyValue, b: KeyValue)
    requires a == KeyValue(k, a.value, 1, 1, 1, a.lease) && b == KeyValue(k, b.value, 1, 2, 2, b.lease)
    ensures var history := [[Event(PUT, a, None)], [Event(PUT, b, Some(a))]];
            && Chained(history, 2)
            && (forall key: Key :: SameAt(history, {1}, 2, key))
            && !Chained(Thin(history, {1}), 2)
  {
    var r1, r2: LogRecord := [Event(PUT, a, None)], [Event(PUT, b, Some(a))];
    var history := [r1, r2];
    var thin := Thin(history, {1});
    assert thin == [[], r2];
    OneEventRecord(map[], r1[0]);
    OneEventRecord(map[k := a], r2[0]);
    OneEventRecord(map[], r2[0]);
    assert StateAt(history, 0) == map[] && StateAt(history, 1) == map[k := a] && StateAt(history, 2) == map[k := b];
    assert StateAt(thin, 0) == map[] && StateAt(thin, 1) == map[] && StateAt(thin, 2) == map[k := b];
    EventsOkOne(history, 0);
    EventsOkOne(history, 1);
    assert Chained(history, 0);
    ChainGrows(history, 0);
    ChainGrows(history, 1);
    assert LifeAt(thin, 1, k) == Life(0, 0);
    assert FindEvent(r2, k) == Some(r2[0]);
    assert LifeAt(thin, 2, k) == Life(2, 1);
    assert !KeyChained(thin, 2, k);
  }

  lemma OneEventRecord(st: Store, e: Event)
    ensures ApplyRecord(st, [e]) == ApplyEvent(st, e)
  {
    assert [e][1..] == [];
  }

  lemma EventsOkOne(log: seq<LogRecord>, n: nat)
    requires n < |log| && |log[n]| == 1 && EventOk(log[n][0], StateAt(log, n), n + 1)
    ensures WritesOnce(log[n]) && EventsOk(log[n], StateAt(log, n), n + 1)
  {
  }
}
