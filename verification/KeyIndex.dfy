/**
 The key index as a plain map: for each key, the revisions at which it was
 written, in ascending order, and whether the latest of them was a delete.
 `RadixTree.dfy` stores this map in a prefix tree.
 */
module KeyIndex {
  import opened Bytes
  import opened Records

  datatype KeyRevs = KeyRevs(revs: seq<Revision>, tombstone: bool)

  type Index = map<Key, KeyRevs>

  ghost predicate Ascending(revs: seq<Revision>) {
    forall i, j :: 0 <= i < j < |revs| ==> revs[i] < revs[j]
  }

  /** The latest revision at or below `at`, scanning back from the newest. */
  function LatestAt(revs: seq<Revision>, at: Revision): (r: Option<Revision>)
    ensures r.Some? ==> r.value in revs && r.value <= at
    ensures r.None? ==> forall q :: q in revs ==> q > at
  {
    if revs == [] then None
    else
      var n := |revs| - 1;
      assert revs == revs[..n] + [revs[n]];
      if revs[n] <= at then Some(revs[n]) else LatestAt(revs[..n], at)
  }

  /** Whether one of the revisions lies above `after` and at or below `through`. */
  ghost predicate WrittenBetween(revs: seq<Revision>, after: Revision, through: Revision) {
    exists q :: q in revs && after < q <= through
  }

  lemma LastIsMax(revs: seq<Revision>, q: Revision)
    requires Ascending(revs) && q in revs
    ensures q <= revs[|revs| - 1]
  {
    var i :| 0 <= i < |revs| && revs[i] == q;
  }

  lemma {:induction false} LatestIsMax(revs: seq<Revision>, at: Revision)
    requires Ascending(revs)
    ensures var r := LatestAt(revs, at);
            r.Some? ==> !WrittenBetween(revs, r.value, at)
  {
    if revs != [] {
      var n := |revs| - 1;
      assert revs == revs[..n] + [revs[n]];
      if revs[n] > at {
        LatestIsMax(revs[..n], at);
      } else {
        forall q | q in revs
          ensures q <= revs[n]
        {
          LastIsMax(revs, q);
        }
      }
    }
  }

  /** The latest revision at or below `at` is the one with none between it and `at`. */
  lemma LatestIs(revs: seq<Revision>, at: Revision, r: Revision)
    requires Ascending(revs) && r in revs && r <= at && !WrittenBetween(revs, r, at)
    ensures LatestAt(revs, at) == Some(r)
  {
    LatestIsMax(revs, at);
  }

  /** How many of the revisions are at or below `through`: where the first one above it is. */
  function FirstAbove(revs: seq<Revision>, through: Revision): (i: nat)
    ensures i <= |revs|
    ensures forall j :: 0 <= j < i ==> revs[j] <= through
    ensures i < |revs| ==> revs[i] > through
  {
    if revs == [] || revs[0] > through then 0 else 1 + FirstAbove(revs[1..], through)
  }

  /** Where the kept revisions start: at the last one at or below `through`, if there is one. */
  function KeepFrom(revs: seq<Revision>, through: Revision): (i: nat)
    ensures i <= |revs| && (revs != [] ==> i < |revs|)
  {
    var i := FirstAbove(revs, through);
    if i > 0 then i - 1 else 0
  }

  predicate Gone(k: KeyRevs, through: Revision) {
    k.tombstone && |k.revs| > 0 && k.revs[|k.revs| - 1] <= through
  }

  /** One key's revisions after compaction; only for a key that is not `Gone`. */
  function CompactRevs(k: KeyRevs, through: Revision): KeyRevs {
    k.(revs := k.revs[KeepFrom(k.revs, through)..])
  }

  function IndexAdd(ix: Index, key: Key, revision: Revision, tombstone: bool): Index {
    ix[key := KeyRevs(RevsOf(ix, key) + [revision], tombstone)]
  }

  function IndexCompact(ix: Index, through: Revision): Index {
    map k | k in ix && !Gone(ix[k], through) :: CompactRevs(ix[k], through)
  }

  function RevsOf(ix: Index, key: Key): seq<Revision> {
    if key in ix then ix[key].revs else []
  }

  function IndexLatest(ix: Index, key: Key, at: Revision): Option<Revision> {
    LatestAt(RevsOf(ix, key), at)
  }

  // ---------------------------------------------------------------------
  // Compaction of one key

  lemma FrontMembers(a: seq<Revision>, r: Revision)
    requires Ascending(a) && a != []
    ensures r in a[..|a| - 1] <==> r in a && r != a[|a| - 1]
  {
    assert a == a[..|a| - 1] + [a[|a| - 1]];
  }

  /** An ascending list is determined by its members. */
  lemma {:induction false} AscendingExt(a: seq<Revision>, b: seq<Revision>)
    requires Ascending(a) && Ascending(b)
    requires forall r :: r in a <==> r in b
    ensures a == b
  {
    assert a != [] ==> a[0] in a;
    assert b != [] ==> b[0] in b;
    if a != [] {
      var m, n := |a| - 1, |b| - 1;
      var x := a[m];
      assert x in b && b[n] in a;
      LastIsMax(a, b[n]);
      LastIsMax(b, x);
      assert b[n] == x;
      forall r
        ensures r in a[..m] <==> r in b[..n]
      {
        FrontMembers(a, r);
        FrontMembers(b, r);
      }
      AscendingExt(a[..m], b[..n]);
      assert a == a[..m] + [x] && b == b[..n] + [x];
    }
  }

  lemma FirstAboveSplits(revs: seq<Revision>, through: Revision, j: nat)
    requires Ascending(revs) && j < |revs|
    ensures revs[j] <= through <==> j < FirstAbove(revs, through)
  {
  }

  lemma KeptIsUnsuperseded(revs: seq<Revision>, through: Revision, j: nat)
    requires Ascending(revs) && KeepFrom(revs, through) <= j < |revs|
    ensures !WrittenBetween(revs, revs[j], through)
  {
    forall q | q in revs && revs[j] < q
      ensures q > through
    {
      var x :| 0 <= x < |revs| && revs[x] == q;
      FirstAboveSplits(revs, through, x);
    }
  }

  lemma DroppedIsSuperseded(revs: seq<Revision>, through: Revision, j: nat)
    requires Ascending(revs) && j < KeepFrom(revs, through)
    ensures WrittenBetween(revs, revs[j], through)
  {
    var i := KeepFrom(revs, through);
    FirstAboveSplits(revs, through, i);
    assert revs[i] in revs && revs[j] < revs[i] <= through;
  }

  /** Compaction keeps exactly the revisions that no later one at or below the point supersedes. */
  lemma KeptExactly(k: KeyRevs, through: Revision, r: Revision)
    requires Ascending(k.revs)
    ensures r in CompactRevs(k, through).revs <==> r in k.revs && !WrittenBetween(k.revs, r, through)
  {
    hide WrittenBetween, FirstAbove, KeepFrom;
    var i := KeepFrom(k.revs, through);
    var kept := CompactRevs(k, through).revs;
    assert kept == k.revs[i..];
    if r in k.revs {
      var j :| 0 <= j < |k.revs| && k.revs[j] == r;
      if i <= j {
        assert kept[j - i] == r;
        KeptIsUnsuperseded(k.revs, through, j);
      } else {
        DroppedIsSuperseded(k.revs, through, j);
        assert forall x :: 0 <= x < |kept| ==> kept[x] == k.revs[i + x] > r;
      }
    }
  }

  lemma CompactShape(k: KeyRevs, through: Revision)
    requires k.revs != [] && Ascending(k.revs)
    ensures var kept := CompactRevs(k, through).revs;
            && kept != [] && Ascending(kept)
            && kept[|kept| - 1] == k.revs[|k.revs| - 1]
            && forall i :: 1 <= i < |kept| ==> kept[i] > through
  {
    var i := KeepFrom(k.revs, through);
    var kept := CompactRevs(k, through).revs;
    forall x | 1 <= x < |kept|
      ensures kept[x] > through
    {
      FirstAboveSplits(k.revs, through, i + x);
    }
  }

  /**
   Every read at or after the compaction point sees the same revision: for a
   key that stays, exactly; for a key that goes, its latest write at or below
   the read was the delete.
   */
  lemma CompactKeepsReads(k: KeyRevs, through: Revision, at: Revision)
    requires k.revs != [] && Ascending(k.revs) && through <= at
    ensures if Gone(k, through) then LatestAt(k.revs, at) == Some(k.revs[|k.revs| - 1])
            else LatestAt(CompactRevs(k, through).revs, at) == LatestAt(k.revs, at)
  {
    if !Gone(k, through) {
      CompactShape(k, through);
      hide CompactRevs, KeepFrom;
      var kept := CompactRevs(k, through).revs;
      forall r
        ensures r in kept <==> r in k.revs && !WrittenBetween(k.revs, r, through)
      {
        KeptExactly(k, through, r);
      }
      LatestIsMax(k.revs, at);
      if LatestAt(k.revs, at).Some? {
        LatestIs(kept, at, LatestAt(k.revs, at).value);
      }
    }
  }

  /**
   Below the compaction point a read of a key that stays is kept if and only
   if it saw nothing to begin with, or nothing was written between it and the
   point.
   */
  lemma CompactLosesReads(k: KeyRevs, through: Revision, at: Revision)
    requires k.revs != [] && Ascending(k.revs) && at < through && !Gone(k, through)
    ensures LatestAt(CompactRevs(k, through).revs, at) == LatestAt(k.revs, at)
            <==> LatestAt(k.revs, at).None? || !WrittenBetween(k.revs, at, through)
  {
    CompactShape(k, through);
    hide CompactRevs, KeepFrom;
    var kept := CompactRevs(k, through).revs;
    forall r
      ensures r in kept <==> r in k.revs && !WrittenBetween(k.revs, r, through)
    {
      KeptExactly(k, through, r);
    }
    LatestIsMax(k.revs, at);
    if LatestAt(k.revs, at).Some? && !WrittenBetween(k.revs, at, through) {
      LatestIs(kept, at, LatestAt(k.revs, at).value);
    }
  }

  lemma CompactTwiceMembers(k: KeyRevs, a: Revision, b: Revision, r: Revision)
    requires k.revs != [] && Ascending(k.revs) && a <= b
    ensures r in CompactRevs(CompactRevs(k, a), b).revs <==> r in CompactRevs(k, b).revs
  {
    var once := CompactRevs(k, a);
    CompactShape(k, a);
    KeptExactly(k, a, r);
    KeptExactly(k, b, r);
    KeptExactly(once, b, r);
    if r in k.revs {
      if WrittenBetween(k.revs, r, b) {
        LatestIsMax(k.revs, b);
        var q := LatestAt(k.revs, b).value;
        KeptExactly(k, a, q);
      } else if WrittenBetween(once.revs, r, b) {
        var q :| q in once.revs && r < q <= b;
        KeptExactly(k, a, q);
      }
    }
  }

  /** Compacting at `a` and later at `b` is compacting at `b`. */
  lemma CompactTwice(k: KeyRevs, a: Revision, b: Revision)
    requires k.revs != [] && Ascending(k.revs) && a <= b
    ensures Gone(k, a) ==> Gone(k, b)
    ensures !Gone(k, a) ==> (Gone(CompactRevs(k, a), b) <==> Gone(k, b))
    ensures CompactRevs(CompactRevs(k, a), b) == CompactRevs(k, b)
  {
    CompactShape(k, a);
    CompactShape(k, b);
    CompactShape(CompactRevs(k, a), b);
    forall r
      ensures r in CompactRevs(CompactRevs(k, a), b).revs <==> r in CompactRevs(k, b).revs
    {
      CompactTwiceMembers(k, a, b, r);
    }
    AscendingExt(CompactRevs(CompactRevs(k, a), b).revs, CompactRevs(k, b).revs);
  }

  /** The same for a whole index. */
  lemma IndexCompactTwice(ix: Index, a: Revision, b: Revision)
    requires a <= b
    requires forall k :: k in ix ==> ix[k].revs != [] && Ascending(ix[k].revs)
    ensures IndexCompact(IndexCompact(ix, a), b) == IndexCompact(ix, b)
  {
    forall k | k in ix
      ensures Gone(ix[k], a) ==> Gone(ix[k], b)
      ensures !Gone(ix[k], a) ==> (Gone(CompactRevs(ix[k], a), b) <==> Gone(ix[k], b))
      ensures CompactRevs(CompactRevs(ix[k], a), b) == CompactRevs(ix[k], b)
    {
      CompactTwice(ix[k], a, b);
    }
  }

  // ---------------------------------------------------------------------
  // The index of a log

  function IndexEvent(ix: Index, e: Event, revision: Revision): Index {
    IndexAdd(ix, e.kv.key, revision, e.typ == DELETE)
  }

  /** Apply the events of the record at `revision` to the index. */
  function IndexRecord(ix: Index, record: LogRecord, revision: Revision): Index
    decreases |record|
  {
    if record == [] then ix
    else
      var n := |record| - 1;
      IndexEvent(IndexRecord(ix, record[..n], revision), record[n], revision)
  }

  /** What a record does to the entry of one key. */
  lemma {:induction false} IndexRecordEntry(ix: Index, record: LogRecord, revision: Revision, key: Key)
    requires WritesOnce(record)
    ensures var ix' := IndexRecord(ix, record, revision);
            if Touches(record, key)
            then key in ix' && ix'[key] == KeyRevs(RevsOf(ix, key) + [revision], FindEvent(record, key).value.typ == DELETE)
            else (key in ix' <==> key in ix) && (key in ix ==> ix'[key] == ix[key])
    decreases |record|
  {
    if record != [] {
      var n := |record| - 1;
      var front := record[..n];
      IndexRecordEntry(ix, front, revision, key);
      FindEventSnoc(front, record[n], key);
      assert front + [record[n]] == record;
      hide IndexRecord, FindEvent;
      if record[n].kv.key == key {
        assert forall e :: e in front ==> e.kv.key != key;
      }
    }
  }

  lemma {:induction false} FindEventSnoc(record: LogRecord, e: Event, key: Key)
    ensures FindEvent(record + [e], key) ==
            if Touches(record, key) then FindEvent(record, key)
            else if e.kv.key == key then Some(e) else None
    decreases |record|
  {
    if record == [] {
      assert [e][1..] == [];
    } else {
      assert (record + [e])[1..] == record[1..] + [e];
      FindEventSnoc(record[1..], e, key);
    }
  }

  /**
   How one key's entry relates to the log, when the log has been applied up to
   `n` and the index compacted through `c`: it names writes of the key and, from
   its first on, every one of them; it misses none above `c`; at most one is at
   or below `c`; and if the key's last write at `c` is missing, that write was a
   delete.
   */
  ghost predicate EntryOk(revs: seq<Revision>, tombstone: bool, log: seq<LogRecord>, n: nat, c: nat, key: Key)
    requires c <= n <= |log|
  {
    && Ascending(revs)
    && (forall r :: r in revs ==> r <= n && WrittenAt(log, r, key))
    && (forall r, q :: q in revs && q <= r <= n && WrittenAt(log, r, key) ==> r in revs)
    && (forall r :: c < r <= n && WrittenAt(log, r, key) ==> r in revs)
    && (forall i :: 1 <= i < |revs| ==> revs[i] > c)
    && (var r := LastWrite(log, c, key); r > 0 && r !in revs ==> IsDelete(log, r, key))
    && (revs != [] ==> (tombstone <==> IsDelete(log, revs[|revs| - 1], key)))
  }

  ghost predicate IsDelete(log: seq<LogRecord>, r: Revision, key: Key) {
    WrittenAt(log, r, key) && FindEvent(log[r - 1], key).value.typ == DELETE
  }

  /** At most one revision of an entry is at or below the compaction point. */
  lemma OneBelowPoint(revs: seq<Revision>, c: Revision)
    requires Ascending(revs) && forall i :: 1 <= i < |revs| ==> revs[i] > c
    ensures forall q, w :: q in revs && w in revs && q < w ==> w > c
  {
    forall q, w | q in revs && w in revs && q < w
      ensures w > c
    {
      var i :| 0 <= i < |revs| && revs[i] == w;
      var j :| 0 <= j < |revs| && revs[j] == q;
      assert j < i;
    }
  }

  predicate TombstoneOf(ix: Index, key: Key) {
    key in ix && ix[key].tombstone
  }

  ghost predicate KeyOk(ix: Index, log: seq<LogRecord>, n: nat, c: nat, key: Key)
    requires c <= n <= |log|
  {
    && (key in ix ==> ix[key].revs != [])
    && EntryOk(RevsOf(ix, key), TombstoneOf(ix, key), log, n, c, key)
  }

  ghost predicate IndexOk(ix: Index, log: seq<LogRecord>, n: nat, c: nat)
    requires c <= n <= |log|
  {
    forall k: Key :: KeyOk(ix, log, n, c, k)
  }

  lemma EmptyIndexOk(log: seq<LogRecord>)
    ensures IndexOk(map[], log, 0, 0)
  {
  }

  lemma AddKeepsEntry(revs: seq<Revision>, tombstone: bool, log: seq<LogRecord>, n: nat, c: nat, key: Key)
    requires c <= n < |log| && EntryOk(revs, tombstone, log, n, c, key)
    ensures if WrittenAt(log, n + 1, key) then EntryOk(revs + [n + 1], IsDelete(log, n + 1, key), log, n + 1, c, key)
            else EntryOk(revs, tombstone, log, n + 1, c, key)
  {
    if WrittenAt(log, n + 1, key) {
      var revs' := revs + [n + 1];
      assert forall i :: 0 <= i < |revs| ==> revs[i] in revs;
      assert forall r :: r in revs' <==> r in revs || r == n + 1;
    }
  }

  /** Applying the next record keeps the index in step with the log. */
  lemma ApplyKeepsIndex(ix: Index, log: seq<LogRecord>, n: nat, c: nat)
    requires c <= n < |log| && IndexOk(ix, log, n, c) && WritesOnce(log[n])
    ensures IndexOk(IndexRecord(ix, log[n], n + 1), log, n + 1, c)
  {
    var n' := n + 1;
    var ix' := IndexRecord(ix, log[n], n');
    forall k: Key
      ensures KeyOk(ix', log, n', c, k)
    {
      assert KeyOk(ix, log, n, c, k);
      IndexRecordEntry(ix, log[n], n', k);
      AddKeepsEntry(RevsOf(ix, k), TombstoneOf(ix, k), log, n, c, k);
    }
  }

  lemma LogGrowthKeepsEntry(revs: seq<Revision>, tombstone: bool, log: seq<LogRecord>, more: seq<LogRecord>, n: nat,
                            c: nat, key: Key)
    requires c <= n <= |log| && EntryOk(revs, tombstone, log, n, c, key)
    ensures EntryOk(revs, tombstone, log + more, n, c, key)
  {
    PrefixStable(log, more, c, key);
    assert forall r: Revision :: r <= n ==> (WrittenAt(log + more, r, key) <==> WrittenAt(log, r, key));
    assert forall r: Revision :: r <= n ==> (IsDelete(log + more, r, key) <==> IsDelete(log, r, key));
    assert forall i :: 0 <= i < |revs| ==> revs[i] in revs;
  }

  lemma LogGrowthKeepsIndex(ix: Index, log: seq<LogRecord>, more: seq<LogRecord>, n: nat, c: nat)
    requires c <= n <= |log| && IndexOk(ix, log, n, c)
    ensures IndexOk(ix, log + more, n, c)
  {
    var log' := log + more;
    forall k: Key
      ensures KeyOk(ix, log', n, c, k)
    {
      assert KeyOk(ix, log, n, c, k);
      LogGrowthKeepsEntry(RevsOf(ix, k), TombstoneOf(ix, k), log, more, n, c, k);
    }
  }

  /** A key that compaction removes was deleted at the point, and written nowhere above it. */
  lemma GoneIsDeleted(k: KeyRevs, log: seq<LogRecord>, n: nat, c: nat, through: nat, key: Key)
    requires c <= through <= n <= |log| && EntryOk(k.revs, k.tombstone, log, n, c, key)
    requires Gone(k, through)
    ensures EntryOk([], false, log, n, through, key)
  {
    var r := k.revs[|k.revs| - 1];
    assert r in k.revs;
    forall q | r < q <= n
      ensures !WrittenAt(log, q, key)
    {
      if q in k.revs {
        LastIsMax(k.revs, q);
      }
    }
    LastWriteIs(log, through, key, r);
  }

  lemma TrimKeepsEntry(k: KeyRevs, log: seq<LogRecord>, n: nat, c: nat, through: nat, key: Key)
    requires c <= through <= n <= |log| && EntryOk(k.revs, k.tombstone, log, n, c, key)
    requires k.revs != []
    ensures EntryOk(CompactRevs(k, through).revs, k.tombstone, log, n, through, key)
  {
    var kept := CompactRevs(k, through).revs;
    CompactShape(k, through);
    forall r
      ensures r in kept <==> r in k.revs && !WrittenBetween(k.revs, r, through)
    {
      KeptExactly(k, through, r);
    }
    TrimKeepsClosure(k.revs, kept, log, n, through, key);
    TrimKeepsLast(k.revs, k.tombstone, kept, log, n, c, through, key);
  }

  lemma TrimKeepsClosure(revs: seq<Revision>, kept: seq<Revision>, log: seq<LogRecord>, n: nat, through: nat, key: Key)
    requires forall r :: r in kept <==> r in revs && !WrittenBetween(revs, r, through)
    requires forall r, q :: q in revs && q <= r <= n && WrittenAt(log, r, key) ==> r in revs
    ensures forall r, q :: q in kept && q <= r <= n && WrittenAt(log, r, key) ==> r in kept
  {
  }

  lemma TrimKeepsLast(revs: seq<Revision>, tombstone: bool, kept: seq<Revision>, log: seq<LogRecord>, n: nat, c: nat,
                      through: nat, key: Key)
    requires c <= through <= n <= |log| && EntryOk(revs, tombstone, log, n, c, key)
    requires forall r :: r in kept <==> r in revs && !WrittenBetween(revs, r, through)
    ensures var r := LastWrite(log, through, key);
            r > 0 && r !in kept ==> IsDelete(log, r, key)
  {
    var r := LastWrite(log, through, key);
    if r > 0 {
      if r in revs {
        assert forall q :: q in revs && r < q ==> q > through;
      } else {
        LastWriteMonotone(log, c, through, key);
      }
    }
  }

  /** Compacting further keeps the index in step with the log. */
  lemma CompactKeepsIndex(ix: Index, log: seq<LogRecord>, n: nat, c: nat, through: nat)
    requires c <= through <= n <= |log| && IndexOk(ix, log, n, c)
    ensures IndexOk(IndexCompact(ix, through), log, n, through)
  {
    forall k: Key
      ensures KeyOk(IndexCompact(ix, through), log, n, through, k)
    {
      assert KeyOk(ix, log, n, c, k);
      if k !in ix {
        AbsentStaysAbsent(log, n, c, through, k);
      } else if Gone(ix[k], through) {
        GoneIsDeleted(ix[k], log, n, c, through, k);
      } else {
        CompactShape(ix[k], through);
        TrimKeepsEntry(ix[k], log, n, c, through, k);
      }
    }
  }

  lemma AbsentStaysAbsent(log: seq<LogRecord>, n: nat, c: nat, through: nat, key: Key)
    requires c <= through <= n <= |log| && EntryOk([], false, log, n, c, key)
    ensures EntryOk([], false, log, n, through, key)
  {
    LastWriteMonotone(log, c, through, key);
  }

  /** A revision the index names is the key's true last write at the snapshot. */
  lemma FoundIsLastWrite(revs: seq<Revision>, tombstone: bool, log: seq<LogRecord>, n: nat, c: nat, key: Key, at: nat)
    requires c <= n <= |log| && at <= n && EntryOk(revs, tombstone, log, n, c, key)
    requires LatestAt(revs, at).Some?
    ensures LastWrite(log, at, key) == LatestAt(revs, at).value
  {
    LatestIsMax(revs, at);
    LastWriteIs(log, at, key, LatestAt(revs, at).value);
  }

  /**
   A key the index does not know at the snapshot was never written by then, or
   deleted, or the snapshot lies below the compaction point and the key was
   written between the two.
   */
  lemma AbsentIsExplained(revs: seq<Revision>, tombstone: bool, log: seq<LogRecord>, n: nat, c: nat, key: Key, at: nat)
    requires c <= n <= |log| && at <= n && EntryOk(revs, tombstone, log, n, c, key)
    requires LatestAt(revs, at).None?
    ensures var r := LastWrite(log, at, key);
            r == 0 || IsDelete(log, r, key) || (at < c && at < LastWrite(log, c, key))
  {
    if at < c {
      LastWriteMonotone(log, at, c, key);
    } else {
      LastWriteMonotone(log, c, at, key);
    }
  }
}
