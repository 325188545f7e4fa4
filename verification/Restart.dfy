/**
 Restarting on a compacted log. A new process replays what is left of the log
 into a fresh index; this file says when what it then sees is what the old
 process saw.
 */
module Restart {
  import opened Bytes
  import opened Records
  import opened KeyIndex
  import opened Listing
  import opened Mvcc
  import opened System

  /** The log as a new process reads it: a dropped record tells it nothing. */
  function Thin(log: seq<LogRecord>, dropped: set<Revision>): (r: seq<LogRecord>)
    ensures |r| == |log|
    ensures forall i :: 0 <= i < |r| ==> r[i] == if i + 1 in dropped then [] else log[i]
  {
    seq(|log|, i requires 0 <= i < |log| => if i + 1 in dropped then [] else log[i])
  }

  /** The index after replaying the first `n` records. */
  function Replay(log: seq<LogRecord>, n: nat): Index
    requires n <= |log|
  {
    if n == 0 then map[] else IndexRecord(Replay(log, n - 1), log[n - 1], n)
  }

  lemma {:induction false} ReplayIsIndex(log: seq<LogRecord>, n: nat)
    requires n <= |log| && LogOk(log)
    ensures IndexOk(Replay(log, n), log, n, 0)
  {
    if n == 0 {
      EmptyIndexOk(log);
    } else {
      ReplayIsIndex(log, n - 1);
      assert RecordOk(log[n - 1], n);
      ApplyKeepsIndex(Replay(log, n - 1), log, n - 1, 0);
    }
  }

  lemma ThinLogOk(log: seq<LogRecord>, dropped: set<Revision>)
    requires LogOk(log)
    ensures LogOk(Thin(log, dropped))
  {
    var thin := Thin(log, dropped);
    forall i | 0 <= i < |thin|
      ensures RecordOk(thin[i], i + 1)
    {
      assert RecordOk(log[i], i + 1);
    }
  }

  /** A new process on what is left of the log starts in a proper state. */
  lemma RestartIsStart(log: seq<LogRecord>, dropped: set<Revision>, leases: set<int>)
    requires LogOk(log)
    ensures var thin := Thin(log, dropped);
            Inv(Start(thin, Replay(thin, |thin|), leases))
  {
    var thin := Thin(log, dropped);
    ThinLogOk(log, dropped);
    ReplayIsIndex(thin, |thin|);
    StartInv(thin, Replay(thin, |thin|), leases);
  }

  /** Every key that is live at `through` still has its record. */
  ghost predicate LiveKept(log: seq<LogRecord>, dropped: set<Revision>, through: nat)
    requires through <= |log|
  {
    && (forall r :: r in dropped ==> r <= through)
    && forall k: Key :: LastWrite(log, through, k) in dropped ==> IsDelete(log, LastWrite(log, through, k), k)
  }

  /** A put that outlived the delete that followed it. */
  ghost predicate Orphaned(log: seq<LogRecord>, dropped: set<Revision>, through: nat, key: Key)
    requires through <= |log|
  {
    && LastWrite(log, through, key) in dropped
    && var q := LastWrite(Thin(log, dropped), through, key);
       q > 0 && !IsDelete(Thin(log, dropped), q, key)
  }

  lemma ThinWritten(log: seq<LogRecord>, dropped: set<Revision>, r: Revision, key: Key)
    ensures WrittenAt(Thin(log, dropped), r, key) <==> WrittenAt(log, r, key) && r !in dropped
    ensures WrittenAt(log, r, key) && r !in dropped ==> Thin(log, dropped)[r - 1] == log[r - 1]
  {
  }

  lemma ThinLastWrite(log: seq<LogRecord>, dropped: set<Revision>, n: nat, key: Key)
    requires n <= |log| && LastWrite(log, n, key) !in dropped
    ensures LastWrite(Thin(log, dropped), n, key) == LastWrite(log, n, key)
  {
    var thin := Thin(log, dropped);
    forall q | 0 < q <= |log|
      ensures WrittenAt(thin, q, key) <==> WrittenAt(log, q, key) && q !in dropped
    {
      ThinWritten(log, dropped, q, key);
    }
    LastWriteIs(thin, n, key, LastWrite(log, n, key));
  }

  /** Past the point, both logs write the key at the same revisions. */
  lemma ThinTail(log: seq<LogRecord>, dropped: set<Revision>, through: nat, n: nat, key: Key)
    requires through <= n <= |log| && LiveKept(log, dropped, through)
    requires LastWrite(log, n, key) in dropped
    ensures LastWrite(log, n, key) == LastWrite(log, through, key)
    ensures LastWrite(Thin(log, dropped), n, key) == LastWrite(Thin(log, dropped), through, key)
  {
    var thin := Thin(log, dropped);
    LastWriteMonotone(log, through, n, key);
    forall q | through < q <= n
      ensures !WrittenAt(thin, q, key)
    {
      ThinWritten(log, dropped, q, key);
    }
    LastWriteIs(thin, n, key, LastWrite(thin, through, key));
  }

  /** What a lookup in either log comes to. */
  lemma ThinState(log: seq<LogRecord>, dropped: set<Revision>, n: nat, key: Key)
    requires n <= |log| && LogOk(log)
    ensures var r := LastWrite(log, n, key);
            Lookup(StateAt(log, n), key) == if r == 0 then None else EventValue(FindEvent(log[r - 1], key).value)
    ensures var thin := Thin(log, dropped);
            var q := LastWrite(thin, n, key);
            Lookup(StateAt(thin, n), key) == if q == 0 then None else EventValue(FindEvent(thin[q - 1], key).value)
  {
    hide LogOk, FindEvent, StateAt, Thin, LastWrite;
    ThinLogOk(log, dropped);
    LogOkWritesOnce(log, n);
    LogOkWritesOnce(Thin(log, dropped), n);
    StateIsLastWrite(log, n, key);
    StateIsLastWrite(Thin(log, dropped), n, key);
  }

  lemma KeyKept(log: seq<LogRecord>, dropped: set<Revision>, n: nat, key: Key)
    requires n <= |log| && LogOk(log) && LastWrite(log, n, key) !in dropped
    ensures Lookup(StateAt(Thin(log, dropped), n), key) == Lookup(StateAt(log, n), key)
  {
    hide LogOk, FindEvent, StateAt, LastWrite;
    ThinState(log, dropped, n, key);
    ThinLastWrite(log, dropped, n, key);
  }

  lemma KeyDropped(log: seq<LogRecord>, dropped: set<Revision>, through: nat, n: nat, key: Key)
    requires through <= n <= |log| && LogOk(log) && LiveKept(log, dropped, through) && LastWrite(log, n, key) in dropped
    ensures Lookup(StateAt(log, n), key).None?
    ensures Lookup(StateAt(Thin(log, dropped), n), key).None? <==> !Orphaned(log, dropped, through, key)
  {
    hide LogOk, FindEvent, StateAt, LastWrite, Thin;
    ThinState(log, dropped, n, key);
    ThinTail(log, dropped, through, n, key);
  }

  lemma KeySurvives(log: seq<LogRecord>, dropped: set<Revision>, through: nat, n: nat, key: Key)
    requires through <= n <= |log| && LogOk(log) && LiveKept(log, dropped, through)
    ensures LastWrite(log, n, key) !in dropped ==>
              Lookup(StateAt(Thin(log, dropped), n), key) == Lookup(StateAt(log, n), key)
    ensures LastWrite(log, n, key) in dropped ==>
              && Lookup(StateAt(log, n), key).None?
              && (Lookup(StateAt(Thin(log, dropped), n), key).None? <==> !Orphaned(log, dropped, through, key))
  {
    hide *;
    if LastWrite(log, n, key) in dropped {
      KeyDropped(log, dropped, through, n, key);
    } else {
      KeyKept(log, dropped, n, key);
    }
  }

  /** The new process sees, at every revision from `through` on, what the old one saw. */
  ghost predicate SameFrom(log: seq<LogRecord>, dropped: set<Revision>, through: nat)
    requires through <= |log|
  {
    forall n, k: Key :: through <= n <= |log| ==> SameAt(log, dropped, n, k)
  }

  ghost predicate SameAt(log: seq<LogRecord>, dropped: set<Revision>, n: nat, key: Key)
    requires n <= |log|
  {
    Lookup(StateAt(Thin(log, dropped), n), key) == Lookup(StateAt(log, n), key)
  }

  /** The store of a new process on what is left of the log. */
  ghost function NewView(log: seq<LogRecord>, dropped: set<Revision>, leases: set<int>): View {
    var thin := Thin(log, dropped);
    Start(thin, Replay(thin, |thin|), leases).view
  }

  /** What a lookup in the new process returns is what is left of the log. */
  lemma NewLookup(log: seq<LogRecord>, dropped: set<Revision>, leases: set<int>, n: nat, key: Key)
    requires LogOk(log) && n <= |log|
    ensures Visible(Observe(NewView(log, dropped, leases), key, n)) == Lookup(StateAt(Thin(log, dropped), n), key)
  {
    hide Inv, StateAt, Observe, LogOk, Replay;
    RestartIsStart(log, dropped, leases);
    var thin := Thin(log, dropped);
    InvView(Start(thin, Replay(thin, |thin|), leases));
    ReadIsExact(NewView(log, dropped, leases), key, n);
  }

  /** Lookups in the new process, at every revision from `through` on, return what the log said before it was compacted. */
  ghost predicate ReadsSame(log: seq<LogRecord>, dropped: set<Revision>, leases: set<int>, through: nat)
    requires through <= |log|
  {
    forall n: nat, k: Key :: through <= n <= |log| ==> ReadsSameAt(log, dropped, leases, n, k)
  }

  ghost predicate ReadsSameAt(log: seq<LogRecord>, dropped: set<Revision>, leases: set<int>, n: nat, key: Key)
    requires n <= |log|
  {
    Visible(Observe(NewView(log, dropped, leases), key, n)) == Lookup(StateAt(log, n), key)
  }

  lemma ReadsAreSame(log: seq<LogRecord>, dropped: set<Revision>, leases: set<int>, through: nat)
    requires LogOk(log) && through <= |log|
    ensures ReadsSame(log, dropped, leases, through) <==> SameFrom(log, dropped, through)
  {
    hide NewView, Observe, StateAt, LogOk, Thin;
    forall n: nat, k: Key | through <= n <= |log|
      ensures ReadsSameAt(log, dropped, leases, n, k) <==> SameAt(log, dropped, n, k)
    {
      NewLookup(log, dropped, leases, n, k);
    }
  }

  /**
   A restart loses and revives nothing at or above the compaction point if and
   only if no put is left behind by a dropped delete.
   */
  lemma RestartIsExact(log: seq<LogRecord>, dropped: set<Revision>, through: nat, leases: set<int>)
    requires through <= |log| && LogOk(log) && LiveKept(log, dropped, through)
    ensures ReadsSame(log, dropped, leases, through) <==> forall k: Key :: !Orphaned(log, dropped, through, k)
  {
    hide LogOk, LiveKept, StateAt, Orphaned, ReadsSame;
    ReadsAreSame(log, dropped, leases, through);
    forall n, k: Key | through <= n <= |log| && !Orphaned(log, dropped, through, k)
      ensures SameAt(log, dropped, n, k)
    {
      KeySurvives(log, dropped, through, n, k);
    }
    forall k: Key | SameAt(log, dropped, through, k)
      ensures !Orphaned(log, dropped, through, k)
    {
      KeySurvives(log, dropped, through, through, k);
      OrphanIsDropped(log, dropped, through, k);
    }
  }

  lemma OrphanIsDropped(log: seq<LogRecord>, dropped: set<Revision>, through: nat, key: Key)
    requires through <= |log|
    ensures Orphaned(log, dropped, through, key) ==> LastWrite(log, through, key) in dropped
  {
  }

  // ---------------------------------------------------------------------
  // In a running system

  /** What a running system has dropped leaves every live key its record. */
  lemma SystemKeepsLive(v: View)
    requires ViewOk(v)
    ensures LiveKept(v.log, v.dropped, v.compacted)
  {
    forall k: Key | LastWrite(v.log, v.compacted, k) in v.dropped
      ensures IsDelete(v.log, LastWrite(v.log, v.compacted, k), k)
    {
      assert KeyOk(v.index, v.log, v.applied, v.compacted, k);
    }
  }

  ghost predicate OneEvent(log: seq<LogRecord>) {
    forall i :: 0 <= i < |log| ==> |log[i]| <= 1
  }

  /** Log compaction has finished with every file up to revision `e`: nothing dead is left there, and nothing after it was dropped. */
  ghost predicate Rewritten(v: View, e: Revision) {
    && e <= v.compacted
    && (forall r :: r in v.dropped ==> r <= e)
    && (forall r: Revision :: r <= e && MayDrop(v, v.compacted, r) ==> r in v.dropped || v.log[r - 1] == [])
  }

  /** A write that a dropped one follows is no longer in the index. */
  lemma SupersededIsDead(v: View, key: Key, q: Revision, r: Revision)
    requires ViewOk(v) && OneEvent(v.log) && q < r && r in v.dropped
    requires WrittenAt(v.log, q, key) && WrittenAt(v.log, r, key)
    ensures MayDrop(v, v.compacted, q)
  {
    hide LogOk;
    assert KeyOk(v.index, v.log, v.applied, v.compacted, key);
    assert r !in RevsOf(v.index, key);
    assert q !in RevsOf(v.index, key);
    assert |v.log[q - 1]| <= 1;
    assert v.log[q - 1] == [FindEvent(v.log[q - 1], key).value];
  }

  /** With one event a record, a finished compaction leaves no put behind. */
  lemma RewrittenLeavesNoOrphan(v: View, e: Revision, key: Key)
    requires ViewOk(v) && OneEvent(v.log) && Rewritten(v, e)
    ensures !Orphaned(v.log, v.dropped, v.compacted, key)
  {
    hide OneEvent, IndexOk, LogOk, MayDrop;
    var thin := Thin(v.log, v.dropped);
    var r, q := LastWrite(v.log, v.compacted, key), LastWrite(thin, v.compacted, key);
    if r in v.dropped && q > 0 {
      ThinWritten(v.log, v.dropped, q, key);
      assert q < r;
      SupersededIsDead(v, key, q, r);
    }
  }

  /**
   Restart after compaction: with one event a record and compaction finished
   up to some file boundary, every lookup in a new process, at every revision at
   or above the compaction point, returns what the log says, and what the old
   process returned.
   */
  lemma RestartAfterCompaction(v: View, e: Revision, leases: set<int>)
    requires ViewOk(v) && OneEvent(v.log) && Rewritten(v, e)
    ensures ReadsSame(v.log, v.dropped, leases, v.compacted)
    ensures forall n: nat, k: Key :: v.compacted <= n <= v.applied ==>
              Visible(Observe(NewView(v.log, v.dropped, leases), k, n)) == Visible(Observe(v, k, n))
  {
    hide ReadsSame, Orphaned, LiveKept, OneEvent, Rewritten, NewView, Observe, IndexOk, LogOk, Joined;
    SystemKeepsLive(v);
    forall k: Key
      ensures !Orphaned(v.log, v.dropped, v.compacted, k)
    {
      RewrittenLeavesNoOrphan(v, e, k);
    }
    RestartIsExact(v.log, v.dropped, v.compacted, leases);
    forall n: nat, k: Key | v.compacted <= n <= v.applied
      ensures Visible(Observe(NewView(v.log, v.dropped, leases), k, n)) == Visible(Observe(v, k, n))
    {
      ReadSame(v.log, v.dropped, leases, v.compacted, n, k);
      ReadIsExact(v, k, n);
    }
  }

  lemma ReadSame(log: seq<LogRecord>, dropped: set<Revision>, leases: set<int>, through: nat, n: nat, key: Key)
    requires through <= n <= |log| && ReadsSame(log, dropped, leases, through)
    ensures Visible(Observe(NewView(log, dropped, leases), key, n)) == Lookup(StateAt(log, n), key)
  {
    assert ReadsSameAt(log, dropped, leases, n, key);
  }

  // ---------------------------------------------------------------------
  // A run that revives a key

  lemma OneEventIndexed(ix: Index, e: Event, r: Revision)
    ensures IndexRecord(ix, [e], r) == IndexEvent(ix, e, r)
  {
    assert [e][..0] == [];
  }

  lemma TwoEventsIndexed(ix: Index, a: Event, b: Event, r: Revision)
    ensures IndexRecord(ix, [a, b], r) == IndexEvent(IndexEvent(ix, a, r), b, r)
  {
    assert [a, b][..1] == [a];
    OneEventIndexed(ix, a, r);
  }

  function TwoKeys(k: Key, j: Key): seq<LogRecord> {
    var a, b := KeyValue(k, [], 1, 1, 1, 0), KeyValue(j, [], 1, 1, 1, 0);
    [[Event(PUT, a, None), Event(PUT, b, None)], [Event(DELETE, KeyValue(k, [], 0, 2, 0, 0), Some(a))]]
  }

  lemma TwoKeysReplayed(k: Key, j: Key)
    requires k != j
    ensures LogOk(TwoKeys(k, j))
    ensures Replay(TwoKeys(k, j), 2) == map[k := KeyRevs([1, 2], true), j := KeyRevs([1], false)]
  {
    var log := TwoKeys(k, j);
    assert RecordOk(log[0], 1) && RecordOk(log[1], 2);
    TwoEventsIndexed(map[], log[0][0], log[0][1], 1);
    assert Replay(log, 0) == map[];
    var none: seq<Revision> := [];
    assert none + [1] == [1];
    assert IndexEvent(map[], log[0][0], 1) == map[k := KeyRevs([1], false)];
    assert Replay(log, 1) == map[k := KeyRevs([1], false), j := KeyRevs([1], false)];
    OneEventIndexed(Replay(log, 1), log[1][0], 2);
    assert [1 as Revision] + [2] == [1, 2];
  }

  lemma TwoKeysCompacted(k: Key, j: Key)
    requires k != j
    ensures IndexCompact(Replay(TwoKeys(k, j), 2), 2) == map[j := KeyRevs([1], false)]
  {
    TwoKeysReplayed(k, j);
    var ix := Replay(TwoKeys(k, j), 2);
    assert Gone(ix[k], 2) && !Gone(ix[j], 2);
    var revs: seq<Revision> := [1];
    assert revs[1..] == [] && FirstAbove(revs, 2) == 1 && KeepFrom(revs, 2) == 0 && revs[0..] == revs;
  }

  /** What is left of the two records once the second is dropped: the deleted key is back. */
  lemma TwoKeysThinned(k: Key, j: Key)
    requires k != j
    ensures k !in StateAt(TwoKeys(k, j), 2) && k in StateAt(Thin(TwoKeys(k, j), {2}), 2)
  {
    var log := TwoKeys(k, j);
    var thin := Thin(log, {2});
    assert thin == [log[0], []];
    assert log[0][1..] == [log[0][1]] && [log[0][1]][1..] == [] && log[1][1..] == [];
    assert StateAt(log, 0) == StateAt(thin, 0) == map[];
    var st := ApplyRecord(map[], log[0]);
    assert st == ApplyRecord(ApplyEvent(map[], log[0][0]), [log[0][1]]);
    assert ApplyRecord(ApplyEvent(map[], log[0][0]), [log[0][1]]) == ApplyRecord(ApplyEvent(ApplyEvent(map[], log[0][0]),
        log[0][1]), []);
    assert StateAt(log, 1) == StateAt(thin, 1) == st && k in st;
    assert ApplyRecord(st, log[1]) == ApplyRecord(ApplyEvent(st, log[1][0]), []);
    assert ApplyRecord(st, []) == st;
  }

  /** A process on the two records that compacts through the second, and then lets the log drop it. */
  ghost function RevivingRun(k: Key, j: Key, leases: set<int>): seq<Sys> {
    var s0 := Start(TwoKeys(k, j), Replay(TwoKeys(k, j), 2), leases);
    var s1 := s0.(view := CompactView(s0.view, 2), rewrites := {2});
    [s0, s1, s1.(view := s1.view.(dropped := {2}))]
  }

  lemma RevivingDrops(k: Key, j: Key, leases: set<int>)
    requires k != j
    ensures var v := RevivingRun(k, j, leases)[1].view;
            MayDrop(v, 2, 2) && !MayDrop(v, 2, 1)
  {
    hide Replay, IndexCompact;
    TwoKeysCompacted(k, j);
    var v, log := RevivingRun(k, j, leases)[1].view, TwoKeys(k, j);
    assert Live(v.index, j, 2, 1) by {
      assert LatestAt([1], 2) == Some(1);
    }
    assert log[0][1] in log[0];
  }

  lemma RevivingIsRun(k: Key, j: Key, leases: set<int>)
    requires k != j
    ensures IsRun(RevivingRun(k, j, leases), [DoCompact(2), DoDrop(2, 2)])
  {
    hide Replay, IndexCompact, MayDrop, IndexOk, LogOk;
    var run, actions := RevivingRun(k, j, leases), [DoCompact(2), DoDrop(2, 2)];
    TwoKeysReplayed(k, j);
    ReplayIsIndex(TwoKeys(k, j), 2);
    RevivingDrops(k, j, leases);
    var none: set<Revision> := {};
    assert none + {2} == {2};
    assert CompactPoint([], Min(2, 2)) == 2;
    assert CompactStep(run[0], run[1], 2);
    assert DropStep(run[1], run[2], 2, 2);
    forall i | 0 <= i < |actions|
      ensures Next(run[i], actions[i], run[i + 1])
    {
      assert i == 0 || i == 1;
    }
  }

  /**
   A put that is kept for another key of its record comes back once the delete
   that followed it is dropped: the store compacts through the delete, which
   lets the log drop it but not the put, and a process started on what is left
   finds the key again.
   */
  lemma RevivedKey(k: Key, j: Key, leases: set<int>)
    requires k != j
    ensures var run := RevivingRun(k, j, leases);
            && IsRun(run, [DoCompact(2), DoDrop(2, 2)])
            && MayDrop(run[1].view, 2, 2) && !MayDrop(run[1].view, 2, 1)
            && var v := run[2].view;
               && v.log == TwoKeys(k, j) && v.dropped == {2} && v.compacted == v.applied == 2
               && Visible(Observe(v, k, 2)).None?
               && Visible(Observe(NewView(v.log, v.dropped, leases), k, 2)).Some?
  {
    hide Replay, IndexCompact, MayDrop, IsRun, LogOk, NewView, StateAt;
    RevivingIsRun(k, j, leases);
    RevivingDrops(k, j, leases);
    TwoKeysCompacted(k, j);
    TwoKeysReplayed(k, j);
    TwoKeysThinned(k, j);
    NewLookup(TwoKeys(k, j), {2}, leases, 2, k);
  }
}
