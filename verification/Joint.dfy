/**
 The store and its files together: what the file log drops when the store asks
 it to compact is what the store allows, and once it is done a process started
 on the files returns what this one did.
 */
module Joint {
  import opened Bytes
  import opened Records
  import opened KeyIndex
  import opened Listing
  import opened Mvcc
  import opened System
  import Restart
  import opened LogCodec
  import opened LogFiles
  import opened FileIndex
  import opened Compaction

  /** An event as it is written to a file. */
  function ToWire(e: Event): WireEvent {
    WireEvent(if e.typ == PUT then 0 else 1, Some(e.kv), e.prevKv)
  }

  function RecordToWire(record: LogRecord): (r: WireRecord)
    ensures |r| == |record| && forall i :: 0 <= i < |r| ==> r[i] == ToWire(record[i])
  {
    seq(|record|, i requires 0 <= i < |record| => ToWire(record[i]))
  }

  /** The log as the files hold it. */
  function LogToWire(log: seq<LogRecord>): (r: seq<WireRecord>)
    ensures |r| == |log| && forall i :: 0 <= i < |r| ==> r[i] == RecordToWire(log[i])
  {
    seq(|log|, i requires 0 <= i < |log| => RecordToWire(log[i]))
  }

  /** At each moment the run is in one of its states, and it does not go back. */
  ghost predicate Clock(run: seq<Sys>, at: nat -> nat) {
    && (forall t: nat :: at(t) < |run|)
    && (forall t: nat, u: nat :: t <= u ==> at(t) <= at(u))
  }

  lemma ClockAt(run: seq<Sys>, at: nat -> nat, t: nat, u: nat)
    requires Clock(run, at) && t <= u
    ensures at(t) <= at(u) < |run|
  {
  }

  /** What the store answers the file log at each moment: is this record the key's state as of the point? */
  ghost predicate Answers(live: Ask, run: seq<Sys>, at: nat -> nat, through: Revision) {
    Clock(run, at) && forall t: nat, key: Key, r: nat :: live(t, key, r) == Live(run[at(t)].view.index, key, through, r)
  }

  lemma AnswerAt(live: Ask, run: seq<Sys>, at: nat -> nat, through: Revision, t: nat, key: Key, r: nat)
    requires Answers(live, run, at, through)
    ensures at(t) < |run| && live(t, key, r) == Live(run[at(t)].view.index, key, through, r)
  {
    hide Live;
    ClockAt(run, at, t, t);
  }

  /**
   The files hold the log of the store: what had been dropped when they were
   opened the store never saw, and what has been dropped since it knows about.
   */
  ghost predicate Backs(history: seq<LogRecord>, found: set<Revision>, dropped: set<Revision>, v: View) {
    && v.log == Restart.Thin(history, found) && found <= dropped && v.dropped == dropped - found
  }

  // ---------------------------------------------------------------------
  // Every drop is allowed

  lemma DeadKeyStays(live: Ask, run: seq<Sys>, actions: seq<Action>, at: nat -> nat, through: Revision, t0: nat, t: nat,
                     j: nat, key: Key, r: Revision)
    requires IsRun(run, actions) && Answers(live, run, at, through) && j < |run| && at(t) <= j && r <= through
    requires at(t0) < |run| && through <= run[at(t0)].view.compacted
    requires DeadBetween(key, r, live, t0, t)
    ensures !Live(run[j].view.index, key, through, r)
  {
    hide IsRun, Live, Answers;
    var u: nat :| t0 <= u < t && !live(u, key, r);
    AnswerAt(live, run, at, through, u, key, r);
    Ticks(live, run, at, through, t0, u);
    Ticks(live, run, at, through, u, t);
    RunGrows(run, actions, at(t0), at(u));
    DeadForGood(run, actions, at(u), j, key, through, r);
  }

  lemma Ticks(live: Ask, run: seq<Sys>, at: nat -> nat, through: Revision, t: nat, u: nat)
    requires Answers(live, run, at, through) && t <= u
    ensures at(t) <= at(u) < |run|
  {
    ClockAt(run, at, t, u);
  }

  /**
   Whatever the file log drops, the store allows, now and later: each drop is
   a step of the system, although liveness was asked record by record while the
   index went on changing.
   */
  lemma DropsAreAllowed(run: seq<Sys>, actions: seq<Action>, at: nat -> nat, j: nat, history: seq<LogRecord>,
                        found: set<Revision>, job: Job, dropped: set<nat>, t: nat, r: Revision)
    requires IsRun(run, actions) && Answers(job.live, run, at, job.through) && j < |run| && at(t) <= j
    requires at(job.t0) < |run| && job.through <= run[at(job.t0)].view.compacted
    requires job.log <= LogToWire(history) && run[j].view.log == Restart.Thin(history, found) && found <= job.had
    requires OnlyDead(job, dropped, t) && r in dropped && r !in job.had
    ensures MayDrop(run[j].view, job.through, r)
  {
    hide IsRun, Live, Answers;
    var v := run[j].view;
    assert WasDead(job, r, t);
    assert v.log[r - 1] == history[r - 1] && job.log[r - 1] == RecordToWire(history[r - 1]);
    forall e | e in v.log[r - 1]
      ensures !Live(v.index, e.kv.key, job.through, r)
    {
      var i :| 0 <= i < |v.log[r - 1]| && v.log[r - 1][i] == e;
      assert job.log[r - 1][i] == ToWire(e);
      DeadKeyStays(job.live, run, actions, at, job.through, job.t0, t, j, e.kv.key, r);
    }
  }

  // ---------------------------------------------------------------------
  // Nothing droppable is left

  /** A record that was found live is live as long as the index is not compacted further. */
  lemma LiveIsKept(live: Ask, run: seq<Sys>, actions: seq<Action>, at: nat -> nat, through: Revision, t0: nat, t: nat,
                   j: nat, history: seq<LogRecord>, found: set<Revision>, wire: WireRecord, r: Revision)
    requires IsRun(run, actions) && Answers(live, run, at, through) && j < |run| && at(t) <= j
    requires at(t0) < |run| && through == run[at(t0)].view.compacted == run[j].view.compacted
    requires run[j].view.log == Restart.Thin(history, found) && r !in found && 0 < r <= |history| && r <= through
    requires wire == RecordToWire(history[r - 1]) && SeenLive(wire, r, live, t0, t)
    ensures !MayDrop(run[j].view, through, r)
  {
    hide IsRun, Live, Answers;
    var v := run[j].view;
    var i :| 0 <= i < |wire| && wire[i].kv.Some? && LiveBetween(wire[i].kv.value.key, r, live, t0, t);
    var e := history[r - 1][i];
    assert wire[i] == ToWire(e) && e in v.log[r - 1];
    var u: nat :| t0 <= u < t && live(u, e.kv.key, r);
    AnswerAt(live, run, at, through, u, e.kv.key, r);
    Ticks(live, run, at, through, t0, u);
    Ticks(live, run, at, through, u, t);
    RunGrows(run, actions, at(t0), at(u));
    RunGrows(run, actions, at(u), j);
    LiveStaysLive(run, actions, at(u), j, e.kv.key, through, r);
  }

  /** Where the first `n` files end. */
  function EndOfFiles(was: seq<LogFile>, n: nat): nat
    requires n < |was|
  {
    if n == 0 then 0 else was[n - 1].last
  }

  /** A revision up to there is in one of them. */
  lemma {:induction false} InSomeFile(was: seq<LogFile>, n: nat, r: nat) returns (x: nat)
    requires n < |was| && Adjoin(was) && (n > 0 ==> was[0].first == 1) && 0 < r <= EndOfFiles(was, n)
    ensures x < n && was[x].first <= r <= was[x].last
  {
    if r >= was[n - 1].first {
      x := n - 1;
    } else {
      var m := n - 1;
      assert m > 0 ==> was[m].first == was[m - 1].last + 1;
      x := InSomeFile(was, m, r);
    }
  }

  lemma StartsAtOne(d: Directory, was: seq<LogFile>, segs: seq<Segment>, log: seq<WireRecord>, had: set<nat>)
    requires Good(d, was, segs, log, had)
    ensures |was| > 0 && was[0].first == 1 && Adjoin(was) && Compaction.InOrder(was, |log|)
  {
    hide Good, Contiguous;
    GoodCount(d, was, segs, log, had);
    FileAt(d, was, segs, log, had, 0);
    SegmentStarts(segs, |log|, 0);
    FilesAdjoin(d, was, segs, log, had);
    FilesInOrder(d, was, segs, log, had);
  }

  /** Compaction left no file alone that it had found dead records in. */
  ghost predicate NoneLeft(job: Job, files: seq<LogFile>) {
    |job.gone| <= |job.was| && forall x :: 0 <= x < |job.gone| && job.was[x] in files ==> job.gone[x] == {}
  }

  /** Then every record of a file it looked at is gone or was found live. */
  lemma SettledAt(job: Job, files: seq<LogFile>, dropped: set<nat>, t: nat, x: nat, r: nat)
    requires Rewrote(job, files, dropped, t) && NoneLeft(job, files)
    requires x < |job.gone| && 0 < job.was[x].first <= r <= job.was[x].last
    ensures r <= |job.log| && (r in dropped || SeenLive(job.log[r - 1], r, job.live, job.t0, t))
  {
    hide OnlyDead, SeenLive, SeenDead, LiveWeight, Kept, LogFits;
    var f := job.was[x];
    assert Settled(job, x, files, dropped, t);
    assert Measured(f, job.log, job.had, job.gone[x], job.bytes[x], job.live, job.t0, t);
    if Cleaned(job, f.first, f.last, dropped, t) {
      assert CleanedAt(job, r, dropped, t);
    }
  }

  /** What has been dropped since the files were opened lies in the files that compaction looked at. */
  lemma DroppedWithin(d: Directory, segs: seq<Segment>, job: Job, files: seq<LogFile>, dropped: set<nat>, t: nat,
                      found: set<nat>, point: nat, r: nat)
    requires Good(d, job.was, segs, job.log, job.had) && Rewrote(job, files, dropped, t)
    requires Bounded(job.was, job.had, found, point) && point <= job.through && r in dropped && r !in found && r > 0
    ensures r <= EndOfFiles(job.was, |job.gone|)
  {
    hide Good, AllMeasured, OnlyDead, Settled;
    var was, n := job.was, |job.gone|;
    StartsAtOne(d, was, segs, job.log, job.had);
    if n > 0 {
      assert was[n].first == was[n - 1].last + 1;
    }
    if r in job.had {
      var x := HeldBy(d, was, segs, job.log, job.had, r);
      assert x < n;
      assert x < n - 1 ==> Ahead(was[x], was[n - 1]);
    } else {
      assert r < was[n].first;
    }
  }

  /** A dropped record was in a sparse file, which is a closed one. */
  lemma HeldBy(d: Directory, was: seq<LogFile>, segs: seq<Segment>, log: seq<WireRecord>, had: set<nat>, r: nat)
    returns (x: nat)
    requires Good(d, was, segs, log, had) && 0 < r && r in had
    ensures x < |was| - 1 && was[x].sparse && was[x].first <= r <= was[x].last
  {
    hide Good, Contiguous, FileOf, LogFits, Holds;
    StartsAtOne(d, was, segs, log, had);
    UpToLog(d, was, segs, log, had);
    var n := |was| - 1;
    FileAt(d, was, segs, log, had, n);
    LastFile(d, was, segs, log, had);
    if n > 0 {
      assert was[n].first == was[n - 1].last + 1;
    }
    assert r < was[n].first by {
      if r >= was[n].first {
        DenseKeeps(d, was, segs, log, had, n, r);
      }
    }
    x := InSomeFile(was, n, r);
    DenseKeeps(d, was, segs, log, had, x, r);
  }

  lemma UpToLog(d: Directory, was: seq<LogFile>, segs: seq<Segment>, log: seq<WireRecord>, had: set<nat>)
    requires Good(d, was, segs, log, had)
    ensures forall r :: r in had ==> r <= |log|
  {
    hide Layout, FilesOf;
  }

  lemma LastFile(d: Directory, was: seq<LogFile>, segs: seq<Segment>, log: seq<WireRecord>, had: set<nat>)
    requires Good(d, was, segs, log, had)
    ensures |was| > 0 && was[|was| - 1].last == |log| && !was[|was| - 1].sparse
  {
    hide FileOf, LogFits, Holds;
    GoodFile(d, was, segs, log, had, |segs| - 1);
    FileOfName(segs[|segs| - 1], log, had);
  }

  lemma DenseKeeps(d: Directory, was: seq<LogFile>, segs: seq<Segment>, log: seq<WireRecord>, had: set<nat>, x: nat, r: nat)
    requires Good(d, was, segs, log, had) && x < |was| && was[x].first <= r <= was[x].last && r in had
    ensures was[x].sparse
  {
    hide Good, FileOf, LogFits, Holds, Contiguous;
    GoodCount(d, was, segs, log, had);
    GoodFile(d, was, segs, log, had, x);
    FileOfName(segs[x], log, had);
  }

  // ---------------------------------------------------------------------
  // A restart after compaction

  /** A store, the files it keeps its log in, and a compaction of those files. */
  datatype Both = Both(
    run: seq<Sys>,
    actions: seq<Action>,
    at: nat -> nat,            // how far the run was when liveness was asked
    history: seq<LogRecord>,   // every record ever appended
    found: set<Revision>,      // the records that were gone when the files were opened
    dir: Directory,            // the files when compaction began
    segs: seq<Segment>,
    point: nat,
    job: Job,
    t: nat,                    // the moment compaction ended
    files: seq<LogFile>,       // the files then
    dropped: set<nat>)
  {
    /** The store as it is now. */
    ghost function Now(): View
      requires run != []
    {
      run[|run| - 1].view
    }

    /** Where the files that compaction looked at end. */
    ghost function End(): nat
      requires |job.gone| < |job.was|
    {
      EndOfFiles(job.was, |job.gone|)
    }
  }

  /** The compaction was asked for by the store, which was not compacted further since. */
  ghost predicate CompactedTogether(b: Both) {
    && IsRun(b.run, b.actions) && b.at(b.job.t0) < |b.run| && b.at(b.t) < |b.run|
    && b.run[b.at(b.job.t0)].view.compacted == b.Now().compacted == b.job.through
    && Answers(b.job.live, b.run, b.at, b.job.through)
    && Backs(b.history, b.found, b.dropped, b.Now()) && b.job.log <= LogToWire(b.history)
    && Good(b.dir, b.job.was, b.segs, b.job.log, b.job.had)
    && Bounded(b.job.was, b.job.had, b.found, b.point) && b.point <= b.job.through
    && Rewrote(b.job, b.files, b.dropped, b.t)
  }

  lemma NothingDroppable(b: Both, r: Revision)
    requires CompactedTogether(b) && NoneLeft(b.job, b.files)
    requires |b.job.gone| < |b.job.was| && 0 < r <= b.End() && MayDrop(b.Now(), b.job.through, r)
    ensures r in b.Now().dropped || b.Now().log[r - 1] == []
  {
    hide IsRun, Answers, Rewrote, Good, MayDrop, SeenLive, Bounded;
    var v := b.Now();
    DroppableIs(v, r);
    if r in b.found {
      assert v.log[r - 1] == [];
    } else {
      StartsAtOne(b.dir, b.job.was, b.segs, b.job.log, b.job.had);
      var x := InSomeFile(b.job.was, |b.job.gone|, r);
      SettledAt(b.job, b.files, b.dropped, b.t, x, r);
      if r !in b.dropped {
        var wire := b.job.log[r - 1];
        assert wire == RecordToWire(b.history[r - 1]);
        LiveIsKept(b.job.live, b.run, b.actions, b.at, b.job.through, b.job.t0, b.t, |b.run| - 1, b.history, b.found, wire, r);
      }
    }
  }

  lemma DroppableIs(v: View, r: Revision)
    requires MayDrop(v, v.compacted, r)
    ensures 0 < r <= |v.log| && r <= v.compacted
  {
  }

  /** So log compaction has finished with everything up to where the files it looked at end. */
  lemma AllRewritten(b: Both)
    requires CompactedTogether(b) && NoneLeft(b.job, b.files)
    ensures ViewOk(b.Now()) && |b.job.gone| < |b.job.was| && Restart.Rewritten(b.Now(), b.End())
  {
    hide Answers, Good, SeenLive, Bounded, NoneLeft, Inv, ViewOk, Live, AllMeasured, OnlyDead, Settled;
    var v := b.Now();
    EveryRunKeepsInv(b.run, b.actions, |b.run| - 1);
    InvView(b.run[|b.run| - 1]);
    ViewJoined(v);
    hide IsRun;
    forall r | r in v.dropped
      ensures r <= b.End()
    {
      DroppedWithin(b.dir, b.segs, b.job, b.files, b.dropped, b.t, b.found, b.point, r);
    }
    forall r: Revision | r <= b.End() && MayDrop(v, v.compacted, r)
      ensures r in v.dropped || v.log[r - 1] == []
    {
      DroppableIs(v, r);
      NothingDroppable(b, r);
    }
  }

  /**
   Compaction and restart: with one event a record, once a compaction of the
   files has run and left no file alone that has dead records, a process started
   on the files returns, for every key and every revision from the compaction
   point on, what the log says and what this process returned. The log went on
   while files were rewritten.
   */
  lemma CompactedRestart(b: Both, leases: set<int>)
    requires CompactedTogether(b) && NoneLeft(b.job, b.files) && Restart.OneEvent(b.Now().log)
    ensures var v := b.Now();
            && v.compacted <= v.applied <= |v.log|
            && Restart.ReadsSame(v.log, v.dropped, leases, v.compacted)
            && (forall m: nat, k: Key :: v.compacted <= m <= v.applied ==>
                  Visible(Observe(Restart.NewView(v.log, v.dropped, leases), k, m)) == Visible(Observe(v, k, m)))
            && Restart.Thin(v.log, v.dropped) == Restart.Thin(b.history, b.dropped)
  {
    hide Answers, Good, MayDrop, SeenLive, Bounded, NoneLeft, Rewrote, Restart.Rewritten, Restart.ReadsSame,
         Restart.NewView, Observe, IndexOk, LogOk, Joined, IsRun, Restart.OneEvent;
    AllRewritten(b);
    Restart.RestartAfterCompaction(b.Now(), b.End(), leases);
  }
}
