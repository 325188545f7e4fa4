/**
 Rewriting closed files while the log goes on: what is streamed, replaced and
 removed, which records are dropped, and how files are put together.
 `FilesystemLog.dfy` does it.
 */
module Compaction {
  import opened Bytes
  import opened Records
  import opened Wire
  import opened LogCodec
  import opened LogCodecLoops
  import opened LogFiles
  import opened Recovery
  import opened LogSteps
  import opened FileIndex
  import opened Rewriting

  // ---------------------------------------------------------------------
  // The files in order

  lemma GroupBounds(d: Directory, files: seq<LogFile>, segs: seq<Segment>, log: seq<WireRecord>, dropped: set<nat>,
                    i: nat, j: nat)
    requires Good(d, files, segs, log, dropped) && i < j < |files|
    ensures |files| == |segs|
    ensures 0 < segs[i].first <= segs[j - 1].last <= |log|
    ensures files[i].first == segs[i].first && files[j - 1].last == segs[j - 1].last
  {
    hide *;
    GoodCount(d, files, segs, log, dropped);
    GoodFile(d, files, segs, log, dropped, i);
    GoodFile(d, files, segs, log, dropped, j - 1);
    GroupRange(segs, |log|, i, j, i);
    SegmentIs(segs[i], |log|);
    SegmentIs(segs[j - 1], |log|);
    FileOfName(segs[i], log, dropped);
    FileOfName(segs[j - 1], log, dropped);
  }

  lemma SegmentIs(s: Segment, n: nat)
    requires SegmentOk(s, n)
    ensures 0 < s.first && s.last <= n
  {
  }

  lemma GoodCount(d: Directory, files: seq<LogFile>, segs: seq<Segment>, log: seq<WireRecord>, dropped: set<nat>)
    requires Good(d, files, segs, log, dropped)
    ensures |files| == |segs| > 0
  {
  }

  lemma KeptNone(log: seq<WireRecord>, first: nat, dropped: set<nat>)
    requires 0 < first <= |log| + 1
    ensures Kept(log, first, first - 1, dropped) == []
  {
  }

  lemma GroupRange(segs: seq<Segment>, n: nat, i: nat, j: nat, x: nat)
    requires Contiguous(segs, n) && i <= x < j < |segs|
    ensures segs[i].first <= segs[x].first <= segs[x].last <= segs[j - 1].last
    ensures segs[x].first == if x == i then segs[i].first else segs[x - 1].last + 1
    ensures segs[x].last <= n
  {
    hide Contiguous;
    SegmentNonempty(segs, n, x);
    SegmentNonempty(segs, n, j - 1);
    SegmentStarts(segs, n, x);
    if i < x {
      SegmentsAscend(segs, n, i, x);
    }
    if x < j - 1 {
      SegmentsAscend(segs, n, x, j - 1);
    }
  }

  /** Files cover ranges in ascending order, all but perhaps the last nonempty. */
  ghost predicate InOrder(files: seq<LogFile>, n: nat) {
    && (forall x :: 0 <= x < |files| ==> 0 < files[x].first && files[x].last <= n)
    && (forall x, y :: 0 <= x < y < |files| ==> Ahead(files[x], files[y]))
  }

  lemma FilesInOrder(d: Directory, files: seq<LogFile>, segs: seq<Segment>, log: seq<WireRecord>, dropped: set<nat>)
    requires Good(d, files, segs, log, dropped)
    ensures |files| > 0 && InOrder(files, |log|)
  {
    hide Good;
    GoodCount(d, files, segs, log, dropped);
    forall x | 0 <= x < |files|
      ensures 0 < files[x].first && files[x].last <= |log|
    {
      FileAt(d, files, segs, log, dropped, x);
    }
    forall x, y | 0 <= x < y < |files|
      ensures Ahead(files[x], files[y])
    {
      FileAt(d, files, segs, log, dropped, x);
      FileAt(d, files, segs, log, dropped, y);
      SegmentsAscend(segs, |log|, x, y);
    }
  }

  predicate Ahead(a: LogFile, b: LogFile) {
    a.first <= a.last < b.first && a.last <= b.last
  }

  lemma FileAt(d: Directory, files: seq<LogFile>, segs: seq<Segment>, log: seq<WireRecord>, dropped: set<nat>, x: nat)
    requires Good(d, files, segs, log, dropped) && x < |files|
    ensures x < |segs| && Contiguous(segs, |log|)
    ensures files[x].first == segs[x].first && files[x].last == segs[x].last
    ensures 0 < files[x].first && files[x].first - 1 <= files[x].last <= |log|
  {
    hide Good, LogFits, FileOf, Holds, Whole, Contiguous;
    GoodCount(d, files, segs, log, dropped);
    GoodFile(d, files, segs, log, dropped, x);
    FileOfName(segs[x], log, dropped);
  }

  // ---------------------------------------------------------------------
  // What may change meanwhile

  ghost predicate AllKeyed(records: seq<WireRecord>) {
    forall i :: 0 <= i < |records| ==> HasKeys(records[i])
  }

  /** Closed files stay as they are; the active one may grow, be closed and be followed by others. */
  ghost predicate Grew(files: seq<LogFile>, after: seq<LogFile>) {
    && 0 < |files| <= |after|
    && files[..|files| - 1] == after[..|files| - 1]
    && files[|files| - 1].first == after[|files| - 1].first
  }

  /** Nothing is removed, no temporary file is touched, and a new file starts past the first `n` records. */
  ghost predicate Extends(d: Directory, e: Directory, n: nat) {
    && (forall a :: a in d ==> a in e && (a.Other? ==> e[a] == d[a]))
    && (forall a :: a in e && a !in d ==> a.Dense? && a.first > n)
  }

  /** The log and its files have moved on. */
  ghost predicate Moved(files: seq<LogFile>, log: seq<WireRecord>, after: seq<LogFile>, more: seq<WireRecord>) {
    Grew(files, after) && log <= more
  }

  lemma MovedOn(files: seq<LogFile>, log: seq<WireRecord>, d: Directory, f1: seq<LogFile>, l1: seq<WireRecord>,
                d1: Directory, f2: seq<LogFile>, l2: seq<WireRecord>, d2: Directory)
    requires Moved(files, log, f1, l1) && Extends(d, d1, |log|)
    requires Moved(f1, l1, f2, l2) && Extends(d1, d2, |l1|)
    ensures Moved(files, log, f2, l2) && Extends(d, d2, |log|)
  {
    MovedAgain(files, log, f1, l1, f2, l2);
  }

  lemma MovedAgain(files: seq<LogFile>, log: seq<WireRecord>, f1: seq<LogFile>, l1: seq<WireRecord>, f2: seq<LogFile>,
                   l2: seq<WireRecord>)
    requires Moved(files, log, f1, l1) && Moved(f1, l1, f2, l2)
    ensures Moved(files, log, f2, l2)
  {
    var n := |files| - 1;
    assert forall x :: 0 <= x < n ==> files[x] == files[..n][x] == f1[..n][x] == f1[x];
    assert forall x :: 0 <= x < |f1| - 1 ==> f1[x] == f1[..|f1| - 1][x] == f2[..|f1| - 1][x] == f2[x];
  }

  lemma MovedNot(files: seq<LogFile>, log: seq<WireRecord>, d: Directory)
    requires |files| > 0
    ensures Moved(files, log, files, log) && Extends(d, d, |log|)
  {
  }

  /** A sparse file that lost records since the log was opened ends at or below the point they were dropped for. */
  ghost predicate Bounded(files: seq<LogFile>, dropped: set<nat>, found: set<nat>, point: nat) {
    forall x, r :: 0 <= x < |files| && files[x].sparse && files[x].first <= r <= files[x].last && r in dropped && r !in found ==>
      files[x].last <= point
  }

  /** An append to the active file. */
  lemma CommitMoves(files: seq<LogFile>, log: seq<WireRecord>, d: Directory, records: seq<WireRecord>, f: LogFile,
                    bytes: Bytestring, dropped: set<nat>, found: set<nat>, point: nat)
    requires |files| > 0 && FileName(files[|files| - 1]) in d && !files[|files| - 1].sparse && !f.sparse
    requires f.first == files[|files| - 1].first && Bounded(files, dropped, found, point)
    ensures var k := |files| - 1;
            var a := FileName(files[k]);
            && Moved(files, log, files[k := f], log + records)
            && Extends(d, d[a := d[a] + bytes], |log|)
            && Bounded(files[k := f], dropped, found, point)
  {
  }

  /** A new active file. */
  lemma NextMoves(files: seq<LogFile>, log: seq<WireRecord>, d: Directory, dropped: set<nat>, found: set<nat>, point: nat)
    requires |files| > 0 && Bounded(files, dropped, found, point)
    ensures Moved(files, log, files + [NewFile(|log|)], log)
    ensures Extends(d, d[Dense(|log| + 1) := MAGIC], |log|)
    ensures Bounded(files + [NewFile(|log|)], dropped, found, point)
  {
  }

  lemma BatchKeyed(log: seq<WireRecord>, records: seq<WireRecord>)
    requires AllKeyed(log) && AllKeyed(records)
    ensures AllKeyed(log + records)
  {
    hide HasKeys;
  }

  /** Writing a temporary file does nothing to the log. */
  lemma OtherWritten(d: Directory, e: Directory, files: seq<LogFile>, segs: seq<Segment>, log: seq<WireRecord>,
                     dropped: set<nat>)
    requires Good(d, files, segs, log, dropped) && Tidy(d, segs, log, dropped, [], Nothing) && SameLogFiles(d, e)
    ensures Good(e, files, segs, log, dropped) && Tidy(e, segs, log, dropped, [], Nothing)
    ensures Recovers(e, |log|, log, dropped)
  {
    hide Layout, Tidy, FilesOf, Recovers;
    OtherIgnored(d, e, segs, log, dropped);
    TidyLayout(e, segs, log, dropped, [], Nothing);
    assert log[..|log|] == log;
    TidyRecovers(e, segs, |log|, |log|, log, dropped, [], Nothing);
  }

  // ---------------------------------------------------------------------
  // Streaming a group

  lemma ActiveIsDense(d: Directory, files: seq<LogFile>, segs: seq<Segment>, log: seq<WireRecord>, dropped: set<nat>)
    requires Good(d, files, segs, log, dropped)
    ensures |files| > 0 && !files[|files| - 1].sparse
  {
    hide Layout, LogFits, FileOf;
    GoodFile(d, files, segs, log, dropped, |segs| - 1);
    FileOfName(segs[|segs| - 1], log, dropped);
  }

  lemma WithBatchIs(f: LogFile, spans: seq<Span>, bytes: nat, count: nat)
    ensures WithBatch(f, spans, bytes, count).first == f.first && WithBatch(f, spans, bytes, count).sparse == f.sparse
  {
  }

  /** What a file holds. */
  lemma FileContent(d: Directory, files: seq<LogFile>, segs: seq<Segment>, log: seq<WireRecord>, dropped: set<nat>, x: nat)
    returns (entries: seq<Entry>)
    requires Good(d, files, segs, log, dropped) && x < |files| && AllKeyed(log)
    ensures 0 < files[x].first && files[x].last <= |log|
    ensures FileName(files[x]) in d && Describes(files[x], entries, d[FileName(files[x])])
    ensures entries == Kept(log, files[x].first, files[x].last, dropped)
    ensures Ascends(entries) && forall k :: 0 <= k < |entries| ==> HasKeys(entries[k].record)
  {
    hide *;
    GoodCount(d, files, segs, log, dropped);
    GoodFile(d, files, segs, log, dropped, x);
    SegmentIs(segs[x], |log|);
    FileDescribes(d, segs[x], log, dropped);
    FileOfName(segs[x], log, dropped);
    entries := ContentKeys(segs[x], log, dropped);
    EntriesAscend(log, segs[x].first, segs[x].last, dropped);
  }

  lemma ContentKeys(s: Segment, log: seq<WireRecord>, dropped: set<nat>) returns (entries: seq<Entry>)
    requires SegmentOk(s, |log|) && AllKeyed(log)
    ensures 0 < s.first && s.last <= |log|
    ensures entries == Content(s, log, dropped) == Kept(log, s.first, s.last, dropped)
    ensures forall k :: 0 <= k < |entries| ==> HasKeys(entries[k].record)
  {
    hide Kept, HasKeys;
    entries := Content(s, log, dropped);
    forall k | 0 <= k < |entries|
      ensures HasKeys(entries[k].record)
    {
      KeptBelow(log, s.first, s.last, dropped, entries[k]);
    }
  }

  lemma EntriesAscend(log: seq<WireRecord>, first: nat, last: nat, dropped: set<nat>)
    requires 0 < first && last <= |log|
    ensures Ascends(Kept(log, first, last, dropped))
  {
    hide Kept, SparseOk;
    var entries := Kept(log, first, last, dropped);
    KeptAscends(log, first, last, dropped);
    forall i, j | 0 <= i < j < |entries|
      ensures entries[i].revision < entries[j].revision
    {
      Ascending(RevisionsOf(entries), first, last, i, j);
    }
  }

  /** What was found about the records of a file, by revision. */
  lemma JudgedAs(log: seq<WireRecord>, first: nat, last: nat, dropped: set<nat>, entries: seq<Entry>, dead: set<nat>,
                 live: Ask, t0: nat, t: nat)
    requires 0 < first && last <= |log| && entries == Kept(log, first, last, dropped) && Asked(entries, dead, live, t0, t)
    ensures t0 <= t && Judged(log, first, last, dropped, dead, live, t0, t)
  {
    hide Kept, SeenDead, SeenLive;
    forall r | r in dead
      ensures first <= r <= last && r !in dropped && SeenDead(log[r - 1], r, live, t0, t)
    {
      var i :| 0 <= i < |entries| && RevisionsOf(entries)[i] == r;
      KeptBelow(log, first, last, dropped, entries[i]);
    }
    forall r | first <= r <= last && r !in dropped && r !in dead
      ensures SeenLive(log[r - 1], r, live, t0, t)
    {
      KeptHas(log, first, last, dropped, r);
      var i :| 0 <= i < |entries| && entries[i] == Entry(r, log[r - 1]);
    }
  }

  lemma WrittenOn(bytes0: Bytestring, spans0: seq<Span>, revisions0: seq<nat>, done: seq<Entry>, bytes: Bytestring,
                  spans: seq<Span>, revisions: seq<nat>, more: seq<Entry>)
    requires Written(bytes0, spans0, revisions0, done) && Written(bytes, spans, revisions, done + more)
    ensures |bytes0| <= |bytes| && bytes0 + bytes[|bytes0|..] == bytes
  {
    hide RecordOk, Frames, SpansAt;
    forall i | 0 <= i < |more|
      ensures RecordOk(more[i].record)
    {
      assert (done + more)[|done| + i] == more[i];
    }
    FileAppend(done, more);
  }

  lemma OtherSame(d: Directory, tmp: Name, bytes: Bytestring)
    requires tmp.Other?
    ensures SameLogFiles(d, d[tmp := bytes])
  {
  }

  /** The files follow one another. */
  ghost predicate Adjoin(files: seq<LogFile>) {
    forall x, y :: 0 <= x < |files| && y == x + 1 < |files| ==> files[y].first == files[x].last + 1
  }

  lemma FilesAdjoin(d: Directory, files: seq<LogFile>, segs: seq<Segment>, log: seq<WireRecord>, dropped: set<nat>)
    requires Good(d, files, segs, log, dropped)
    ensures Adjoin(files)
  {
    hide Good, Contiguous;
    forall x, y | 0 <= x < |files| && y == x + 1 < |files|
      ensures files[y].first == files[x].last + 1
    {
      FileAt(d, files, segs, log, dropped, x);
      FileAt(d, files, segs, log, dropped, y);
      SegmentStarts(segs, |log|, y);
    }
  }

  lemma ClosedSame(was: seq<LogFile>, base: seq<WireRecord>, files: seq<LogFile>, log: seq<WireRecord>, x: nat)
    requires Moved(was, base, files, log) && x < |was| - 1
    ensures x < |files| - 1 && files[x] == was[x] && base <= log
  {
    assert was[..|was| - 1][x] == files[..|was| - 1][x];
  }

  lemma NextInGroup(was: seq<LogFile>, base: seq<WireRecord>, files: seq<LogFile>, log: seq<WireRecord>, i: nat, x: nat,
                    reached: int)
    requires Moved(was, base, files, log) && InOrder(was, |base|) && Adjoin(was) && i <= x < |was| - 1
    requires reached == if x == i then was[i].first - 1 else was[x - 1].last
    ensures x < |files| - 1 && files[x] == was[x] && base <= log
    ensures 0 <= reached && was[x].first == reached + 1 && reached <= was[x].last <= |base|
  {
    ClosedSame(was, base, files, log, x);
    assert Ahead(was[x], was[|was| - 1]);
    if x > i {
      assert was[x].first == was[x - 1].last + 1;
    }
  }

  /** The live records of a range have been streamed to the temporary file. */
  ghost predicate Streamed(base: seq<WireRecord>, first: nat, reached: int, dropped: set<nat>, dead: set<nat>,
                           live: Ask, t0: nat, t: nat, bytes: Bytestring, spans: seq<Span>, revisions: seq<nat>) {
    && 0 < first <= reached + 1 <= |base| + 1 && t0 <= t
    && Judged(base, first, reached, dropped, dead, live, t0, t)
    && Written(bytes, spans, revisions, Kept(base, first, reached, dropped + dead))
  }

  lemma StreamedParts(base: seq<WireRecord>, first: nat, reached: int, dropped: set<nat>, dead: set<nat>, live: Ask,
                      t0: nat, t: nat, bytes: Bytestring, spans: seq<Span>, revisions: seq<nat>)
    requires Streamed(base, first, reached, dropped, dead, live, t0, t, bytes, spans, revisions)
    ensures 0 < first <= reached + 1 <= |base| + 1 && t0 <= t
    ensures Written(bytes, spans, revisions, Kept(base, first, reached, dropped + dead))
  {
  }

  lemma StreamedNone(was: seq<LogFile>, base: seq<WireRecord>, i: nat, dropped: set<nat>, live: Ask, t0: nat)
    requires InOrder(was, |base|) && i < |was| - 1
    ensures Streamed(base, was[i].first, was[i].first - 1, dropped, {}, live, t0, t0, MAGIC, [], [])
  {
    hide Written;
    assert Ahead(was[i], was[|was| - 1]);
    WrittenNone();
    KeptNone(base, was[i].first, dropped + {});
  }

  /** Records judged in two stretches, one after the other. */
  lemma JudgedJoin(base: seq<WireRecord>, log: seq<WireRecord>, first: nat, reached: nat, last: nat, dropped: set<nat>,
                   a: set<nat>, b: set<nat>, live: Ask, t0: nat, t1: nat, t2: nat, t3: nat)
    requires base <= log && 0 < first <= reached + 1 && reached <= last <= |base| && t0 <= t1 <= t2 <= t3
    requires Judged(base, first, reached, dropped, a, live, t0, t1) && Judged(log, reached + 1, last, dropped, b, live, t1, t2)
    ensures Judged(base, first, last, dropped, a + b, live, t0, t3)
  {
    hide SeenDead, SeenLive;
    forall r: nat | first <= r <= last
      ensures r in a + b ==> r !in dropped && SeenDead(base[r - 1], r, live, t0, t3)
      ensures r !in dropped && r !in a + b ==> SeenLive(base[r - 1], r, live, t0, t3)
    {
      SeenLater(base[r - 1], r, live, t0, t1, t3);
      SeenLater(log[r - 1], r, live, t1, t2, t3);
      SeenSooner(log[r - 1], r, live, t0, t1, t3);
    }
  }

  lemma KeptJoin(base: seq<WireRecord>, log: seq<WireRecord>, first: nat, reached: nat, last: nat, dropped: set<nat>,
                 a: set<nat>, b: set<nat>)
    requires base <= log && 0 < first <= reached + 1 && reached <= last <= |base|
    requires (forall r :: r in a ==> first <= r <= reached) && (forall r :: r in b ==> reached + 1 <= r <= last)
    ensures Kept(base, first, reached, dropped + a) + Kept(log, reached + 1, last, dropped + b) == Kept(base, first, last,
        dropped + (a + b))
  {
    hide Kept;
    assert base + log[|base|..] == log;
    KeptGrows(base, log[|base|..], reached + 1, last, dropped + b);
    KeptSplits(base, first, reached, last, dropped + (a + b));
    KeptSame(base, first, reached, dropped + a, dropped + (a + b));
    KeptSame(base, reached + 1, last, dropped + b, dropped + (a + b));
  }

  lemma StreamedNext(base: seq<WireRecord>, log: seq<WireRecord>, first: nat, reached: nat, last: nat,
                     dropped: set<nat>, a: set<nat>, b: set<nat>, live: Ask, t0: nat, t1: nat, t2: nat,
                     bytes0: Bytestring, spans0: seq<Span>, revisions0: seq<nat>, bytes: Bytestring, spans: seq<Span>,
                     revisions: seq<nat>)
    requires base <= log && reached <= last <= |base| && t1 <= t2
    requires Streamed(base, first, reached, dropped, a, live, t0, t1, bytes0, spans0, revisions0)
    requires Judged(log, reached + 1, last, dropped, b, live, t1, t2)
    requires Written(bytes, spans, revisions, Kept(base, first, reached, dropped + a) + Kept(log, reached + 1, last, dropped + b))
    ensures Streamed(base, first, last, dropped, a + b, live, t0, t2 + 1, bytes, spans, revisions)
  {
    hide Written, Kept, SeenDead, SeenLive;
    JudgedJoin(base, log, first, reached, last, dropped, a, b, live, t0, t1, t2, t2 + 1);
    KeptJoin(base, log, first, reached, last, dropped, a, b);
  }

  lemma StillThere(d: Directory, e: Directory, n: nat, tmp: Name)
    requires Extends(d, e, n) && tmp in d && tmp.Other?
    ensures tmp in e && e[tmp] == d[tmp]
  {
  }

  lemma StreamedEnds(base: seq<WireRecord>, log: seq<WireRecord>, first: nat, last: nat, dropped: set<nat>,
                     dead: set<nat>, live: Ask, t0: nat, t: nat, bytes: Bytestring, spans: seq<Span>,
                     revisions: seq<nat>)
    requires base <= log && Streamed(base, first, last, dropped, dead, live, t0, t, bytes, spans, revisions)
    ensures t0 <= t && 0 < first && last <= |base| && Judged(base, first, last, dropped, dead, live, t0, t)
    ensures Written(bytes, spans, revisions, Kept(log, first, last, dropped + dead))
    ensures DropsWithin(dropped, dropped + dead, first, last)
  {
    hide Written, Kept, SeenDead, SeenLive;
    assert base + log[|base|..] == log;
    KeptGrows(base, log[|base|..], first, last, dropped + dead);
  }

  lemma MovedLog(files: seq<LogFile>, log: seq<WireRecord>, after: seq<LogFile>, more: seq<WireRecord>)
    requires Moved(files, log, after, more)
    ensures log <= more
  {
  }

  // ---------------------------------------------------------------------
  // Replacing a group

  /** What was written is the replacement's file and index entry. */
  lemma WrittenIs(s: Segment, log: seq<WireRecord>, gone: set<nat>, d: Directory, bytes: Bytestring, spans: seq<Span>,
                  revisions: seq<nat>)
    requires 0 < s.first && s.last <= |log| && LogFits(log) && s.sparse
    requires Written(bytes, spans, revisions, Kept(log, s.first, s.last, gone))
    ensures FileOf(s, log, gone) == LogFile(s.first, s.last, true, |bytes|, spans, revisions)
    ensures Replaced(d, s, log, gone) == d[SegName(s) := bytes]
  {
    hide LogFits, Kept, SpansAt, Frames, RecordOk;
  }

  /** The name of the file that replaces these. */
  function Replacement(segs: seq<Segment>): Name
    requires segs != []
  {
    Sparse(segs[0].first, segs[|segs| - 1].last)
  }

  /** These are the index entries of the segments, and `name` that of their replacement. */
  ghost predicate GroupIs(group: seq<LogFile>, name: Name, segs: seq<Segment>) {
    && |group| == |segs| > 0 && name == Replacement(segs)
    && forall x :: 0 <= x < |group| ==> FileName(group[x]) == SegName(segs[x])
  }

  lemma GroupCount(group: seq<LogFile>, name: Name, segs: seq<Segment>)
    requires GroupIs(group, name, segs)
    ensures |group| == |segs| > 0 && name == Replacement(segs)
  {
  }

  lemma GroupAt(group: seq<LogFile>, name: Name, segs: seq<Segment>, x: nat)
    requires GroupIs(group, name, segs) && x < |group|
    ensures x < |segs| && FileName(group[x]) == SegName(segs[x])
  {
  }

  lemma RewriteBegins(d: Directory, tmp: Name, files: seq<LogFile>, segs: seq<Segment>, log: seq<WireRecord>,
                      dropped: set<nat>, gone: set<nat>, i: nat, j: nat, bytes: Bytestring, compacted: LogFile)
    requires Good(d, files, segs, log, dropped) && Tidy(d, segs, log, dropped, [], Nothing) && i < j < |files| == |segs|
    requires tmp.Other? && tmp in d && d[tmp] == bytes
    requires 0 < segs[i].first <= segs[j - 1].last <= |log|
    requires files[i].first == segs[i].first && files[j - 1].last == segs[j - 1].last
    requires DropsWithin(dropped, gone, segs[i].first, segs[j - 1].last)
    requires Written(bytes, compacted.spans, compacted.revisions, Kept(log, segs[i].first, segs[j - 1].last, gone))
    requires compacted == LogFile(segs[i].first, segs[j - 1].last, true, |bytes|, compacted.spans, compacted.revisions)
    ensures var e := (d - {tmp})[Sparse(segs[i].first, segs[j - 1].last) := bytes];
            && Good(e, files[..i] + [compacted] + files[j..], Merged(segs, i, j), log, gone)
            && Tidy(e, Merged(segs, i, j), log, gone, [], Group(i, segs[i..j], dropped))
    ensures GroupIs(files[i..j], Sparse(segs[i].first, segs[j - 1].last), segs[i..j])
    ensures dropped <= gone
  {
    hide *;
    var s := Segment(segs[i].first, segs[j - 1].last, true);
    GoodParts(d, files, segs, log, dropped);
    TmpGone(d, tmp);
    OtherWritten(d, d - {tmp}, files, segs, log, dropped);
    GoodRewrite(d - {tmp}, files, segs, i, j, log, dropped, gone);
    WrittenIs(s, log, gone, d - {tmp}, bytes, compacted.spans, compacted.revisions);
    GroupIsOf(d, files, segs, log, dropped, i, j);
    SparseName(s);
    MoreDropped(dropped, gone, segs[i].first, segs[j - 1].last);
  }

  lemma TmpGone(d: Directory, tmp: Name)
    requires tmp.Other?
    ensures SameLogFiles(d, d - {tmp})
  {
  }

  lemma SparseName(s: Segment)
    requires s.sparse
    ensures SegName(s) == Sparse(s.first, s.last)
  {
  }

  lemma MoreDropped(dropped: set<nat>, gone: set<nat>, first: nat, last: nat)
    requires DropsWithin(dropped, gone, first, last)
    ensures dropped <= gone
  {
  }

  lemma GoodParts(d: Directory, files: seq<LogFile>, segs: seq<Segment>, log: seq<WireRecord>, dropped: set<nat>)
    requires Good(d, files, segs, log, dropped)
    ensures |files| == |segs| > 0 && !segs[|segs| - 1].sparse
    ensures Contiguous(segs, |log|) && LogFits(log) && files == FilesOf(segs, log, dropped)
  {
  }

  lemma GroupIsOf(d: Directory, files: seq<LogFile>, segs: seq<Segment>, log: seq<WireRecord>, dropped: set<nat>,
                  i: nat, j: nat)
    requires Good(d, files, segs, log, dropped) && i < j < |files| == |segs|
    ensures GroupIs(files[i..j], Sparse(segs[i].first, segs[j - 1].last), segs[i..j])
  {
    hide Good, LogFits, FileOf, Holds, Whole, Contiguous, FileName, SegName;
    forall x | 0 <= x < j - i
      ensures FileName(files[i..j][x]) == SegName(segs[i..j][x])
    {
      GoodFile(d, files, segs, log, dropped, i + x);
    }
  }

  /** Files away from a group lose nothing to its rewrite. */
  lemma BoundedRewrite(d: Directory, files: seq<LogFile>, segs: seq<Segment>, log: seq<WireRecord>, dropped: set<nat>,
                       gone: set<nat>, found: set<nat>, point: nat, i: nat, j: nat, compacted: LogFile)
    requires Good(d, files, segs, log, dropped) && Bounded(files, dropped, found, point) && i < j < |files|
    requires DropsWithin(dropped, gone, files[i].first, files[j - 1].last)
    requires compacted.last <= point
    ensures Bounded(files[..i] + [compacted] + files[j..], gone, found, point)
  {
    hide Good;
    FilesInOrder(d, files, segs, log, dropped);
    var after := files[..i] + [compacted] + files[j..];
    forall y, r | 0 <= y < |after| && after[y].sparse && after[y].first <= r <= after[y].last && r in gone && r !in found
      ensures after[y].last <= point
    {
      if y != i {
        var x := if y < i then y else y + (j - i) - 1;
        assert after[y] == files[x];
        if x < i {
          assert Ahead(files[x], files[i]);
        } else {
          assert Ahead(files[j - 1], files[x]);
        }
        assert r in dropped;
      }
    }
  }

  /** The first `x` files of the group are gone, all but one that has the replacement's name. */
  ghost predicate Removals(d: Directory, group: seq<Segment>, x: nat) {
    && x <= |group| && group != []
    && forall k :: 0 <= k < x && SegName(group[k]) in d ==> SegName(group[k]) == Replacement(group)
  }

  lemma NoRemovals(d: Directory, group: seq<Segment>)
    ensures group != [] ==> Removals(d, group, 0)
  {
  }

  lemma RemovalSkips(d: Directory, group: seq<Segment>, x: nat)
    requires Removals(d, group, x) && x < |group| && SegName(group[x]) == Replacement(group)
    ensures Removals(d, group, x + 1)
  {
  }

  lemma RemovesOne(d: Directory, files: seq<LogFile>, segs: seq<Segment>, log: seq<WireRecord>, dropped: set<nat>,
                   at: nat, group: seq<Segment>, had: set<nat>, x: nat)
    requires Good(d, files, segs, log, dropped) && Tidy(d, segs, log, dropped, [], Group(at, group, had))
    requires x < |group| && SegName(group[x]) != Replacement(group) && Removals(d, group, x)
    ensures var e := d - {SegName(group[x])};
            && Good(e, files, segs, log, dropped) && Tidy(e, segs, log, dropped, [], Group(at, group, had))
            && Removals(e, group, x + 1)
  {
    hide Layout, MidRewrite, FilesOf, UpTo, Original;
    assert SegName(segs[at]) == Replacement(group);
    TidyRemoves(d, segs, log, dropped, at, group, had, x);
  }

  /** The files of a group that was replaced start within the log. */
  lemma GroupWithin(d: Directory, segs: seq<Segment>, log: seq<WireRecord>, dropped: set<nat>, left: Leftover)
    requires Tidy(d, segs, log, dropped, [], left) && left.Group?
    ensures forall k :: 0 <= k < |left.segs| ==> left.segs[k].first <= |log|
  {
    hide Layout, UpTo, Merged, Contiguous, Original;
    var i, group := left.at, left.segs;
    var was := Original(segs, i, group);
    OriginalMerges(segs, i, group);
    forall k | 0 <= k < |group|
      ensures group[k].first <= |log|
    {
      assert was[i..i + |group|][k] == was[i + k];
      SegmentNonempty(was, |log|, i + k);
      SegmentBounds(was, |log|, i + k);
    }
  }

  lemma RemovalsStay(d: Directory, e: Directory, n: nat, group: seq<Segment>, x: nat)
    requires Extends(d, e, n) && Removals(d, group, x) && forall k :: 0 <= k < |group| ==> group[k].first <= n
    ensures Removals(e, group, x)
  {
  }

  lemma FinishRewrite(d: Directory, segs: seq<Segment>, log: seq<WireRecord>, dropped: set<nat>, left: Leftover)
    requires left.Group? && Tidy(d, segs, log, dropped, [], left) && Removals(d, left.segs, |left.segs|)
    ensures Tidy(d, segs, log, dropped, [], Nothing)
  {
    hide Layout, MidRewrite, Original, UpTo;
    var group := left.segs;
    assert SegName(segs[left.at]) == Replacement(group);
    TidyEnds(d, segs, log, dropped, left.at, group, left.had);
  }

  /** Files `i` to before `j` have become one; the other closed files are as they were, and others may have followed. */
  ghost predicate Swapped(files: seq<LogFile>, after: seq<LogFile>, i: nat, j: nat) {
    && i < j < |files| && |files| - (j - i) + 1 <= |after|
    && after[..i] == files[..i]
    && after[i].first == files[i].first && after[i].last == files[j - 1].last && after[i].sparse
    && after[i + 1..|files| - (j - i)] == files[j..|files| - 1]
  }

  lemma SwappedIs(was: seq<LogFile>, base: seq<WireRecord>, f: seq<LogFile>, l: seq<WireRecord>, c: LogFile,
                  g: seq<LogFile>, files: seq<LogFile>, log: seq<WireRecord>, i: nat, j: nat)
    requires Moved(was, base, f, l) && i < j < |was| && g == f[..i] + [c] + f[j..] && Moved(g, l, files, log)
    requires c.first == was[i].first && c.last == was[j - 1].last && c.sparse
    ensures Swapped(was, files, i, j) && base <= log
  {
    var n := |was| - 1;
    assert forall x :: 0 <= x < n ==> was[x] == was[..n][x] == f[..n][x] == f[x];
    assert forall x :: 0 <= x < |g| - 1 ==> g[x] == g[..|g| - 1][x] == files[..|g| - 1][x] == files[x];
  }

  lemma GroupSame(was: seq<LogFile>, base: seq<WireRecord>, files: seq<LogFile>, log: seq<WireRecord>, i: nat, j: nat)
    requires Moved(was, base, files, log) && i < j < |was|
    ensures j < |files| && files[i] == was[i] && files[j - 1] == was[j - 1]
  {
    ClosedSame(was, base, files, log, i);
    ClosedSame(was, base, files, log, j - 1);
  }

  lemma JudgedLater(log: seq<WireRecord>, first: nat, last: nat, dropped: set<nat>, dead: set<nat>, live: Ask, t0: nat,
                    t: nat, t1: nat)
    requires Judged(log, first, last, dropped, dead, live, t0, t) && t <= t1
    ensures Judged(log, first, last, dropped, dead, live, t0, t1)
  {
    hide SeenDead, SeenLive;
    forall r | r in dead
      ensures SeenDead(log[r - 1], r, live, t0, t1)
    {
      SeenLater(log[r - 1], r, live, t0, t, t1);
    }
    forall r | first <= r <= last && r !in dropped && r !in dead
      ensures SeenLive(log[r - 1], r, live, t0, t1)
    {
      SeenLater(log[r - 1], r, live, t0, t, t1);
    }
  }

  lemma JudgedSooner(log: seq<WireRecord>, first: nat, last: nat, dropped: set<nat>, dead: set<nat>, live: Ask, t0: nat,
                     t: nat, t1: nat)
    requires Judged(log, first, last, dropped, dead, live, t, t1) && t0 <= t
    ensures Judged(log, first, last, dropped, dead, live, t0, t1)
  {
    hide SeenDead, SeenLive;
    forall r | r in dead
      ensures SeenDead(log[r - 1], r, live, t0, t1)
    {
      SeenSooner(log[r - 1], r, live, t0, t, t1);
    }
    forall r | first <= r <= last && r !in dropped && r !in dead
      ensures SeenLive(log[r - 1], r, live, t0, t1)
    {
      SeenSooner(log[r - 1], r, live, t0, t, t1);
    }
  }

  lemma JudgedBefore(base: seq<WireRecord>, log: seq<WireRecord>, first: nat, last: nat, dropped: set<nat>,
                     dead: set<nat>, live: Ask, t0: nat, t: nat)
    requires base <= log && last <= |base| && Judged(log, first, last, dropped, dead, live, t0, t)
    ensures Judged(base, first, last, dropped, dead, live, t0, t)
  {
    hide SeenDead, SeenLive;
  }

  // ---------------------------------------------------------------------
  // What compaction drops and what it leaves

  /** What a compaction was asked to do, what it found when it began, and what measuring the eligible files gave. */
  datatype Job = Job(
    was: seq<LogFile>,       // the files
    log: seq<WireRecord>,
    had: set<nat>,           // the records dropped before
    through: nat,
    live: Ask,
    t0: nat,                 // the moment it began
    gone: seq<set<nat>>,     // of each eligible file, the records found dead
    bytes: seq<nat>)         // and what the others weigh

  /** Only records at or below `through` that were found dead were dropped. */
  ghost predicate OnlyDead(job: Job, dropped: set<nat>, t: nat) {
    && job.had <= dropped
    && forall r :: r in dropped && r !in job.had ==> WasDead(job, r, t)
  }

  ghost predicate WasDead(job: Job, r: nat, t: nat) {
    0 < r <= |job.log| && r <= job.through && SeenDead(job.log[r - 1], r, job.live, job.t0, t)
  }

  ghost predicate Same(a: set<nat>, b: set<nat>, first: nat, last: nat) {
    forall r :: first <= r <= last ==> (r in a <==> r in b)
  }

  predicate FewDead(dead: nat, count: nat) {
    dead == 0 || dead * 10 < count
  }

  /** Of a range exactly the records found dead are gone; those that are left were found live. */
  ghost predicate Cleaned(job: Job, first: nat, last: nat, dropped: set<nat>, t: nat)
    requires 0 < first && last <= |job.log|
  {
    forall r: nat :: first <= r <= last ==> CleanedAt(job, r, dropped, t)
  }

  ghost predicate CleanedAt(job: Job, r: nat, dropped: set<nat>, t: nat)
    requires 0 < r <= |job.log|
  {
    && (r in job.had ==> r in dropped)
    && (r in dropped && r !in job.had ==> SeenDead(job.log[r - 1], r, job.live, job.t0, t))
    && (r !in dropped ==> SeenLive(job.log[r - 1], r, job.live, job.t0, t))
  }

  /** Eligible file `x` was rewritten; or it was left as it is, with few dead records or none. */
  ghost predicate Settled(job: Job, x: nat, files: seq<LogFile>, dropped: set<nat>, t: nat)
    requires x < |job.gone| && x < |job.was|
  {
    var f := job.was[x];
    && 0 < f.first <= f.last <= |job.log|
    && (|| Cleaned(job, f.first, f.last, dropped, t)
        || (f in files && Same(job.had, dropped, f.first, f.last)
            && FewDead(|job.gone[x]|, |Kept(job.log, f.first, f.last, job.had)|)))
  }

  /** What measuring a file found: which of its records are dead, and what the others weigh. */
  ghost predicate Measured(f: LogFile, log: seq<WireRecord>, had: set<nat>, gone: set<nat>, bytes: nat, live: Ask,
                           t0: nat, t: nat) {
    && 0 < f.first <= f.last <= |log| && LogFits(log)
    && Judged(log, f.first, f.last, had, gone, live, t0, t)
    && |f.spans| == |Kept(log, f.first, f.last, had)|
    && bytes == LiveWeight(log, f.first, f.last, had + gone)
  }

  ghost function LiveWeight(log: seq<WireRecord>, first: nat, last: nat, gone: set<nat>): nat
    requires 0 < first && last <= |log| && LogFits(log)
  {
    KeptFits(log, first, last, gone);
    EntriesAreRecords(Kept(log, first, last, gone));
    Weight(Encoded(Kept(log, first, last, gone)))
  }

  ghost predicate AllMeasured(was: seq<LogFile>, n: nat, log: seq<WireRecord>, had: set<nat>, gone: seq<set<nat>>,
                              bytes: seq<nat>, live: Ask, t0: nat, t: nat) {
    && n <= |was| && |gone| == |bytes| == n
    && forall x :: 0 <= x < n ==> Measured(was[x], log, had, gone[x], bytes[x], live, t0, t)
  }

  lemma NoneMeasured(was: seq<LogFile>, log: seq<WireRecord>, had: set<nat>, live: Ask, t: nat)
    ensures AllMeasured(was, 0, log, had, [], [], live, t, t)
  {
  }

  lemma MeasuredIs(d: Directory, files: seq<LogFile>, segs: seq<Segment>, log: seq<WireRecord>, dropped: set<nat>,
                   x: nat, entries: seq<Entry>, gone: set<nat>, bytes: nat, live: Ask, t0: nat, t: nat)
    requires Good(d, files, segs, log, dropped) && x < |files| - 1
    requires 0 < files[x].first && files[x].last <= |log| && entries == Kept(log, files[x].first, files[x].last, dropped)
    requires Judged(log, files[x].first, files[x].last, dropped, gone, live, t0, t)
    requires LiveOf(entries, gone) == Kept(log, files[x].first, files[x].last, dropped + gone)
    requires forall i :: 0 <= i < |LiveOf(entries, gone)| ==> RecordOk(LiveOf(entries, gone)[i].record)
    requires bytes == Weight(Encoded(LiveOf(entries, gone)))
    ensures Measured(files[x], log, dropped, gone, bytes, live, t0, t)
  {
    hide Good, LogFits, FileOf, Holds, Whole, Contiguous, Kept, Judged, RecordOk, Weight, LiveOf;
    GoodCount(d, files, segs, log, dropped);
    GoodFile(d, files, segs, log, dropped, x);
    FileOfName(segs[x], log, dropped);
    FileOfCount(segs[x], log, dropped);
    SegmentNonempty(segs, |log|, x);
  }

  /** What was measured against the grown log was measured against the log as it was. */
  lemma MeasuredBefore(f: LogFile, base: seq<WireRecord>, log: seq<WireRecord>, had: set<nat>, gone: set<nat>,
                       bytes: nat, live: Ask, t0: nat, t1: nat, t: nat)
    requires base <= log && f.last <= |base| && t0 <= t1 && Measured(f, log, had, gone, bytes, live, t1, t)
    ensures Measured(f, base, had, gone, bytes, live, t0, t + 1)
  {
    hide LogFits, Kept, Judged, Weight;
    assert base + log[|base|..] == log;
    LogFitsPrefix(base, log[|base|..]);
    KeptGrows(base, log[|base|..], f.first, f.last, had);
    KeptGrows(base, log[|base|..], f.first, f.last, had + gone);
    JudgedBefore(base, log, f.first, f.last, had, gone, live, t1, t);
    JudgedSooner(base, f.first, f.last, had, gone, live, t0, t1, t);
    JudgedLater(base, f.first, f.last, had, gone, live, t0, t, t + 1);
  }

  lemma MeasuredLater(f: LogFile, log: seq<WireRecord>, had: set<nat>, gone: set<nat>, bytes: nat, live: Ask, t0: nat,
                      t: nat, t1: nat)
    requires t <= t1 && Measured(f, log, had, gone, bytes, live, t0, t)
    ensures Measured(f, log, had, gone, bytes, live, t0, t1)
  {
    hide LogFits, Kept, Judged, LiveWeight;
    JudgedLater(log, f.first, f.last, had, gone, live, t0, t, t1);
  }

  lemma AllMeasuredLater(was: seq<LogFile>, n: nat, log: seq<WireRecord>, had: set<nat>, gone: seq<set<nat>>,
                         bytes: seq<nat>, live: Ask, t0: nat, t: nat, t1: nat)
    requires t <= t1 && AllMeasured(was, n, log, had, gone, bytes, live, t0, t)
    ensures AllMeasured(was, n, log, had, gone, bytes, live, t0, t1)
  {
    hide Measured;
    forall x | 0 <= x < n
      ensures Measured(was[x], log, had, gone[x], bytes[x], live, t0, t1)
    {
      MeasuredLater(was[x], log, had, gone[x], bytes[x], live, t0, t, t1);
    }
  }

  lemma MeasuredNext(was: seq<LogFile>, x: nat, base: seq<WireRecord>, log: seq<WireRecord>, had: set<nat>,
                     gone: seq<set<nat>>, bytes: seq<nat>, live: Ask, t0: nat, t1: nat, t: nat, g: set<nat>, b: nat)
    requires base <= log && x < |was| && was[x].last <= |base| && t0 <= t1 <= t
    requires AllMeasured(was, x, base, had, gone, bytes, live, t0, t1)
    requires Measured(was[x], log, had, g, b, live, t1, t)
    ensures AllMeasured(was, x + 1, base, had, gone + [g], bytes + [b], live, t0, t + 1)
  {
    hide Measured;
    AllMeasuredLater(was, x, base, had, gone, bytes, live, t0, t1, t + 1);
    MeasuredBefore(was[x], base, log, had, g, b, live, t0, t1, t);
  }

  /** What `FlushGroup` does to the files and the dropped records. */
  ghost predicate Flushed(files: seq<LogFile>, dropped: set<nat>, after: seq<LogFile>, gone: set<nat>,
                          log: seq<WireRecord>, at: nat, size: nat, dead: nat, lost: set<nat>, live: Ask, t0: nat,
                          t: nat) {
    && 0 < size && at + size < |files| && t0 <= t
    && 0 < files[at].first <= files[at + size - 1].last <= |log|
    && |files| - size + 1 <= |after|
    && after[..at] == files[..at] && after[at + 1..|files| - size] == files[at + size..|files| - 1]
    && after[at].first == files[at].first && after[at].last == files[at + size - 1].last
    && if size == 1 && FewDead(dead, |files[at].spans|) then after[at] == files[at] && gone == dropped
       else gone == dropped + lost && Judged(log, files[at].first, files[at + size - 1].last, dropped, lost, live, t0, t)
  }

  lemma LoneFlushed(files: seq<LogFile>, dropped: set<nat>, log: seq<WireRecord>, at: nat, dead: nat, live: Ask, t: nat)
    requires at + 1 < |files| && FewDead(dead, |files[at].spans|) && 0 < files[at].first <= files[at].last <= |log|
    ensures Flushed(files, dropped, files, dropped, log, at, 1, dead, {}, live, t, t)
  {
  }

  lemma GroupFlushed(files: seq<LogFile>, dropped: set<nat>, after: seq<LogFile>, gone: set<nat>, log: seq<WireRecord>,
                     at: nat, size: nat, dead: nat, lost: set<nat>, live: Ask, t0: nat, t: nat)
    requires 0 < size && at + size < |files| && t0 <= t && Swapped(files, after, at, at + size)
    requires 0 < files[at].first <= files[at + size - 1].last <= |log|
    requires !(size == 1 && FewDead(dead, |files[at].spans|))
    requires gone == dropped + lost && Judged(log, files[at].first, files[at + size - 1].last, dropped, lost, live, t0, t)
    ensures Flushed(files, dropped, after, gone, log, at, size, dead, lost, live, t0, t)
  {
    hide Judged;
  }

  /** The eligible files were measured, some time since the compaction began. */
  ghost predicate JobMeasured(job: Job, t: nat) {
    AllMeasured(job.was, |job.gone|, job.log, job.had, job.gone, job.bytes, job.live, job.t0, t)
  }

  /** The eligible files are the closed ones at or below the point. */
  ghost predicate EligibleFirst(job: Job) {
    |job.gone| < |job.was| && forall x :: 0 <= x < |job.was| - 1 ==> (job.was[x].last <= job.through <==> x < |job.gone|)
  }

  /** What a compaction has done, once it is done. */
  ghost predicate Rewrote(job: Job, files: seq<LogFile>, dropped: set<nat>, t: nat) {
    && EligibleFirst(job) && job.t0 <= t
    && JobMeasured(job, t)
    && OnlyDead(job, dropped, t)
    && (forall x :: 0 <= x < |job.gone| ==> Settled(job, x, files, dropped, t))
    && (forall r :: r >= job.was[|job.gone|].first ==> (r in dropped <==> r in job.had))
  }

  /** The files from `at` on are those that were from `from` to before `n`, and more. */
  ghost predicate Untaken(was: seq<LogFile>, files: seq<LogFile>, at: nat, from: nat, n: nat) {
    from <= n < |was| && at + (n - from) < |files| && files[at..at + (n - from)] == was[from..n]
  }

  /** `x` files have been taken, the last `size` of them into a group that starts at `at`. */
  ghost predicate Progress(job: Job, files: seq<LogFile>, dropped: set<nat>, t: nat, at: nat, size: nat, dead: nat,
                           x: nat) {
    && size <= x <= |job.gone| < |job.was| && job.t0 <= t
    && (size == 0 ==> dead == 0)
    && (size == 1 ==> dead == |job.gone[x - 1]|)
    && Untaken(job.was, files, at, x - size, |job.gone|) && at <= |files|
    && ProgressTo(job, files[..at], dropped, t, x - size)
    && OnlyDead(job, dropped, t)
    && JobMeasured(job, t)
    && InOrder(job.was, |job.log|)
    && EligibleFirst(job)
  }

  /** The files before `from` are settled, and nothing from there on has been dropped. */
  ghost predicate ProgressTo(job: Job, files: seq<LogFile>, dropped: set<nat>, t: nat, from: nat)
    requires from <= |job.gone| < |job.was|
  {
    && (forall y :: 0 <= y < from ==> Settled(job, y, files, dropped, t))
    && (forall r :: r >= job.was[from].first ==> (r in dropped <==> r in job.had))
  }

  lemma JobBegins(job: Job, t: nat)
    requires |job.gone| < |job.was| && forall x :: 0 <= x < |job.was| - 1 ==> (job.was[x].last <= job.through <==> x < |job.gone|)
    requires AllMeasured(job.was, |job.gone|, job.log, job.had, job.gone, job.bytes, job.live, job.t0, t)
    ensures EligibleFirst(job) && JobMeasured(job, t)
  {
    hide AllMeasured;
  }

  lemma ProgressNone(job: Job, files: seq<LogFile>, log: seq<WireRecord>, t: nat, limit: int)
    requires InOrder(job.was, |job.log|) && EligibleFirst(job) && Moved(job.was, job.log, files, log) && job.t0 <= t
    requires JobMeasured(job, t)
    ensures Progress(job, files, job.had, t, 0, 0, 0, 0)
    ensures Packing(job.was, files, job.bytes, [], 0, 0, 0, 0, limit)
  {
    hide InOrder, Settled, Measured;
    var n := |job.gone|;
    forall y | 0 <= y < n
      ensures files[y] == job.was[y]
    {
      ClosedSame(job.was, job.log, files, log, y);
    }
    assert files[0..n] == job.was[0..n];
  }

  lemma ProgressBounds(job: Job, files: seq<LogFile>, dropped: set<nat>, t: nat, at: nat, size: nat, dead: nat, x: nat)
    requires Progress(job, files, dropped, t, at, size, dead, x) && 0 < size
    ensures at + size < |files| && size <= x <= |job.gone| < |job.was|
    ensures files[at] == job.was[x - size] && files[at + size - 1] == job.was[x - 1]
    ensures files[at + size - 1].last <= job.through && job.was[x - 1].last <= |job.log|
    ensures forall y :: x <= y < |job.gone| ==> files[at + size + (y - x)] == job.was[y]
  {
    hide Settled, Measured, OnlyDead, AllMeasured;
    var was, n := job.was, |job.gone|;
    var rest := files[at..at + (n - x + size)];
    assert rest[0] == was[x - size..n][0] && rest[size - 1] == was[x - size..n][size - 1];
    forall y | x <= y < n
      ensures files[at + size + (y - x)] == was[y]
    {
      assert rest[size + (y - x)] == was[x - size..n][size + (y - x)];
    }
  }

  lemma ProgressTake(job: Job, files: seq<LogFile>, dropped: set<nat>, t: nat, at: nat, size: nat, dead: nat, x: nat,
                     more: nat)
    requires Progress(job, files, dropped, t, at, size, dead, x)
    requires x < |job.gone| && more == |job.gone[x]|
    ensures Progress(job, files, dropped, t, at, size + 1, dead + more, x + 1)
  {
    hide InOrder, AllMeasured, ProgressTo, OnlyDead;
  }

  /** Outside the group, a flush drops nothing. */
  lemma FlushedElse(job: Job, files: seq<LogFile>, dropped: set<nat>, after: seq<LogFile>, gone: set<nat>, at: nat,
                    size: nat, dead: nat, lost: set<nat>, t1: nat, t: nat)
    requires Flushed(files, dropped, after, gone, job.log, at, size, dead, lost, job.live, t1, t) && job.t0 <= t1
    requires OnlyDead(job, dropped, t1) && files[at + size - 1].last <= job.through
    ensures DropsWithin(dropped, gone, files[at].first, files[at + size - 1].last)
    ensures OnlyDead(job, gone, t)
  {
    hide SeenDead, SeenLive;
    forall r | r in gone && r !in job.had
      ensures WasDead(job, r, t)
    {
      if r in dropped {
        assert WasDead(job, r, t1);
        SeenLater(job.log[r - 1], r, job.live, job.t0, t1, t);
      } else {
        SeenSooner(job.log[r - 1], r, job.live, job.t0, t1, t);
      }
    }
  }

  /** A file before the group stays settled. */
  lemma SettledStays(job: Job, x: nat, files: seq<LogFile>, after: seq<LogFile>, dropped: set<nat>, gone: set<nat>,
                     t: nat, t1: nat)
    requires x < |job.gone| && x < |job.was| && Settled(job, x, files, dropped, t) && t <= t1
    requires Same(dropped, gone, job.was[x].first, job.was[x].last) && (job.was[x] in files ==> job.was[x] in after)
    ensures Settled(job, x, after, gone, t1)
  {
    hide SeenDead, SeenLive, Kept;
    var f := job.was[x];
    if Cleaned(job, f.first, f.last, dropped, t) {
      forall r: nat | f.first <= r <= f.last
        ensures CleanedAt(job, r, gone, t1)
      {
        assert CleanedAt(job, r, dropped, t);
        SeenLater(job.log[r - 1], r, job.live, job.t0, t, t1);
      }
    }
  }

  /** A file of the group is settled. */
  lemma GroupSettled(job: Job, x: nat, first: nat, last: nat, after: seq<LogFile>, dropped: set<nat>, lost: set<nat>,
                     t1: nat, t: nat)
    requires x < |job.gone| && x < |job.was| && job.t0 <= t1
    requires 0 < first <= job.was[x].first <= job.was[x].last <= last <= |job.log|
    requires Same(job.had, dropped, first, last) && Judged(job.log, first, last, dropped, lost, job.live, t1, t)
    ensures Settled(job, x, after, dropped + lost, t)
  {
    hide SeenDead, SeenLive, Kept;
    forall r: nat | job.was[x].first <= r <= job.was[x].last
      ensures CleanedAt(job, r, dropped + lost, t)
    {
      SeenSooner(job.log[r - 1], r, job.live, job.t0, t1, t);
    }
  }

  lemma LoneSettled(job: Job, x: nat, files: seq<LogFile>, dropped: set<nat>, t1: nat, t: nat)
    requires JobMeasured(job, t1) && x < |job.gone| && x < |job.was| && job.was[x] in files
    requires FewDead(|job.gone[x]|, |job.was[x].spans|) && Same(job.had, dropped, job.was[x].first, job.was[x].last)
    ensures Settled(job, x, files, dropped, t)
  {
    hide Judged, Kept, Cleaned, LiveWeight;
    assert Measured(job.was[x], job.log, job.had, job.gone[x], job.bytes[x], job.live, job.t0, t1);
  }

  lemma FlushSettles(job: Job, f: seq<LogFile>, g: set<nat>, files: seq<LogFile>, dropped: set<nat>, t1: nat, t: nat,
                     at: nat, size: nat, dead: nat, x: nat, lost: set<nat>, y: nat)
    requires Progress(job, f, g, t1, at, size, dead, x) && 0 < size
    requires Flushed(f, g, files, dropped, job.log, at, size, dead, lost, job.live, t1, t)
    requires y < x
    ensures Settled(job, y, files[..at + 1], dropped, t)
  {
    hide Settled, AllMeasured, OnlyDead, Judged;
    ProgressBounds(job, f, g, t1, at, size, dead, x);
    FlushedElse(job, f, g, files, dropped, at, size, dead, lost, t1, t);
    var was := job.was;
    var first, last := was[x - size].first, was[x - 1].last;
    assert Ahead(was[y], was[|was| - 1]);
    assert files[..at + 1] == files[..at] + [files[at]];
    if y < x - size {
      assert Ahead(was[y], was[x - size]);
      SettledStays(job, y, f[..at], files[..at + 1], g, dropped, t1, t);
    } else if size == 1 && FewDead(dead, |f[at].spans|) {
      assert y == x - 1;
      assert files[at] == was[y];
      LoneSettled(job, y, files[..at + 1], dropped, t1, t);
    } else {
      assert y > x - size ==> Ahead(was[x - size], was[y]);
      assert y < x - 1 ==> Ahead(was[y], was[x - 1]);
      GroupSettled(job, y, first, last, files[..at + 1], g, lost, t1, t);
    }
  }

  lemma ProgressFlush(job: Job, f: seq<LogFile>, g: set<nat>, files: seq<LogFile>, dropped: set<nat>, t1: nat, t: nat,
                      at: nat, size: nat, dead: nat, x: nat, lost: set<nat>)
    requires Progress(job, f, g, t1, at, size, dead, x) && 0 < size
    requires Flushed(f, g, files, dropped, job.log, at, size, dead, lost, job.live, t1, t)
    ensures Progress(job, files, dropped, t, at + 1, 0, 0, x)
  {
    hide Settled, OnlyDead, Judged, AllMeasured;
    var was, n := job.was, |job.gone|;
    ProgressBounds(job, f, g, t1, at, size, dead, x);
    FlushedElse(job, f, g, files, dropped, at, size, dead, lost, t1, t);
    AllMeasuredLater(was, n, job.log, job.had, job.gone, job.bytes, job.live, job.t0, t1, t);
    assert Ahead(was[x - 1], was[x]);
    assert was[x - size].first <= was[x].first by {
      assert Ahead(was[x - size], was[x]);
    }
    var done := files[..at + 1];
    forall y | 0 <= y < x
      ensures Settled(job, y, done, dropped, t)
    {
      FlushSettles(job, f, g, files, dropped, t1, t, at, size, dead, x, lost, y);
    }
    var rest := files[at + 1..|f| - size];
    forall y | x <= y < n
      ensures files[at + 1 + (y - x)] == was[y]
    {
      assert rest[y - x] == f[at + size..|f| - 1][y - x];
    }
    SliceIs(files, at + 1, was, x, n);
  }

  lemma SliceIs(files: seq<LogFile>, at: nat, was: seq<LogFile>, x: nat, n: nat)
    requires x <= n <= |was| && at + (n - x) <= |files|
    requires forall y :: x <= y < n ==> files[at + (y - x)] == was[y]
    ensures files[at..at + (n - x)] == was[x..n]
  {
    var a, b := files[at..at + (n - x)], was[x..n];
    forall k | 0 <= k < |a|
      ensures a[k] == b[k]
    {
      assert was[x + k] == files[at + (x + k - x)];
    }
  }

  lemma WithinLog(files: seq<LogFile>, n: nat, x: nat)
    requires InOrder(files, n) && x < |files|
    ensures files[x].last <= n
  {
  }

  /** What a flush did, seen from the log as compaction found it. */
  lemma FlushedEarlier(f: seq<LogFile>, g: set<nat>, files: seq<LogFile>, dropped: set<nat>, base: seq<WireRecord>,
                       log: seq<WireRecord>, at: nat, size: nat, dead: nat, lost: set<nat>, live: Ask, t0: nat, t: nat)
    requires base <= log && Flushed(f, g, files, dropped, log, at, size, dead, lost, live, t0, t)
    requires f[at + size - 1].last <= |base|
    ensures Flushed(f, g, files, dropped, base, at, size, dead, lost, live, t0, t)
    ensures at < |files| && files[..at] == f[..at]
    ensures files[at].first == f[at].first && files[at].last == f[at + size - 1].last
  {
    hide SeenDead, SeenLive;
  }

  lemma ProgressDone(job: Job, files: seq<LogFile>, dropped: set<nat>, t: nat, at: nat, dead: nat)
    requires Progress(job, files, dropped, t, at, 0, dead, |job.gone|)
    ensures Rewrote(job, files, dropped, t)
  {
    hide OnlyDead, AllMeasured, Settled, InOrder;
    forall x | 0 <= x < |job.gone|
      ensures Settled(job, x, files, dropped, t)
    {
      SettledStays(job, x, files[..at], files, dropped, dropped, t, t);
    }
  }

  // ---------------------------------------------------------------------
  // How files are put together

  ghost function Sum(bytes: seq<nat>, a: nat, b: nat): nat
    requires a <= b <= |bytes|
  {
    if a == b then 0 else Sum(bytes, a, b - 1) + bytes[b - 1]
  }

  /** A group's live bytes fit, unless they are all in its last file. */
  ghost predicate GroupFits(bytes: seq<nat>, a: nat, b: nat, limit: int)
    requires a < b <= |bytes|
  {
    Sum(bytes, a, b) <= limit || Sum(bytes, a, b - 1) == 0
  }

  /** The next file did not fit. */
  ghost predicate GroupFull(bytes: seq<nat>, a: nat, b: nat, limit: int) {
    a < b < |bytes| && Sum(bytes, a, b) > 0 && Sum(bytes, a, b) + bytes[b] > limit
  }

  /** Where group `g` ends: where the next starts, or at `n`. */
  function EndOf(cuts: seq<nat>, g: nat, n: nat): nat
    requires g < |cuts|
  {
    if g + 1 < |cuts| then cuts[g + 1] else n
  }

  /** Group `g` of the first `n` files has become file `g`. */
  ghost predicate Placed(was: seq<LogFile>, files: seq<LogFile>, bytes: seq<nat>, cuts: seq<nat>, g: nat, n: nat,
                         limit: int)
    requires g < |cuts| && n <= |bytes| && n <= |was|
  {
    && cuts[g] < EndOf(cuts, g, n) <= n && g < |files|
    && GroupFits(bytes, cuts[g], EndOf(cuts, g, n), limit)
    && files[g].first == was[cuts[g]].first && files[g].last == was[EndOf(cuts, g, n) - 1].last
  }

  /** The first files were put together in groups, each as large as fits, and each has become one file. */
  ghost predicate Packed(was: seq<LogFile>, files: seq<LogFile>, bytes: seq<nat>, cuts: seq<nat>, limit: int) {
    && |bytes| <= |was|
    && (if bytes == [] then cuts == [] else cuts != [] && cuts[0] == 0)
    && (forall g :: 0 <= g < |cuts| ==> Placed(was, files, bytes, cuts, g, |bytes|, limit))
    && (forall g :: 0 <= g < |cuts| - 1 ==> GroupFull(bytes, cuts[g], EndOf(cuts, g, |bytes|), limit))
  }

  /** The files before `start` are packed; those from there to `x` are the group being collected. */
  ghost predicate Packing(was: seq<LogFile>, files: seq<LogFile>, bytes: seq<nat>, cuts: seq<nat>, at: nat, start: nat,
                          x: nat, groupBytes: nat, limit: int) {
    && at == |cuts| && start <= x <= |bytes| <= |was|
    && (if start == 0 then cuts == [] else cuts != [] && cuts[0] == 0)
    && (forall g :: 0 <= g < |cuts| ==> Placed(was, files, bytes, cuts, g, start, limit))
    && (forall g :: 0 <= g < |cuts| ==> GroupFull(bytes, cuts[g], EndOf(cuts, g, start), limit))
    && groupBytes == Sum(bytes, start, x)
    && (start < x ==> GroupFits(bytes, start, x, limit))
  }

  lemma PackingTake(was: seq<LogFile>, files: seq<LogFile>, bytes: seq<nat>, cuts: seq<nat>, at: nat, start: nat,
                    x: nat, groupBytes: nat, limit: int)
    requires Packing(was, files, bytes, cuts, at, start, x, groupBytes, limit) && x < |bytes|
    requires groupBytes == 0 || groupBytes + bytes[x] <= limit
    ensures Packing(was, files, bytes, cuts, at, start, x + 1, groupBytes + bytes[x], limit)
  {
    hide Placed, GroupFull;
  }

  /** Closing the group: it becomes the next file. */
  lemma Placing(was: seq<LogFile>, f: seq<LogFile>, files: seq<LogFile>, bytes: seq<nat>, cuts: seq<nat>, at: nat,
                start: nat, x: nat, groupBytes: nat, limit: int)
    requires Packing(was, f, bytes, cuts, at, start, x, groupBytes, limit) && start < x && at < |files| && at <= |f|
        && files[..at] == f[..at]
    requires files[at].first == was[start].first && files[at].last == was[x - 1].last
    ensures var more := cuts + [start];
            && more[0] == 0
            && (forall g :: 0 <= g < |more| ==> Placed(was, files, bytes, more, g, x, limit))
            && (forall g :: 0 <= g < |more| - 1 ==> GroupFull(bytes, more[g], EndOf(more, g, x), limit))
  {
    hide GroupFull, GroupFits;
    var more := cuts + [start];
    forall g | 0 <= g < |more|
      ensures Placed(was, files, bytes, more, g, x, limit)
      ensures g < |cuts| ==> EndOf(more, g, x) == EndOf(cuts, g, start) && more[g] == cuts[g]
    {
      if g < |cuts| {
        assert Placed(was, f, bytes, cuts, g, start, limit);
        assert files[..at][g] == f[..at][g];
      }
    }
  }

  lemma PackingFlush(was: seq<LogFile>, f: seq<LogFile>, files: seq<LogFile>, bytes: seq<nat>, cuts: seq<nat>, at: nat,
                     start: nat, x: nat, groupBytes: nat, limit: int)
    requires Packing(was, f, bytes, cuts, at, start, x, groupBytes, limit) && start < x < |bytes| && at < |files|
        && at <= |f| && files[..at] == f[..at]
    requires files[at].first == was[start].first && files[at].last == was[x - 1].last
    requires groupBytes > 0 && groupBytes + bytes[x] > limit
    ensures Packing(was, files, bytes, cuts + [start], at + 1, x, x, 0, limit)
  {
    hide Placed;
    Placing(was, f, files, bytes, cuts, at, start, x, groupBytes, limit);
  }

  lemma PackingLast(was: seq<LogFile>, f: seq<LogFile>, files: seq<LogFile>, bytes: seq<nat>, cuts: seq<nat>, at: nat,
                    start: nat, groupBytes: nat, limit: int)
    requires Packing(was, f, bytes, cuts, at, start, |bytes|, groupBytes, limit) && start < |bytes| && at < |files|
        && at <= |f| && files[..at] == f[..at]
    requires files[at].first == was[start].first && files[at].last == was[|bytes| - 1].last
    ensures Packed(was, files, bytes, cuts + [start], limit)
  {
    hide Placed, GroupFull;
    Placing(was, f, files, bytes, cuts, at, start, |bytes|, groupBytes, limit);
  }

  lemma NothingPacked(was: seq<LogFile>, files: seq<LogFile>, bytes: seq<nat>, cuts: seq<nat>, at: nat, groupBytes: nat,
                      limit: int)
    requires Packing(was, files, bytes, cuts, at, 0, 0, groupBytes, limit) && bytes == []
    ensures Packed(was, files, bytes, cuts, limit)
  {
  }
}
