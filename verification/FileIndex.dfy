/**
 The in-memory index of the log's files agrees with the directory: what each
 change to both keeps, and what a lookup through it finds.
 */
module FileIndex {
  import opened Bytes
  import opened Records
  import opened Wire
  import opened LogCodec
  import opened LogCodecLoops
  import opened LogFiles
  import opened Recovery
  import opened LogSteps

  /** The directory holds the log, and the index describes its files. */
  ghost predicate Good(d: Directory, files: seq<LogFile>, segs: seq<Segment>, log: seq<WireRecord>, dropped: set<nat>) {
    && Layout(d, segs, log, dropped, [])
    && segs != [] && !segs[|segs| - 1].sparse
    && files == FilesOf(segs, log, dropped)
    && UpTo(dropped, |log|)
  }

  /** A file of the index, and the file it describes. */
  lemma GoodFile(d: Directory, files: seq<LogFile>, segs: seq<Segment>, log: seq<WireRecord>, dropped: set<nat>, i: nat)
    requires Good(d, files, segs, log, dropped) && i < |segs|
    ensures |files| == |segs| && LogFits(log) && Contiguous(segs, |log|)
    ensures SegmentOk(segs[i], |log|)
    ensures files[i] == FileOf(segs[i], log, dropped)
    ensures FileName(files[i]) == SegName(segs[i]) && SegName(segs[i]) in d
    ensures Holds(d, segs[i], log, dropped, []) && Whole(segs[i], dropped)
  {
    hide LogFits, Holds, Whole, Content;
    LayoutHas(d, segs, log, dropped, [], i);
    FileOfName(segs[i], log, dropped);
  }

  lemma FileOfName(s: Segment, log: seq<WireRecord>, dropped: set<nat>)
    requires 0 < s.first && s.last <= |log| && LogFits(log)
    ensures FileName(FileOf(s, log, dropped)) == SegName(s)
    ensures FileOf(s, log, dropped).first == s.first
    ensures FileOf(s, log, dropped).last == s.last
    ensures FileOf(s, log, dropped).sparse == s.sparse
  {
    hide LogFits, Kept, File, SpansAt;
  }

  // ---------------------------------------------------------------------
  // A committed batch

  function Shift(spans: seq<Span>, n: nat): (r: seq<Span>)
    ensures |r| == |spans|
    ensures forall i :: 0 <= i < |r| ==> r[i] == Span(spans[i].offset + n, spans[i].length)
  {
    seq(|spans|, i requires 0 <= i < |spans| => Span(spans[i].offset + n, spans[i].length))
  }

  /** Spans within a buffer, moved to where the buffer is written, are those of the records there. */
  lemma {:induction false} SpansShift(entries: seq<Entry>, pos: nat, n: nat)
    requires forall i :: 0 <= i < |entries| ==> RecordOk(entries[i].record)
    ensures Shift(SpansAt(entries, pos), n) == SpansAt(entries, pos + n)
    decreases |entries|
  {
    hide RecordOk, Message, Varint, SpansAt, Frames;
    NoFrames(pos);
    NoFrames(pos + n);
    if entries != [] {
      SpansNext(entries, pos);
      SpansNext(entries, pos + n);
      var m := |Varint(|Message(entries[0])|)| + |Message(entries[0])|;
      SpansShift(entries[1..], pos + m, n);
      assert pos + m + n == pos + n + m;
    }
  }

  /** The active file's entry in the index after a batch. */
  function WithBatch(f: LogFile, spans: seq<Span>, bytes: nat, count: nat): LogFile {
    f.(spans := f.spans + Shift(spans, f.size), size := f.size + bytes, last := f.last + count)
  }

  lemma ClosedUnchanged(s: Segment, log: seq<WireRecord>, more: seq<WireRecord>, dropped: set<nat>)
    requires 0 < s.first && s.last <= |log| && LogFits(log) && LogFits(log + more)
    ensures FileOf(s, log + more, dropped) == FileOf(s, log, dropped)
  {
    hide LogFits, Kept, File, SpansAt;
    KeptGrows(log, more, s.first, s.last, dropped);
  }

  lemma ActiveGrows(s: Segment, log: seq<WireRecord>, more: seq<WireRecord>, dropped: set<nat>)
    requires 0 < s.first && s.first - 1 <= s.last == |log| && !s.sparse && LogFits(log) && LogFits(log + more)
    requires EntriesOk(Numbered(|log| + 1, more))
    requires forall i :: 0 <= i < |more| ==> RecordOk(more[i])
    requires UpTo(dropped, |log|)
    ensures var add := Numbered(|log| + 1, more);
            FileOf(s.(last := |log| + |more|), log + more, dropped) ==
            WithBatch(FileOf(s, log, dropped), SpansAt(add, 0), |Frames(add)|, |more|)
  {
    hide LogFits, Kept, Frames, SpansAt, EntriesOk, Numbered, RecordOk;
    var n := |log| + |more|;
    KeptSplits(log + more, s.first, |log|, n, dropped);
    KeptAppended(log, more, dropped);
    KeptGrows(log, more, s.first, |log|, dropped);
    KeptFits(log, s.first, |log|, dropped);
    var has, add := Kept(log, s.first, |log|, dropped), Numbered(|log| + 1, more);
    EntriesAreRecords(has);
    FileAppend(has, add);
    SpansConcat(has, add, |MAGIC|);
    SpansShift(add, 0, |File(has)|);
    assert |MAGIC| + |Frames(has)| == |File(has)|;
  }

  lemma {:induction false} IndexGrows(segs: seq<Segment>, log: seq<WireRecord>, more: seq<WireRecord>, dropped: set<nat>)
    requires Contiguous(segs, |log|) && segs != [] && !segs[|segs| - 1].sparse
    requires LogFits(log) && LogFits(log + more) && EntriesOk(Numbered(|log| + 1, more))
    requires forall i :: 0 <= i < |more| ==> RecordOk(more[i])
    requires UpTo(dropped, |log|)
    ensures var add := Numbered(|log| + 1, more);
            var files := FilesOf(segs, log, dropped);
            var g := Grown(segs, |log| + |more|);
            && Contiguous(g, |log| + |more|)
            && FilesOf(g, log + more, dropped) ==
               files[|segs| - 1 := WithBatch(files[|segs| - 1], SpansAt(add, 0), |Frames(add)|, |more|)]
  {
    hide Contiguous, LogFits, EntriesOk, Numbered, RecordOk, FileOf, WithBatch, SpansAt, Frames;
    var k := |segs| - 1;
    var g := Grown(segs, |log| + |more|);
    GrownContiguous(segs, |log|, |log| + |more|);
    LayoutBounds(segs, |log|);
    LayoutBounds(g, |log| + |more|);
    ActiveIs(segs, |log|);
    ActiveGrows(segs[k], log, more, dropped);
    var add := Numbered(|log| + 1, more);
    var files := FilesOf(segs, log, dropped);
    var after := FilesOf(g, log + more, dropped);
    forall i | 0 <= i < k
      ensures after[i] == files[i]
    {
      ClosedUnchanged(segs[i], log, more, dropped);
    }
    assert after[k] == WithBatch(files[k], SpansAt(add, 0), |Frames(add)|, |more|);
    assert after == files[k := after[k]];
  }

  /** A batch appended and published keeps the index right. */
  lemma GoodCommit(d: Directory, files: seq<LogFile>, segs: seq<Segment>, log: seq<WireRecord>, dropped: set<nat>,
                   left: Leftover, more: seq<WireRecord>)
    requires Good(d, files, segs, log, dropped) && Tidy(d, segs, log, dropped, [], left) && LogFits(log + more)
    ensures EntriesOk(Numbered(|log| + 1, more))
    ensures forall i :: 0 <= i < |more| ==> RecordOk(more[i])
    ensures |files| == |segs| && FileName(files[|segs| - 1]) in d
    ensures var add := Numbered(|log| + 1, more);
            var k := |files| - 1;
            var e := d[FileName(files[k]) := d[FileName(files[k])] + Frames(add)];
            && Good(e, files[k := WithBatch(files[k], SpansAt(add, 0), |Frames(add)|, |more|)],
                    Grown(segs, |log| + |more|), log + more, dropped)
            && Tidy(e, Grown(segs, |log| + |more|), log + more, dropped, [], left)
  {
    hide Layout, Contiguous, LogFits, EntriesOk, Numbered, RecordOk, FileOf, WithBatch, SpansAt, Frames, FilesOf, Torn,
        Holds, Whole, Tidy;
    var k := |segs| - 1;
    GoodFile(d, files, segs, log, dropped, k);
    NumberedFits(log, more);
    EntriesAreRecords(Numbered(|log| + 1, more));
    IndexGrows(segs, log, more, dropped);
    NothingTorn();
    TidyAppend(d, segs, log, dropped, left, more, []);
    var bytes := Frames(Numbered(|log| + 1, more));
    assert d[SegName(segs[k])] + bytes + [] == d[SegName(segs[k])] + bytes;
    TidyLayout(Appended(d, SegName(segs[k]), log, more, []), Grown(segs, |log| + |more|), log + more, dropped, [], left);
  }

  // ---------------------------------------------------------------------
  // A new active file

  const NEW_SIZE: nat := |MAGIC|

  function NewFile(n: nat): LogFile {
    LogFile(n + 1, n, false, NEW_SIZE, [], [])
  }

  lemma NewFileIs(log: seq<WireRecord>, dropped: set<nat>)
    requires LogFits(log)
    ensures FileOf(Segment(|log| + 1, |log|, false), log, dropped) == NewFile(|log|)
  {
    hide LogFits;
    assert Kept(log, |log| + 1, |log|, dropped) == [];
    assert Frames([]) == [];
  }

  lemma FilesOfNext(segs: seq<Segment>, log: seq<WireRecord>, dropped: set<nat>)
    requires LogFits(log) && Contiguous(segs, |log|)
    requires Contiguous(segs + [Segment(|log| + 1, |log|, false)], |log|)
    ensures FilesOf(segs + [Segment(|log| + 1, |log|, false)], log, dropped) == FilesOf(segs, log, dropped) + [NewFile(|log|)]
  {
    hide LogFits, FileOf, NewFile;
    NewFileIs(log, dropped);
  }

  /** Starting the next file, when there is none or the last one has a record. */
  lemma GoodNext(d: Directory, segs: seq<Segment>, log: seq<WireRecord>, dropped: set<nat>, left: Leftover)
    requires Tidy(d, segs, log, dropped, [], left)
    requires segs != [] ==> segs[|segs| - 1].first <= segs[|segs| - 1].last
    ensures LogFits(log) && Contiguous(segs, |log|)
    ensures Dense(|log| + 1) !in d
    ensures var e, more := d[Dense(|log| + 1) := MAGIC], segs + [Segment(|log| + 1, |log|, false)];
            && Good(e, FilesOf(segs, log, dropped) + [NewFile(|log|)], more, log, dropped)
            && Tidy(e, more, log, dropped, [], left)
  {
    hide Layout, Contiguous, LogFits, FileOf, FilesOf, NewFile, Tidy, UpTo;
    TidyLayout(d, segs, log, dropped, [], left);
    LayoutContiguous(d, segs, log, dropped, []);
    LayoutBounds(segs, |log|);
    TidyNext(d, segs, log, dropped, left);
    var more := segs + [Segment(|log| + 1, |log|, false)];
    TidyLayout(d[Dense(|log| + 1) := MAGIC], more, log, dropped, [], left);
    NextContiguous(segs, |log|);
    LayoutBounds(more, |log|);
    FilesOfNext(segs, log, dropped);
  }

  // ---------------------------------------------------------------------
  // Which records a rewrite keeps

  /** Whether a key still needs the record at a revision, as answered at some moment. */
  type Ask = (nat, Key, nat) -> bool

  /** Each key of the record was found dead at some moment from `t0` to before `t1`. */
  ghost predicate SeenDead(record: WireRecord, revision: nat, live: Ask, t0: nat, t1: nat) {
    forall i :: 0 <= i < |record| && record[i].kv.Some? ==> DeadBetween(record[i].kv.value.key, revision, live, t0, t1)
  }

  ghost predicate DeadBetween(key: Key, revision: nat, live: Ask, t0: nat, t1: nat) {
    exists t: nat :: t0 <= t < t1 && !live(t, key, revision)
  }

  ghost predicate LiveBetween(key: Key, revision: nat, live: Ask, t0: nat, t1: nat) {
    exists t: nat :: t0 <= t < t1 && live(t, key, revision)
  }

  /** Some key of the record was found live at some moment from `t0` to before `t1`. */
  ghost predicate SeenLive(record: WireRecord, revision: nat, live: Ask, t0: nat, t1: nat) {
    exists i :: 0 <= i < |record| && record[i].kv.Some? && LiveBetween(record[i].kv.value.key, revision, live, t0, t1)
  }

  /** Of the records of a range not yet dropped, those in `dead` were found dead, the others live. */
  ghost predicate Judged(log: seq<WireRecord>, first: nat, last: nat, dropped: set<nat>, dead: set<nat>, live: Ask,
                         t0: nat, t1: nat) {
    && 0 < first && last <= |log|
    && (forall r :: r in dead ==> first <= r <= last && r !in dropped && SeenDead(log[r - 1], r, live, t0, t1))
    && (forall r :: first <= r <= last && r !in dropped && r !in dead ==> SeenLive(log[r - 1], r, live, t0, t1))
  }

  /** The entries that are not dead. */
  function LiveOf(entries: seq<Entry>, dead: set<nat>): seq<Entry> {
    if entries == [] then []
    else
      var e := entries[|entries| - 1];
      LiveOf(entries[..|entries| - 1], dead) + if e.revision in dead then [] else [e]
  }

  lemma LiveOfNothing(dead: set<nat>)
    ensures LiveOf([], dead) == []
  {
  }

  lemma LiveOfOne(entries: seq<Entry>, dead: set<nat>, e: Entry)
    ensures LiveOf(entries + [e], dead) == LiveOf(entries, dead) + if e.revision in dead then [] else [e]
  {
    assert (entries + [e])[..|entries|] == entries;
  }

  /** Keeping the live records of a file leaves what compaction has not dropped. */
  lemma {:induction false} LiveOfKept(log: seq<WireRecord>, first: nat, last: int, dropped: set<nat>, dead: set<nat>)
    requires 0 < first && last <= |log|
    ensures LiveOf(Kept(log, first, last, dropped), dead) == Kept(log, first, last, dropped + dead)
    decreases last
  {
    hide LiveOf;
    if last < first {
      LiveOfNothing(dead);
    } else {
      LiveOfKept(log, first, last - 1, dropped, dead);
      var k, e := Kept(log, first, last - 1, dropped), Entry(last, log[last - 1]);
      assert Kept(log, first, last, dropped) == if last in dropped then k else k + [e];
      LiveOfOne(k, dead, e);
    }
  }

  /** A file away from the group has the same index entry. */
  lemma ElseUnchanged(t: Segment, log: seq<WireRecord>, dropped: set<nat>, gone: set<nat>, first: nat, last: nat)
    requires 0 < t.first && t.last <= |log| && LogFits(log)
    requires t.last < first || last < t.first
    requires DropsWithin(dropped, gone, first, last)
    ensures FileOf(t, log, gone) == FileOf(t, log, dropped)
  {
    hide LogFits, Kept, File, SpansAt;
    KeptSame(log, t.first, t.last, dropped, gone);
  }

  /** The index entry of a group's replacement put in the place of the group. */
  lemma IndexRewrites(segs: seq<Segment>, i: nat, j: nat, log: seq<WireRecord>, dropped: set<nat>, gone: set<nat>)
    requires Contiguous(segs, |log|) && i < j < |segs| && LogFits(log)
    requires DropsWithin(dropped, gone, segs[i].first, segs[j - 1].last)
    ensures Contiguous(Merged(segs, i, j), |log|)
    ensures var files := FilesOf(segs, log, dropped);
            var s := Segment(segs[i].first, segs[j - 1].last, true);
            FilesOf(Merged(segs, i, j), log, gone) == files[..i] + [FileOf(s, log, gone)] + files[j..]
  {
    hide LogFits, FileOf, DropsWithin, Merged;
    MergedContiguous(segs, |log|, i, j);
    MergedAt(segs, i, j, 0);
    var m := Merged(segs, i, j);
    var s := Segment(segs[i].first, segs[j - 1].last, true);
    var files := FilesOf(segs, log, dropped);
    var after := files[..i] + [FileOf(s, log, gone)] + files[j..];
    forall k | 0 <= k < |m|
      ensures FileOf(m[k], log, gone) == after[k]
    {
      MergedAt(segs, i, j, k);
      if k != i {
        var x := if k < i then k else k + (j - i) - 1;
        if k < i {
          SegmentsAscend(segs, |log|, x, i);
        } else {
          SegmentsAscend(segs, |log|, j - 1, x);
        }
        ElseUnchanged(segs[x], log, dropped, gone, s.first, s.last);
      }
    }
    assert FilesOf(m, log, gone) == after;
  }

  /** A replacement put in the place of its group keeps the index right. */
  lemma GoodRewrite(d: Directory, files: seq<LogFile>, segs: seq<Segment>, i: nat, j: nat, log: seq<WireRecord>,
                    dropped: set<nat>, gone: set<nat>)
    requires Tidy(d, segs, log, dropped, [], Nothing) && LogFits(log) && i < j < |segs|
    requires Contiguous(segs, |log|) && files == FilesOf(segs, log, dropped) && !segs[|segs| - 1].sparse
    requires DropsWithin(dropped, gone, segs[i].first, segs[j - 1].last)
    ensures var s := Segment(segs[i].first, segs[j - 1].last, true);
            && 0 < s.first && s.last <= |log|
            && Tidy(Replaced(d, s, log, gone), Merged(segs, i, j), log, gone, [], Group(i, segs[i..j], dropped))
            && Good(Replaced(d, s, log, gone), files[..i] + [FileOf(s, log, gone)] + files[j..], Merged(segs, i, j), log, gone)
  {
    hide LogFits, FileOf, Layout, Contiguous, FilesOf, Merged, Tidy, DropsWithin, Replaced;
    RewriteStarts(d, segs, i, j, log, dropped, gone);
    IndexRewrites(segs, i, j, log, dropped, gone);
    var s := Segment(segs[i].first, segs[j - 1].last, true);
    TidyLayout(Replaced(d, s, log, gone), Merged(segs, i, j), log, gone, [], Group(i, segs[i..j], dropped));
    SegmentBounds(segs, |log|, i);
    SegmentBounds(segs, |log|, j - 1);
    MergedAt(segs, i, j, |segs| - (j - i));
  }

  lemma SegmentBounds(segs: seq<Segment>, n: nat, i: nat)
    requires Contiguous(segs, n) && i < |segs|
    ensures SegmentOk(segs[i], n)
  {
  }

  // ---------------------------------------------------------------------
  // Looking a revision up

  /** The file covering a revision, searched from the end. */
  method FindFile(files: seq<LogFile>, revision: nat, ghost segs: seq<Segment>, ghost log: seq<WireRecord>,
                  ghost dropped: set<nat>)
    returns (k: int)
    requires Contiguous(segs, |log|) && LogFits(log) && files == FilesOf(segs, log, dropped)
    ensures 0 < revision <= |log| <==> k >= 0
    ensures k >= 0 ==> k < |files| && files[k].first <= revision <= files[k].last
  {
    hide LogFits, FileOf;
    k := |files| - 1;
    while k >= 0
      invariant -1 <= k < |files|
      invariant forall i :: k < i < |files| ==> revision < files[i].first
    {
      FileOfName(segs[k], log, dropped);
      if files[k].first <= revision {
        if revision <= files[k].last {
          return;
        }
        BeyondLast(segs, |log|, k, revision, log, dropped);
        return -1;
      }
      k := k - 1;
    }
    if |segs| > 0 {
      FileOfName(segs[0], log, dropped);
    }
  }

  /** A revision past a file is covered by the next or by none. */
  lemma BeyondLast(segs: seq<Segment>, n: nat, k: nat, revision: nat, log: seq<WireRecord>, dropped: set<nat>)
    requires Contiguous(segs, n) && k < |segs| && n == |log| && LogFits(log)
    requires segs[k].last < revision
    ensures revision <= n ==> k < |segs| - 1 && FilesOf(segs, log, dropped)[k + 1].first <= revision
  {
    hide LogFits, FileOf;
    if k < |segs| - 1 {
      FileOfName(segs[k + 1], log, dropped);
      assert segs[k + 1].first == segs[k].last + 1;
    }
  }

  /** The first index whose revision is at least `revision`, by bisection. */
  method Search(revisions: seq<nat>, revision: nat) returns (pos: nat)
    requires forall i, j :: 0 <= i < j < |revisions| ==> revisions[i] < revisions[j]
    ensures pos <= |revisions|
    ensures forall i :: 0 <= i < pos ==> revisions[i] < revision
    ensures forall i :: pos <= i < |revisions| ==> revision <= revisions[i]
  {
    var hi := |revisions|;
    pos := 0;
    while pos < hi
      invariant 0 <= pos <= hi <= |revisions|
      invariant forall i :: 0 <= i < pos ==> revisions[i] < revision
      invariant forall i :: hi <= i < |revisions| ==> revision <= revisions[i]
    {
      var mid := (pos + hi) / 2;
      if revisions[mid] >= revision {
        hi := mid;
      } else {
        pos := mid + 1;
      }
    }
  }

  datatype Place = At(pos: nat) | Compacted | Missing

  /** Where a revision's record is in the file covering it. */
  method Locate(f: LogFile, revision: nat) returns (p: Place)
    requires f.sparse ==> forall i, j :: 0 <= i < j < |f.revisions| ==> f.revisions[i] < f.revisions[j]
    ensures !f.sparse ==> p == if f.first <= revision < f.first + |f.spans| then At(revision - f.first) else Missing
    ensures f.sparse ==> !p.Missing? && (p.Compacted? <==> revision !in f.revisions)
    ensures f.sparse && p.At? ==> p.pos < |f.revisions| && f.revisions[p.pos] == revision
  {
    if !f.sparse {
      if revision < f.first || revision - f.first >= |f.spans| {
        return Missing;
      }
      return At(revision - f.first);
    }
    var pos := Search(f.revisions, revision);
    if pos >= |f.revisions| || f.revisions[pos] != revision {
      return Compacted;
    }
    return At(pos);
  }

  lemma {:induction false} Ascending(revisions: seq<nat>, first: nat, last: nat, i: nat, j: nat)
    requires SparseOk(revisions, first, last) && i < j < |revisions|
    ensures revisions[i] < revisions[j]
  {
    if i < j - 1 {
      Ascending(revisions, first, last, i, j - 1);
    }
    assert revisions[j - 1] < revisions[j];
  }

  /** What `Locate` means for the file of a segment. */
  ghost predicate RightPlace(s: Segment, log: seq<WireRecord>, dropped: set<nat>, revision: nat, p: Place)
    requires 0 < s.first <= revision <= s.last <= |log|
  {
    var c := Content(s, log, dropped);
    && !p.Missing?
    && (p.Compacted? <==> revision in dropped)
    && (p.At? ==> p.pos < |c| && c[p.pos] == Entry(revision, log[revision - 1]))
  }

  lemma FileAscends(s: Segment, log: seq<WireRecord>, dropped: set<nat>)
    requires 0 < s.first && s.last <= |log| && LogFits(log)
    ensures var f := FileOf(s, log, dropped);
            forall i, j :: 0 <= i < j < |f.revisions| ==> f.revisions[i] < f.revisions[j]
  {
    hide LogFits, Kept, SpansAt, File, SparseOk;
    if s.sparse {
      KeptAscends(log, s.first, s.last, dropped);
      var revs := RevisionsOf(Content(s, log, dropped));
      forall i, j | 0 <= i < j < |revs|
        ensures revs[i] < revs[j]
      {
        Ascending(revs, s.first, s.last, i, j);
      }
    }
  }

  lemma DenseContent(log: seq<WireRecord>, first: nat, last: nat, dropped: set<nat>, revision: nat)
    requires 0 < first <= revision <= last <= |log|
    requires forall r :: first <= r <= last ==> r !in dropped
    ensures |Kept(log, first, last, dropped)| == last - first + 1
    ensures Kept(log, first, last, dropped)[revision - first] == Entry(revision, log[revision - 1])
  {
    hide Kept;
    KeptWhole(log, first, last, dropped);
    var c := Kept(log, first, last, dropped);
    var x := revision - first;
    assert RevisionsOf(c)[x] == first + x;
    KeptBelow(log, first, last, dropped, c[x]);
  }

  lemma FileOfCount(s: Segment, log: seq<WireRecord>, dropped: set<nat>)
    requires 0 < s.first && s.last <= |log| && LogFits(log)
    ensures |FileOf(s, log, dropped).spans| == |Content(s, log, dropped)|
  {
    hide LogFits, Kept, File, SpansAt, EntriesOk;
    KeptFits(log, s.first, s.last, dropped);
    EntriesAreRecords(Content(s, log, dropped));
    SpansCount(Content(s, log, dropped), |MAGIC|);
  }

  lemma DensePlace(s: Segment, log: seq<WireRecord>, dropped: set<nat>, revision: nat, p: Place)
    requires 0 < s.first <= revision <= s.last <= |log| && LogFits(log) && !s.sparse && Whole(s, dropped)
    requires var f := FileOf(s, log, dropped);
             p == if f.first <= revision < f.first + |f.spans| then At(revision - f.first) else Missing
    ensures RightPlace(s, log, dropped, revision, p)
  {
    hide LogFits, Kept, FileOf;
    FileOfName(s, log, dropped);
    FileOfCount(s, log, dropped);
    DenseContent(log, s.first, s.last, dropped, revision);
  }

  lemma RevisionsHave(log: seq<WireRecord>, first: nat, last: nat, dropped: set<nat>, revision: nat)
    requires 0 < first <= revision <= last <= |log|
    ensures revision in RevisionsOf(Kept(log, first, last, dropped)) <==> revision !in dropped
  {
    hide Kept;
    var c := Kept(log, first, last, dropped);
    KeptHas(log, first, last, dropped, revision);
    if revision !in dropped {
      var x :| 0 <= x < |c| && c[x] == Entry(revision, log[revision - 1]);
      assert RevisionsOf(c)[x] == revision;
    } else {
      assert forall x :: 0 <= x < |c| ==> c[x] in c;
    }
  }

  lemma SparsePlace(s: Segment, log: seq<WireRecord>, dropped: set<nat>, revision: nat, p: Place)
    requires 0 < s.first <= revision <= s.last <= |log| && LogFits(log) && s.sparse
    requires var f := FileOf(s, log, dropped);
             && !p.Missing? && (p.Compacted? <==> revision !in f.revisions)
             && (p.At? ==> p.pos < |f.revisions| && f.revisions[p.pos] == revision)
    ensures RightPlace(s, log, dropped, revision, p)
  {
    hide LogFits, Kept, File, SpansAt;
    RevisionsHave(log, s.first, s.last, dropped, revision);
    if p.At? {
      KeptBelow(log, s.first, s.last, dropped, Content(s, log, dropped)[p.pos]);
    }
  }

  /** Reading the span of a segment's record decodes to it. */
  lemma SpanReads(d: Directory, s: Segment, log: seq<WireRecord>, dropped: set<nat>, pos: nat)
    requires 0 < s.first && s.last <= |log| && LogFits(log) && Holds(d, s, log, dropped, [])
    requires pos < |Content(s, log, dropped)|
    ensures var f := FileOf(s, log, dropped);
            && |f.spans| == |Content(s, log, dropped)|
            && f.spans[pos].offset + f.spans[pos].length <= |d[SegName(s)]|
            && Decode(d[SegName(s)][f.spans[pos].offset..f.spans[pos].offset + f.spans[pos].length]) ==
               Ok(Content(s, log, dropped)[pos].record)
  {
    hide LogFits, Kept, File, SpansAt, Decode, RevisionOf, EntriesOk;
    var c := Content(s, log, dropped);
    KeptFits(log, s.first, s.last, dropped);
    EntriesAreRecords(c);
    SpanDecodes(c, [], pos);
    assert File(c) + [] == File(c);
  }
}
