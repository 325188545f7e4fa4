/**
 Log files as values: what a directory of dense and sparse files stands for,
 what opening it does, and what a crash between two directory operations leaves
 for it. `FilesystemLog.dfy` performs the operations.
 */
module LogFiles {
  import opened Bytes
  import opened Records
  import opened Wire
  import opened LogCodec

  /** A directory entry, by what its name says. `FileNames.dfy` relates these to the names themselves. */
  datatype Name =
    | Dense(first: nat)
    | Sparse(first: nat, last: nat)
    | Other(text: Key)   // a temporary file, or anything else that is not a log file

  type Directory = map<Name, Bytestring>

  predicate IsLogFile(n: Name) {
    n.Dense? || n.Sparse?
  }

  /** A file of the log: the revisions it covers, and where its records are. */
  datatype LogFile = LogFile(
    first: nat,
    last: nat,
    sparse: bool,
    size: nat,
    spans: seq<Span>,
    revisions: seq<nat>)   // of a sparse file; a dense one's follow from `first`

  function NameOf(first: nat, last: nat, sparse: bool): Name {
    if sparse then Sparse(first, last) else Dense(first)
  }

  function FileName(f: LogFile): Name {
    NameOf(f.first, f.last, f.sparse)
  }

  // ---------------------------------------------------------------------
  // Opening a directory

  /** How files are ordered: by first revision, a sparse file before the dense one it replaced. */
  predicate Before(a: Name, b: Name)
    requires IsLogFile(a) && IsLogFile(b)
  {
    a.first < b.first || (a.first == b.first && (a.Sparse? || !b.Sparse?))
  }

  /** The log files of a directory, sorted; files that compare equal may come in either order. */
  ghost predicate IsListing(names: seq<Name>, d: Directory) {
    && (forall i :: 0 <= i < |names| ==> IsLogFile(names[i]) && names[i] in d)
    && (forall n :: n in d && IsLogFile(n) ==> n in names)
    && (forall i, j :: 0 <= i < j < |names| ==> names[i] != names[j] && Before(names[i], names[j]))
  }

  predicate Supersedes(cover: Name, n: Name) {
    cover.Sparse? && IsLogFile(n) && cover.first <= n.first <= cover.last
  }

  /** The files that are kept: one covered by the sparse file kept just before it is removed. */
  function KeepFiles(names: seq<Name>): seq<Name> {
    if names == [] then []
    else
      var kept := KeepFiles(names[..|names| - 1]);
      var n := names[|names| - 1];
      if kept != [] && Supersedes(kept[|kept| - 1], n) then kept else kept + [n]
  }

  /** The revisions of a sparse file are in its range, in ascending order. */
  predicate SparseOk(revisions: seq<nat>, first: nat, last: nat) {
    forall j :: 0 <= j < |revisions| ==>
      first <= revisions[j] <= last && (j > 0 ==> revisions[j - 1] < revisions[j])
  }

  predicate DenseOk(revisions: seq<nat>, first: nat) {
    forall j :: 0 <= j < |revisions| ==> revisions[j] == first + j
  }

  /** Index one file; `next` is the revision it must start at. */
  function OpenFile(n: Name, data: Bytestring, isLast: bool, next: nat): Result<LogFile>
    requires IsLogFile(n) && next > 0
  {
    match Scan(data)
    case Err => Err
    case Ok(s) =>
      if s.complete < |data| && (!isLast || n.Sparse?) then Err
      else if n.Sparse? && !SparseOk(s.revisions, n.first, n.last) then Err
      else if n.Dense? && !DenseOk(s.revisions, n.first) then Err
      else if n.first != next then Err
      else
        var last := if n.Sparse? then n.last else n.first + |s.revisions| - 1;
        Ok(LogFile(n.first, last, n.Sparse?, s.complete, s.spans, if n.Sparse? then s.revisions else []))
  }

  function OpenFiles(names: seq<Name>, total: nat, d: Directory): Result<seq<LogFile>>
    requires |names| <= total
    requires forall i :: 0 <= i < |names| ==> IsLogFile(names[i]) && names[i] in d
  {
    if names == [] then Ok([])
    else
      var m := |names| - 1;
      match OpenFiles(names[..m], total, d)
      case Err => Err
      case Ok(files) =>
        var next := if files == [] then 1 else files[|files| - 1].last + 1;
        match OpenFile(names[m], d[names[m]], m == total - 1, next)
        case Err => Err
        case Ok(f) => Ok(files + [f])
  }

  // ---------------------------------------------------------------------
  // What files hold

  /** A run of revisions that one file covers. */
  datatype Segment = Segment(first: nat, last: nat, sparse: bool)

  /** The records of a range that compaction has not dropped. */
  function Kept(log: seq<WireRecord>, first: nat, last: int, dropped: set<nat>): seq<Entry>
    requires 0 < first && last <= |log|
    decreases last
  {
    if last < first then []
    else Kept(log, first, last - 1, dropped) + if last in dropped then [] else [Entry(last, log[last - 1])]
  }

  /** Every record of the log can be encoded at its revision. */
  ghost predicate LogFits(log: seq<WireRecord>) {
    forall i :: 0 <= i < |log| ==> Encodable(i + 1, log[i])
  }

  lemma {:induction false} KeptFits(log: seq<WireRecord>, first: nat, last: int, dropped: set<nat>)
    requires 0 < first && last <= |log| && LogFits(log)
    ensures EntriesOk(Kept(log, first, last, dropped))
    decreases last
  {
    hide Encodable;
    if last >= first {
      KeptFits(log, first, last - 1, dropped);
      assert Encodable((last - 1) + 1, log[last - 1]);
    }
  }

  lemma {:induction false} KeptAscends(log: seq<WireRecord>, first: nat, last: int, dropped: set<nat>)
    requires 0 < first && last <= |log|
    ensures SparseOk(RevisionsOf(Kept(log, first, last, dropped)), first, if last < 0 then 0 else last)
    ensures var k := Kept(log, first, last, dropped);
            k != [] ==> k[|k| - 1].revision <= last
    decreases last
  {
    if last >= first {
      KeptAscends(log, first, last - 1, dropped);
    }
  }

  lemma {:induction false} KeptWhole(log: seq<WireRecord>, first: nat, last: int, dropped: set<nat>)
    requires 0 < first && first - 1 <= last <= |log|
    requires forall r :: first <= r <= last ==> r !in dropped
    ensures DenseOk(RevisionsOf(Kept(log, first, last, dropped)), first)
    ensures |Kept(log, first, last, dropped)| == last - first + 1
    decreases last
  {
    if last >= first {
      KeptWhole(log, first, last - 1, dropped);
    }
  }

  lemma {:induction false} KeptGrows(log: seq<WireRecord>, more: seq<WireRecord>, first: nat, last: int, dropped: set<nat>)
    requires 0 < first && last <= |log|
    ensures Kept(log + more, first, last, dropped) == Kept(log, first, last, dropped)
    decreases last
  {
    if last >= first {
      KeptGrows(log, more, first, last - 1, dropped);
    }
  }

  lemma {:induction false} KeptSplits(log: seq<WireRecord>, first: nat, mid: int, last: int, dropped: set<nat>)
    requires 0 < first && first - 1 <= mid <= last <= |log|
    ensures Kept(log, first, last, dropped) == Kept(log, first, mid, dropped) + Kept(log, mid + 1, last, dropped)
    decreases last
  {
    if last > mid {
      KeptSplits(log, first, mid, last - 1, dropped);
    } else {
      assert Kept(log, mid + 1, last, dropped) == [];
    }
  }

  lemma {:induction false} KeptSame(log: seq<WireRecord>, first: nat, last: int, a: set<nat>, b: set<nat>)
    requires 0 < first && last <= |log|
    requires forall r :: first <= r <= last ==> (r in a <==> r in b)
    ensures Kept(log, first, last, a) == Kept(log, first, last, b)
    decreases last
  {
    if last >= first {
      KeptSame(log, first, last - 1, a, b);
    }
  }

  /** The entry of a revision that was kept. */
  lemma {:induction false} KeptHas(log: seq<WireRecord>, first: nat, last: int, dropped: set<nat>, r: nat)
    requires 0 < first && last <= |log| && first <= r <= last
    ensures r !in dropped ==> Entry(r, log[r - 1]) in Kept(log, first, last, dropped)
    ensures r in dropped ==> forall e :: e in Kept(log, first, last, dropped) ==> e.revision != r
    decreases last
  {
    if r < last {
      KeptHas(log, first, last - 1, dropped, r);
    } else {
      forall e | e in Kept(log, first, last - 1, dropped)
        ensures e.revision < r
      {
        KeptBelow(log, first, last - 1, dropped, e);
      }
    }
  }

  lemma {:induction false} KeptBelow(log: seq<WireRecord>, first: nat, last: int, dropped: set<nat>, e: Entry)
    requires 0 < first && last <= |log| && e in Kept(log, first, last, dropped)
    ensures first <= e.revision <= last && e.revision !in dropped && e.record == log[e.revision - 1]
    decreases last
  {
    if last >= first && e in Kept(log, first, last - 1, dropped) {
      KeptBelow(log, first, last - 1, dropped, e);
    }
  }

  // ---------------------------------------------------------------------
  // A directory that holds a log

  /** The segments cover 1..n without gap or overlap; only a dense one at the end may be empty. */
  ghost predicate Contiguous(segs: seq<Segment>, n: nat) {
    && (segs == [] ==> n == 0)
    && (segs != [] ==> segs[0].first == 1 && segs[|segs| - 1].last == n)
    && (forall i :: 0 <= i < |segs| ==> SegmentOk(segs[i], n))
    && (forall i :: 0 <= i < |segs| - 1 ==> segs[i].first <= segs[i].last && segs[i + 1].first == segs[i].last + 1)
  }

  predicate SegmentOk(s: Segment, n: nat) {
    && 0 < s.first && s.first - 1 <= s.last <= n
    && (s.sparse ==> s.first <= s.last)
  }

  function SegName(s: Segment): Name {
    NameOf(s.first, s.last, s.sparse)
  }

  function SegNames(segs: seq<Segment>): (names: seq<Name>)
    ensures |names| == |segs|
    ensures forall i :: 0 <= i < |names| ==> names[i] == SegName(segs[i])
  {
    seq(|segs|, i requires 0 <= i < |segs| => SegName(segs[i]))
  }

  /** What a segment's file holds. */
  ghost function Content(s: Segment, log: seq<WireRecord>, dropped: set<nat>): seq<Entry>
    requires 0 < s.first && s.last <= |log|
  {
    Kept(log, s.first, s.last, dropped)
  }

  ghost function FileOf(s: Segment, log: seq<WireRecord>, dropped: set<nat>): LogFile
    requires 0 < s.first && s.last <= |log| && LogFits(log)
  {
    KeptFits(log, s.first, s.last, dropped);
    EntriesAreRecords(Content(s, log, dropped));
    var c := Content(s, log, dropped);
    LogFile(s.first, s.last, s.sparse, |File(c)|, SpansAt(c, |MAGIC|), if s.sparse then RevisionsOf(c) else [])
  }

  ghost predicate Holds(d: Directory, s: Segment, log: seq<WireRecord>, dropped: set<nat>, tail: Bytestring)
    requires 0 < s.first && s.last <= |log| && LogFits(log)
  {
    KeptFits(log, s.first, s.last, dropped);
    EntriesAreRecords(Content(s, log, dropped));
    && SegName(s) in d
    && d[SegName(s)] == File(Content(s, log, dropped)) + tail
  }

  /** Nothing of a dense segment has been dropped. */
  ghost predicate Whole(s: Segment, dropped: set<nat>) {
    !s.sparse ==> forall r :: s.first <= r <= s.last ==> r !in dropped
  }

  /** Reading back one segment's file, cut anywhere past its records if it is the last. */
  lemma OpenOne(d: Directory, s: Segment, log: seq<WireRecord>, dropped: set<nat>, tail: Bytestring, isLast: bool)
    requires 0 < s.first && s.first - 1 <= s.last <= |log| && LogFits(log)
    requires Holds(d, s, log, dropped, tail) && Whole(s, dropped) && Torn(tail)
    requires tail != [] ==> isLast && !s.sparse
    ensures OpenFile(SegName(s), d[SegName(s)], isLast, s.first) == Ok(FileOf(s, log, dropped))
  {
    hide Kept, Scan, SpansAt, Frames, EntriesOk, Torn;
    var c := Content(s, log, dropped);
    KeptFits(log, s.first, s.last, dropped);
    EntriesAreRecords(c);
    ScanIsExact(c, tail);
    KeptAscends(log, s.first, s.last, dropped);
    if !s.sparse {
      KeptWhole(log, s.first, s.last, dropped);
    }
  }

  /** The directory holds the log in these segments, with `tail` torn off at the end of the last. */
  ghost predicate Layout(d: Directory, segs: seq<Segment>, log: seq<WireRecord>, dropped: set<nat>, tail: Bytestring) {
    && LogFits(log)
    && Contiguous(segs, |log|)
    && Torn(tail)
    && (tail != [] ==> segs != [] && !segs[|segs| - 1].sparse)
    && (forall i :: 0 <= i < |segs| ==> Whole(segs[i], dropped))
    && (forall i :: 0 <= i < |segs| ==> Holds(d, segs[i], log, dropped, if i == |segs| - 1 then tail else []))
  }

  lemma LayoutHas(d: Directory, segs: seq<Segment>, log: seq<WireRecord>, dropped: set<nat>, tail: Bytestring, i: nat)
    requires Layout(d, segs, log, dropped, tail) && i < |segs|
    ensures 0 < segs[i].first && segs[i].last <= |log|
    ensures Holds(d, segs[i], log, dropped, if i == |segs| - 1 then tail else [])
    ensures SegName(segs[i]) in d && Whole(segs[i], dropped)
  {
    hide Content, LogFits, Whole;
  }

  lemma LayoutContiguous(d: Directory, segs: seq<Segment>, log: seq<WireRecord>, dropped: set<nat>, tail: Bytestring)
    requires Layout(d, segs, log, dropped, tail)
    ensures Contiguous(segs, |log|) && LogFits(log) && Torn(tail)
    ensures tail != [] ==> segs != [] && !segs[|segs| - 1].sparse
  {
  }

  lemma SegmentStarts(segs: seq<Segment>, n: nat, k: nat)
    requires Contiguous(segs, n) && k < |segs|
    ensures SegmentOk(segs[k], n)
    ensures segs[k].first == if k == 0 then 1 else segs[k - 1].last + 1
  {
    if k > 0 {
      var j := k - 1;
      assert segs[j + 1].first == segs[j].last + 1;
    }
  }

  ghost function FilesOf(segs: seq<Segment>, log: seq<WireRecord>, dropped: set<nat>): (files: seq<LogFile>)
    requires LogFits(log)
    requires forall i :: 0 <= i < |segs| ==> 0 < segs[i].first && segs[i].last <= |log|
    ensures |files| == |segs|
    ensures forall i :: 0 <= i < |files| ==> files[i] == FileOf(segs[i], log, dropped)
  {
    seq(|segs|, i requires 0 <= i < |segs| => FileOf(segs[i], log, dropped))
  }

  lemma OpenNext(names: seq<Name>, n: Name, total: nat, d: Directory, files: seq<LogFile>, next: nat, f: LogFile)
    requires |names| < total && next > 0
    requires IsLogFile(n) && n in d
    requires forall i :: 0 <= i < |names| ==> IsLogFile(names[i]) && names[i] in d
    requires OpenFiles(names, total, d) == Ok(files)
    requires next == if files == [] then 1 else files[|files| - 1].last + 1
    requires OpenFile(n, d[n], |names| == total - 1, next) == Ok(f)
    ensures forall i :: 0 <= i < |names| + 1 ==> IsLogFile((names + [n])[i]) && (names + [n])[i] in d
    ensures OpenFiles(names + [n], total, d) == Ok(files + [f])
  {
    hide OpenFile;
    assert (names + [n])[..|names|] == names;
  }

  lemma SegNamesExt(segs: seq<Segment>, m: nat)
    requires m < |segs|
    ensures SegNames(segs[..m + 1]) == SegNames(segs[..m]) + [SegName(segs[m])]
  {
  }

  lemma FilesOfExt(segs: seq<Segment>, m: nat, log: seq<WireRecord>, dropped: set<nat>)
    requires m < |segs| && LogFits(log)
    requires forall i :: 0 <= i < |segs| ==> 0 < segs[i].first && segs[i].last <= |log|
    ensures FilesOf(segs[..m + 1], log, dropped) == FilesOf(segs[..m], log, dropped) + [FileOf(segs[m], log, dropped)]
    ensures m > 0 ==> FilesOf(segs[..m], log, dropped)[m - 1] == FileOf(segs[m - 1], log, dropped)
    ensures FileOf(segs[m], log, dropped).last == segs[m].last
    ensures m > 0 ==> FileOf(segs[m - 1], log, dropped).last == segs[m - 1].last
  {
    hide FileOf, LogFits;
    FileOfBounds(segs[m], log, dropped);
    if m > 0 {
      FileOfBounds(segs[m - 1], log, dropped);
    }
  }

  lemma FileOfBounds(s: Segment, log: seq<WireRecord>, dropped: set<nat>)
    requires 0 < s.first && s.last <= |log| && LogFits(log)
    ensures FileOf(s, log, dropped).first == s.first && FileOf(s, log, dropped).last == s.last
  {
  }

  /** Opening the files of a layout gives back exactly what they hold. */
  lemma {:induction false} OpenSegments(d: Directory, segs: seq<Segment>, log: seq<WireRecord>, dropped: set<nat>,
                                        tail: Bytestring, m: nat)
    requires Layout(d, segs, log, dropped, tail) && m <= |segs|
    ensures forall i :: 0 <= i < m ==> IsLogFile(SegNames(segs[..m])[i]) && SegNames(segs[..m])[i] in d
    ensures OpenFiles(SegNames(segs[..m]), |segs|, d) == Ok(FilesOf(segs[..m], log, dropped))
  {
    hide Layout, Contiguous, OpenFile, FileOf, LogFits, Holds, Whole, OpenFiles, SegNames, FilesOf, Torn;
    LayoutContiguous(d, segs, log, dropped, tail);
    if m > 0 {
      var k := m - 1;
      LayoutHas(d, segs, log, dropped, tail, k);
      SegmentStarts(segs, |log|, k);
      LayoutBounds(segs, |log|);
      NothingTorn();
      OpenSegments(d, segs, log, dropped, tail, k);
      OpenOne(d, segs[k], log, dropped, if m == |segs| then tail else [], m == |segs|);
      SegNamesExt(segs, k);
      FilesOfExt(segs, k, log, dropped);
      OpenNext(SegNames(segs[..k]), SegName(segs[k]), |segs|, d, FilesOf(segs[..k], log, dropped),
               segs[k].first, FileOf(segs[k], log, dropped));
    } else {
      OpenNone(d, |segs|, log, dropped);
    }
  }

  lemma NothingTorn()
    ensures Torn([])
  {
  }

  lemma LayoutBounds(segs: seq<Segment>, n: nat)
    requires Contiguous(segs, n)
    ensures forall i :: 0 <= i < |segs| ==> 0 < segs[i].first && segs[i].last <= n
  {
  }

  lemma OpenNone(d: Directory, total: nat, log: seq<WireRecord>, dropped: set<nat>)
    requires LogFits(log)
    ensures OpenFiles(SegNames([]), total, d) == Ok(FilesOf([], log, dropped))
  {
  }
}
